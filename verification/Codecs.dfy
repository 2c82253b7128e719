/** UTF-8 and strict EUC-JP (src/encoding.c), byte by byte.  Characters and bytes
    are 32-bit words so that shifts and masks are the program's own; characters
    are not negative. */
module Codecs {
  import opened Forms

  type Byte = b: bv32 | b <= 0xFF

  /** ScmMultibyteCharInfo. */
  datatype Info = Info(size: nat, error: bool, incomplete: bool)

  datatype Codec = Utf8 | EucJp

  function Return(n: nat): Info { Info(n, false, false) }
  function ReturnError(): Info { Info(1, true, false) }
  function ReturnIncomplete(n: nat): Info { Info(n, false, true) }

  /* ---- UTF-8 ---- */

  predicate IsLen2(c: bv32) { c & 0xE0 == 0xC0 }
  predicate IsLen3(c: bv32) { c & 0xF0 == 0xE0 }
  predicate IsLen4(c: bv32) { c & 0xF8 == 0xF0 }
  predicate IsTrailing(c: bv32) { c & 0xC0 == 0x80 }

  function Utf8Length(c: bv32): Option<nat> {
    if c <= 0x7F then Some(1)
    else if IsLen2(c) then Some(2)
    else if IsLen3(c) then Some(3)
    else if IsLen4(c) then Some(4)
    else None
  }

  /** The trailing bytes from the i-th on. */
  function Utf8Trailing(s: seq<Byte>, i: nat, len: nat): (r: Info)
    ensures 1 <= i <= len && i <= |s| ==> 1 <= r.size <= |s|
    decreases len - i
  {
    if i >= len then Return(len)
    else if |s| <= i then ReturnIncomplete(|s|)
    else if !IsTrailing(s[i]) then ReturnError()
    else Utf8Trailing(s, i + 1, len)
  }

  function Utf8Scan(s: seq<Byte>): Info {
    if s == [] then Return(0)
    else match Utf8Length(s[0])
      case None => ReturnError()
      case Some(len) => if len == 1 then Return(1) else Utf8Trailing(s, 1, len)
  }

  /** utf8_scan_char. */
  method Utf8ScanChar(s: seq<Byte>) returns (r: Info)
    ensures r == Utf8Scan(s)
  {
    if s == [] { return Return(0); }
    if s[0] <= 0x7F { return Return(1); }
    var len: nat;
    if IsLen2(s[0]) { len := 2; }
    else if IsLen3(s[0]) { len := 3; }
    else if IsLen4(s[0]) { len := 4; }
    else { return ReturnError(); }
    var i := 1;
    while i < len
      invariant 1 <= i <= len && Utf8Trailing(s, i, len) == Utf8Scan(s)
    {
      if |s| <= i { return ReturnIncomplete(|s|); }
      if !IsTrailing(s[i]) { return ReturnError(); }
      i := i + 1;
    }
    return Return(len);
  }

  function Join2(a: bv32, b: bv32): bv32 { ((a & 0x1F) << 6) | (b & 0x3F) }

  function Join3(a: bv32, b: bv32, c: bv32): bv32 { ((a & 0x0F) << 12) | ((b & 0x3F) << 6) | (c & 0x3F) }

  function Join4(a: bv32, b: bv32, c: bv32, d: bv32): bv32 {
    ((a & 0x07) << 18) | ((b & 0x3F) << 12) | ((c & 0x3F) << 6) | (d & 0x3F)
  }

  function Utf8Str2Int(s: seq<Byte>): Option<bv32> {
    if |s| == 1 then Some(s[0])
    else if |s| == 2 then Some(Join2(s[0], s[1]))
    else if |s| == 3 then Some(Join3(s[0], s[1], s[2]))
    else if |s| == 4 then Some(Join4(s[0], s[1], s[2], s[3]))
    else None
  }

  /** Bytes of an encoding: code bits and value bits. */
  function Lead2(ch: bv32): Byte
    requires ch <= 0x7FF
  { 0xC0 | (ch >> 6) }

  function Lead3(ch: bv32): Byte
    requires ch <= 0xFFFF
  { 0xE0 | (ch >> 12) }

  function Lead4(ch: bv32): Byte
    requires ch <= 0x10FFFF
  { 0xF0 | (ch >> 18) }

  function Trail0(ch: bv32): Byte { 0x80 | (ch & 0x3F) }
  function Trail1(ch: bv32): Byte { 0x80 | ((ch >> 6) & 0x3F) }
  function Trail2(ch: bv32): Byte { 0x80 | ((ch >> 12) & 0x3F) }

  function Utf8Int2Str(ch: bv32): Option<seq<Byte>> {
    if ch <= 0x7F then Some([ch])
    else if ch <= 0x7FF then Some([Lead2(ch), Trail0(ch)])
    else if ch <= 0xFFFF then Some([Lead3(ch), Trail1(ch), Trail0(ch)])
    else if ch <= 0x10FFFF then Some([Lead4(ch), Trail2(ch), Trail1(ch), Trail0(ch)])
    else None
  }

  lemma Bits2(ch: bv32)
    requires 0x7F < ch <= 0x7FF
    ensures Utf8Length(Lead2(ch)) == Some(2) && IsTrailing(Trail0(ch)) && Join2(Lead2(ch), Trail0(ch)) == ch
    ensures Lead2(ch) != 0 && Trail0(ch) != 0
  {
  }

  lemma Bits3(ch: bv32)
    requires 0x7FF < ch <= 0xFFFF
    ensures Utf8Length(Lead3(ch)) == Some(3) && IsTrailing(Trail1(ch)) && IsTrailing(Trail0(ch))
    ensures Join3(Lead3(ch), Trail1(ch), Trail0(ch)) == ch
    ensures Lead3(ch) != 0 && Trail1(ch) != 0 && Trail0(ch) != 0
  {
  }

  lemma Bits4(ch: bv32)
    requires 0xFFFF < ch <= 0x10FFFF
    ensures Utf8Length(Lead4(ch)) == Some(4) && IsTrailing(Trail2(ch)) && IsTrailing(Trail1(ch)) &&
      IsTrailing(Trail0(ch))
    ensures Join4(Lead4(ch), Trail2(ch), Trail1(ch), Trail0(ch)) == ch
    ensures Lead4(ch) != 0 && Trail2(ch) != 0 && Trail1(ch) != 0 && Trail0(ch) != 0
  {
  }

  /* ---- EUC-JP, checked strictly ---- */

  const SS2: bv32 := 0x8E
  const SS3: bv32 := 0x8F

  predicate InGr94(c: bv32) { 0xA1 <= c <= 0xFE }
  predicate InGr96(c: bv32) { 0xA0 <= c }

  function EucScan(s: seq<Byte>): Info {
    if s == [] then Return(0)
    else if s[0] <= 0x7F then Return(1)
    else if InGr94(s[0]) || s[0] == SS2 then
      if |s| < 2 then ReturnIncomplete(1) else if !InGr96(s[1]) then ReturnError() else Return(2)
    else if s[0] == SS3 then
      if |s| < 2 then ReturnIncomplete(|s|)
      else if s[1] == 0xA0 || s[1] == 0xFF then Return(2)
      else if !InGr94(s[1]) then ReturnError()
      else if |s| < 3 then ReturnIncomplete(|s|)
      else if !InGr94(s[2]) then ReturnError()
      else Return(3)
    else ReturnError()
  }

  function EucStr2Int(s: seq<Byte>): Option<bv32> {
    if |s| == 1 then Some(s[0])
    else if |s| == 2 then var a: bv32, b: bv32 := s[0], s[1]; Some((a << 8) | b)
    else if |s| == 3 then var a: bv32, b: bv32, c: bv32 := s[0], s[1], s[2]; Some((a << 16) | (b << 8) | c)
    else None
  }

  function Low(v: bv32): Byte { v & 0xFF }

  function EucInt2Str(ch: bv32): Option<seq<Byte>> {
    if ch <= 0x7F then Some([ch])
    else if ch <= 0xFFFF then
      var a, b := Low(ch >> 8), Low(ch);
      if (!InGr94(a) && a != SS2) || !InGr96(b) then None else Some([a, b])
    else if ch <= (SS3 << 16) | 0xFFFF then
      var a, b, c := Low(ch >> 16), Low(ch >> 8), Low(ch);
      if a != SS3 || !InGr94(b) || !InGr94(c) then None else Some([a, b, c])
    else None
  }

  lemma EucBits2(ch: bv32)
    requires ch <= 0xFFFF
    ensures (((ch >> 8) & 0xFF) << 8) | (ch & 0xFF) == ch
  {
  }

  lemma EucBits3(ch: bv32)
    requires ch <= 0xFFFFFF
    ensures (((ch >> 16) & 0xFF) << 16) | (((ch >> 8) & 0xFF) << 8) | (ch & 0xFF) == ch
  {
  }

  /* ---- Codecs ---- */

  function Scan(codec: Codec, s: seq<Byte>): (r: Info)
    ensures s != [] ==> 1 <= r.size <= |s|
  {
    match codec case Utf8 => Utf8Scan(s) case EucJp => EucScan(s)
  }

  function Str2Int(codec: Codec, s: seq<Byte>): Option<bv32> {
    match codec case Utf8 => Utf8Str2Int(s) case EucJp => EucStr2Int(s)
  }

  function Int2Str(codec: Codec, ch: bv32): Option<seq<Byte>> {
    match codec case Utf8 => Utf8Int2Str(ch) case EucJp => EucInt2Str(ch)
  }

  /** A lead byte and its trailing bytes are found, whatever follows them, and
      before the last byte they are incomplete. */
  lemma Utf8Scans(bs: seq<Byte>, rest: seq<Byte>, k: nat)
    requires bs != [] && Utf8Length(bs[0]) == Some(|bs|) && forall i :: 1 <= i < |bs| ==> IsTrailing(bs[i])
    ensures Utf8Scan(bs + rest) == Return(|bs|)
    ensures k < |bs| ==> Utf8Scan(bs[..k]) == if k == 0 then Return(0) else ReturnIncomplete(k)
  {
    hide IsTrailing, Utf8Length;
    if |bs| > 1 {
      AllTrailing(bs, rest, 1);
      if 0 < k < |bs| { SomeTrailing(bs, 1, k); }
    }
  }

  lemma {:induction false} AllTrailing(bs: seq<Byte>, rest: seq<Byte>, i: nat)
    requires 1 <= i <= |bs| && forall j :: 1 <= j < |bs| ==> IsTrailing(bs[j])
    ensures Utf8Trailing(bs + rest, i, |bs|) == Return(|bs|)
    decreases |bs| - i
  {
    hide IsTrailing;
    if i < |bs| { AllTrailing(bs, rest, i + 1); }
  }

  lemma {:induction false} SomeTrailing(bs: seq<Byte>, i: nat, k: nat)
    requires 1 <= i <= k < |bs| && forall j :: 1 <= j < |bs| ==> IsTrailing(bs[j])
    ensures Utf8Trailing(bs[..k], i, |bs|) == ReturnIncomplete(k)
    decreases k - i
  {
    hide IsTrailing;
    if i < k { SomeTrailing(bs, i + 1, k); }
  }

  /** The encoding of a character, and that it decodes to it. */
  lemma Utf8Bytes(ch: bv32)
    requires Utf8Int2Str(ch).Some?
    ensures
      var bs := Utf8Int2Str(ch).value;
      1 <= |bs| <= 4 && Utf8Str2Int(bs) == Some(ch) && Utf8Length(bs[0]) == Some(|bs|) &&
      forall i :: 1 <= i < |bs| ==> IsTrailing(bs[i])
  {
    hide IsTrailing, Join2, Join3, Join4, Lead2, Lead3, Lead4, Trail0, Trail1, Trail2;
    if 0x7F < ch <= 0x7FF { Bits2(ch); } else if 0x7FF < ch <= 0xFFFF { Bits3(ch); } else if 0xFFFF < ch { Bits4(ch); }
  }

  lemma EucScans(bs: seq<Byte>, rest: seq<Byte>, k: nat)
    requires 1 <= |bs| <= 3
    requires |bs| == 1 ==> bs[0] <= 0x7F
    requires |bs| == 2 ==> bs[0] > 0x7F && (InGr94(bs[0]) || bs[0] == SS2) && InGr96(bs[1])
    requires |bs| == 3 ==> bs[0] == SS3 && InGr94(bs[1]) && InGr94(bs[2])
    ensures EucScan(bs + rest) == Return(|bs|)
    ensures k < |bs| ==> EucScan(bs[..k]) == if k == 0 then Return(0) else ReturnIncomplete(k)
  {
    var s := bs + rest;
    assert forall i :: 0 <= i < |bs| ==> s[i] == bs[i];
  }

  lemma EucBytes(ch: bv32)
    requires EucInt2Str(ch).Some?
    ensures
      var bs := EucInt2Str(ch).value;
      1 <= |bs| <= 3 && EucStr2Int(bs) == Some(ch) &&
      (|bs| == 1 ==> bs[0] <= 0x7F) &&
      (|bs| == 2 ==> bs[0] > 0x7F && (InGr94(bs[0]) || bs[0] == SS2) && InGr96(bs[1])) &&
      (|bs| == 3 ==> bs[0] == SS3 && InGr94(bs[1]) && InGr94(bs[2]))
  {
    if 0x7F < ch <= 0xFFFF { EucBits2(ch); } else if 0xFFFF < ch { EucBits3(ch); }
  }

  lemma NoNul(codec: Codec, ch: bv32)
    requires Int2Str(codec, ch).Some? && ch != 0
    ensures forall i :: 0 <= i < |Int2Str(codec, ch).value| ==> Int2Str(codec, ch).value[i] != 0
  {
    hide IsTrailing, Utf8Length, Join2, Join3, Join4, Lead2, Lead3, Lead4, Trail0, Trail1, Trail2;
    match codec
    case Utf8 =>
      if 0x7F < ch <= 0x7FF {
        Bits2(ch);
      } else if 0x7FF < ch <= 0xFFFF {
        Bits3(ch);
      } else if 0xFFFF < ch {
        Bits4(ch);
      }
    case EucJp =>
  }

  /** A character that has an encoding is found, whatever follows it, and decoded
      to itself; every proper prefix of the encoding is incomplete. */
  lemma CodecLaw(codec: Codec, ch: bv32, rest: seq<Byte>, k: nat)
    requires Int2Str(codec, ch).Some?
    ensures
      var bs := Int2Str(codec, ch).value;
      1 <= |bs| <= 4 && Scan(codec, bs + rest) == Return(|bs|) && Str2Int(codec, bs) == Some(ch) &&
      (k < |bs| ==> Scan(codec, bs[..k]) == if k == 0 then Return(0) else ReturnIncomplete(k))
  {
    hide Utf8Int2Str, EucInt2Str, Utf8Scan, EucScan, Utf8Str2Int, EucStr2Int, Utf8Length, IsTrailing;
    match codec
    case Utf8 =>
      Utf8Bytes(ch);
      Utf8Scans(Utf8Int2Str(ch).value, rest, k);
    case EucJp =>
      EucBytes(ch);
      EucScans(EucInt2Str(ch).value, rest, k);
  }

  /** What utf8_scan_char accepts and utf8_int2str would write back: the shortest
      form of a character up to U+10FFFF (section 3 of RFC 3629, apart from the
      surrogates, which are accepted). */
  predicate Shortest(s: seq<Byte>) {
    if |s| == 2 then s[0] >= 0xC2
    else if |s| == 3 then s[0] > 0xE0 || s[1] >= 0xA0
    else if |s| == 4 then (s[0] > 0xF0 || s[1] >= 0x90) && (s[0] < 0xF4 || (s[0] == 0xF4 && s[1] <= 0x8F))
    else true
  }

  lemma Value2(a: bv32, b: bv32)
    requires IsLen2(a) && a <= 0xFF && IsTrailing(b) && b <= 0xFF
    ensures Join2(a, b) <= 0x7FF && (a >= 0xC2 <==> Join2(a, b) > 0x7F)
    ensures Lead2(Join2(a, b)) == a && Trail0(Join2(a, b)) == b
  {
  }

  lemma Value3(a: bv32, b: bv32, c: bv32)
    requires IsLen3(a) && a <= 0xFF && IsTrailing(b) && b <= 0xFF && IsTrailing(c) && c <= 0xFF
    ensures Join3(a, b, c) <= 0xFFFF && (a > 0xE0 || b >= 0xA0 <==> Join3(a, b, c) > 0x7FF)
    ensures Lead3(Join3(a, b, c)) == a && Trail1(Join3(a, b, c)) == b && Trail0(Join3(a, b, c)) == c
  {
  }

  lemma Value4(a: bv32, b: bv32, c: bv32, d: bv32)
    requires IsLen4(a) && a <= 0xFF && IsTrailing(b) && b <= 0xFF && IsTrailing(c) && c <= 0xFF && IsTrailing(d) &&
      d <= 0xFF
    ensures (a > 0xF0 || b >= 0x90) <==> Join4(a, b, c, d) > 0xFFFF
    ensures (a < 0xF4 || (a == 0xF4 && b <= 0x8F)) <==> Join4(a, b, c, d) <= 0x10FFFF
    ensures Join4(a, b, c, d) <= 0x10FFFF ==> Lead4(Join4(a, b, c, d)) == a
    ensures Trail2(Join4(a, b, c, d)) == b && Trail1(Join4(a, b, c, d)) == c && Trail0(Join4(a, b, c, d)) == d
  {
  }

  /** Decoding what the scanner accepts and encoding it again gives the same bytes
      exactly for the shortest form: overlong forms are accepted. */
  lemma Utf8DecodeEncode(s: seq<Byte>)
    requires s != [] && Utf8Scan(s) == Return(|s|)
    ensures Utf8Str2Int(s).Some?
    ensures Utf8Int2Str(Utf8Str2Int(s).value) == Some(s) <==> Shortest(s)
  {
    hide IsTrailing, Join2, Join3, Join4, Lead2, Lead3, Lead4, Trail0, Trail1, Trail2, IsLen2, IsLen3, IsLen4, Utf8Scan;
    TrailingAre(s);
    var n := |s|;
    if n == 2 {
      Value2(s[0], s[1]);
      assert s == [s[0], s[1]];
    } else if n == 3 {
      Value3(s[0], s[1], s[2]);
      assert s == [s[0], s[1], s[2]];
    } else if n == 4 {
      Value4(s[0], s[1], s[2], s[3]);
      assert s == [s[0], s[1], s[2], s[3]];
    } else {
      assert s == [s[0]];
    }
  }

  /** NUL written in two bytes is accepted and becomes one byte. */
  lemma OverlongNul()
    ensures Utf8Scan([0xC0, 0x80]) == Return(2) && Utf8Str2Int([0xC0, 0x80]) == Some(0) && Utf8Int2Str(0) == Some([0])
  {
    var s: seq<Byte> := [0xC0, 0x80];
    assert IsLen2(s[0]) && IsTrailing(s[1]) && Utf8Trailing(s, 2, 2) == Return(2);
  }

  lemma TrailingAre(s: seq<Byte>)
    requires s != [] && Utf8Scan(s) == Return(|s|)
    ensures Utf8Length(s[0]) == Some(|s|) && |s| <= 4 && forall i :: 1 <= i < |s| ==> IsTrailing(s[i])
  {
    var len := Utf8Length(s[0]).value;
    if len > 1 { TrailingFrom(s, 1, len); }
  }

  lemma {:induction false} TrailingFrom(s: seq<Byte>, i: nat, len: nat)
    requires i <= len && Utf8Trailing(s, i, len) == Return(|s|)
    ensures |s| == len && forall j :: i <= j < len ==> IsTrailing(s[j])
    decreases len - i
  {
    if i < len { TrailingFrom(s, i + 1, len); }
  }

  /** The same for EUC-JP: only a single-shift-3 before a space or a delete is
      accepted and cannot be written. */
  lemma EucDecodeEncode(s: seq<Byte>)
    requires s != [] && EucScan(s) == Return(|s|)
    ensures EucStr2Int(s).Some?
    ensures EucInt2Str(EucStr2Int(s).value) == Some(s) <==> !(s[0] == SS3 && |s| == 2)
  {
    if |s| == 2 {
      EucValue2(s[0], s[1]);
      assert s == [s[0], s[1]];
    } else if |s| == 3 {
      EucValue3(s[0], s[1], s[2]);
      assert s == [s[0], s[1], s[2]];
    } else {
      assert s == [s[0]];
    }
  }

  lemma SingleShiftSpace()
    ensures EucScan([0x8F, 0xA0]) == Return(2) && EucStr2Int([0x8F, 0xA0]) == Some(0x8FA0) && EucInt2Str(0x8FA0).None?
  {
    var s: seq<Byte> := [0x8F, 0xA0];
    EucValue2(s[0], s[1]);
  }

  lemma EucValue2(a: bv32, b: bv32)
    requires 0x7F < a <= 0xFF && b <= 0xFF
    ensures var ch := (a << 8) | b; 0x7F < ch <= 0xFFFF && (ch >> 8) & 0xFF == a && ch & 0xFF == b
  {
  }

  lemma EucValue3(a: bv32, b: bv32, c: bv32)
    requires a == SS3 && b <= 0xFF && c <= 0xFF
    ensures var ch := (a << 16) | (b << 8) | c;
      0xFFFF < ch <= (SS3 << 16) | 0xFFFF && (ch >> 16) & 0xFF == a && (ch >> 8) & 0xFF == b && ch & 0xFF == c
  {
  }
}
