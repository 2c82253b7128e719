/** The characters of UTF-8 (section 3 of RFC 3629, with overlong forms and
    surrogates) and of EUC-JP as tables of byte ranges and sums, and that the code
    scans, decodes and encodes exactly these. */
module CodecTables {
  import opened Forms
  import opened Codecs

  predicate Between(lo: bv32, c: bv32, hi: bv32) { lo <= c <= hi }

  /** The bytes of one character. */
  predicate Char(codec: Codec, s: seq<Byte>) {
    match codec
    case Utf8 =>
      (|s| == 1 && s[0] <= 0x7F) ||
      (|s| == 2 && Between(0xC0, s[0], 0xDF) && Between(0x80, s[1], 0xBF)) ||
      (|s| == 3 && Between(0xE0, s[0], 0xEF) && Between(0x80, s[1], 0xBF) && Between(0x80, s[2], 0xBF)) ||
      (|s| == 4 && Between(0xF0, s[0], 0xF7) && Between(0x80, s[1], 0xBF) && Between(0x80, s[2], 0xBF) &&
       Between(0x80, s[3], 0xBF))
    case EucJp =>
      (|s| == 1 && s[0] <= 0x7F) ||
      (|s| == 2 && (Between(0xA1, s[0], 0xFE) || s[0] == 0x8E) && Between(0xA0, s[1], 0xFF)) ||
      (|s| == 2 && s[0] == 0x8F && (s[1] == 0xA0 || s[1] == 0xFF)) ||
      (|s| == 3 && s[0] == 0x8F && Between(0xA1, s[1], 0xFE) && Between(0xA1, s[2], 0xFE))
  }

  /** One more digit. */
  function Sum(n: bv32, digit: bv32, base: bv32): bv32 { n * base + digit }

  /** Its number. */
  function Code(codec: Codec, s: seq<Byte>): bv32
    requires Char(codec, s)
  {
    match codec
    case Utf8 =>
      if |s| == 1 then s[0]
      else if |s| == 2 then Sum(s[0] - 0xC0, s[1] - 0x80, 0x40)
      else if |s| == 3 then Sum(Sum(s[0] - 0xE0, s[1] - 0x80, 0x40), s[2] - 0x80, 0x40)
      else Sum(Sum(Sum(s[0] - 0xF0, s[1] - 0x80, 0x40), s[2] - 0x80, 0x40), s[3] - 0x80, 0x40)
    case EucJp =>
      if |s| == 1 then s[0]
      else if |s| == 2 then Sum(s[0], s[1], 0x100)
      else Sum(Sum(s[0], s[1], 0x100), s[2], 0x100)
  }

  /** The bytes begin a character and do not end it. */
  ghost predicate Begins(codec: Codec, s: seq<Byte>) {
    exists bs: seq<Byte> :: Char(codec, bs) && 0 < |s| < |bs| && s == bs[..|s|]
  }

  /** The shortest form of a number up to U+10FFFF has this length. */
  predicate OfLength(n: bv32, len: nat) {
    if len <= 1 then true else if len == 2 then n > 0x7F else if len == 3 then n > 0x7FF else 0xFFFF < n <= 0x10FFFF
  }

  /** Written in the shortest form up to U+10FFFF; in EUC-JP, not a single shift 3
      before a space or a delete. */
  predicate Writable(codec: Codec, s: seq<Byte>)
    requires Char(codec, s)
  {
    match codec
    case Utf8 => OfLength(Code(codec, s), |s|)
    case EucJp => !(|s| == 2 && s[0] == 0x8F)
  }

  /** The scanner finds a character at the front, or what begins one, or it is an error. */
  lemma ScanIs(codec: Codec, s: seq<Byte>)
    requires s != []
    ensures forall n :: 1 <= n <= |s| && Char(codec, s[..n]) ==> Scan(codec, s) == Return(n)
    ensures Begins(codec, s) ==> Scan(codec, s) == ReturnIncomplete(|s|)
    ensures !Begins(codec, s) && (forall n :: 1 <= n <= |s| ==> !Char(codec, s[..n])) ==>
      Scan(codec, s) == ReturnError()
  {
    match codec
    case Utf8 => Utf8ScanIs(s);
    case EucJp => EucScanIs(s);
  }

  lemma Utf8Lead(c: Byte)
    ensures Utf8Length(c) ==
      if c <= 0x7F then Some(1) else if Between(0xC0, c, 0xDF) then Some(2)
      else if Between(0xE0, c, 0xEF) then Some(3) else if Between(0xF0, c, 0xF7) then Some(4) else None
    ensures IsTrailing(c) <==> Between(0x80, c, 0xBF)
  {
  }

  lemma Utf8ScanIs(s: seq<Byte>)
    requires s != []
    ensures forall n :: 1 <= n <= |s| && Char(Utf8, s[..n]) ==> Utf8Scan(s) == Return(n)
    ensures Begins(Utf8, s) ==> Utf8Scan(s) == ReturnIncomplete(|s|)
    ensures !Begins(Utf8, s) && (forall n :: 1 <= n <= |s| ==> !Char(Utf8, s[..n])) ==> Utf8Scan(s) == ReturnError()
  {
    hide Utf8Length, IsTrailing, Between;
    forall n | 1 <= n <= |s| && Char(Utf8, s[..n]) ensures Utf8Scan(s) == Return(n) {
      Utf8CharIs(s[..n]);
      Utf8Scans(s[..n], s[n..], 0);
      assert s[..n] + s[n..] == s;
    }
    if Begins(Utf8, s) {
      var bs: seq<Byte> :| Char(Utf8, bs) && 0 < |s| < |bs| && s == bs[..|s|];
      Utf8CharIs(bs);
      Utf8Scans(bs, [], |s|);
    }
    if !Begins(Utf8, s) && forall n :: 1 <= n <= |s| ==> !Char(Utf8, s[..n]) { Utf8NoChar(s); }
  }

  lemma Utf8CharIs(s: seq<Byte>)
    ensures Char(Utf8, s) <==>
      s != [] && Utf8Length(s[0]) == Some(|s|) && forall i :: 1 <= i < |s| ==> IsTrailing(s[i])
  {
    hide Utf8Length, IsTrailing, Between;
    forall i | 0 <= i < |s| ensures IsTrailing(s[i]) <==> Between(0x80, s[i], 0xBF) { Utf8Lead(s[i]); }
    if s != [] { Utf8LeadIs(s[0]); }
  }

  lemma Utf8LeadIs(c: Byte)
    ensures Utf8Length(c) == Some(1) <==> c <= 0x7F
    ensures Utf8Length(c) == Some(2) <==> Between(0xC0, c, 0xDF)
    ensures Utf8Length(c) == Some(3) <==> Between(0xE0, c, 0xEF)
    ensures Utf8Length(c) == Some(4) <==> Between(0xF0, c, 0xF7)
    ensures Utf8Length(c).Some? ==> 1 <= Utf8Length(c).value <= 4
  {
    Utf8Lead(c);
  }

  lemma Utf8NoChar(s: seq<Byte>)
    requires s != [] && !Begins(Utf8, s) && forall n :: 1 <= n <= |s| ==> !Char(Utf8, s[..n])
    ensures Utf8Scan(s) == ReturnError()
  {
    hide Utf8Length, IsTrailing, Between, Char, Begins;
    var len := Utf8Length(s[0]);
    Utf8LeadIs(s[0]);
    if len.Some? {
      var i := Utf8Stops(s, 1, len.value);
      if i == len.value {
        Utf8CharIs(s[..i]);
      } else if i == |s| {
        var more: seq<Byte> := seq(len.value - |s|, _ => 0x80);
        Utf8Lead(0x80);
        Trailing80();
        Utf8CharIs(s + more);
        BeginsOf(s, s + more);
      }
    }
  }

  lemma Trailing80()
    ensures IsTrailing(0x80)
  {
  }

  lemma BeginsOf(s: seq<Byte>, bs: seq<Byte>)
    requires Char(Utf8, bs) && 0 < |s| < |bs| && s == bs[..|s|]
    ensures Begins(Utf8, s)
  {
  }

  /** Where the trailing bytes stop. */
  lemma {:induction false} Utf8Stops(s: seq<Byte>, i: nat, len: nat) returns (j: nat)
    requires 1 <= i <= len && i <= |s|
    ensures i <= j <= len && j <= |s| && forall k :: i <= k < j ==> IsTrailing(s[k])
    ensures j < len && j < |s| ==> Utf8Trailing(s, i, len) == ReturnError()
    decreases len - i
  {
    hide IsTrailing;
    j := i;
    if i < len && i < |s| && IsTrailing(s[i]) { j := Utf8Stops(s, i + 1, len); }
  }

  lemma EucScanIs(s: seq<Byte>)
    requires s != []
    ensures forall n :: 1 <= n <= |s| && Char(EucJp, s[..n]) ==> EucScan(s) == Return(n)
    ensures Begins(EucJp, s) ==> EucScan(s) == ReturnIncomplete(|s|)
    ensures !Begins(EucJp, s) && (forall n :: 1 <= n <= |s| ==> !Char(EucJp, s[..n])) ==> EucScan(s) == ReturnError()
  {
    forall n | 1 <= n <= |s| && Char(EucJp, s[..n]) ensures EucScan(s) == Return(n) {
      assert forall i :: 0 <= i < n ==> s[..n][i] == s[i];
    }
    if !Begins(EucJp, s) && forall n :: 1 <= n <= |s| ==> !Char(EucJp, s[..n]) {
      if |s| >= 1 { assert !Char(EucJp, s[..1]) && s[..1][0] == s[0]; }
      if |s| >= 2 { assert !Char(EucJp, s[..2]) && s[..2][0] == s[0] && s[..2][1] == s[1]; }
      if |s| >= 3 { assert !Char(EucJp, s[..3]) && s[..3][0] == s[0] && s[..3][1] == s[1] && s[..3][2] == s[2]; }
      if |s| == 1 {
        var b2, b3: seq<Byte> := [s[0], 0xA1], [s[0], 0xA1, 0xA1];
        assert b2[..1] == s && b3[..1] == s && !Char(EucJp, b2) && !Char(EucJp, b3);
      } else if |s| == 2 {
        var b3: seq<Byte> := [s[0], s[1], 0xA1];
        assert b3[..2] == s && !Char(EucJp, b3);
      }
    }
  }

  /* ---- Numbers ---- */

  lemma Digits2(a: bv32, b: bv32)
    requires Between(0xC0, a, 0xDF) && Between(0x80, b, 0xBF)
    ensures Join2(a, b) == Sum(a - 0xC0, b - 0x80, 0x40)
  {
  }

  lemma Digits3(a: bv32, b: bv32, c: bv32)
    requires Between(0xE0, a, 0xEF) && Between(0x80, b, 0xBF) && Between(0x80, c, 0xBF)
    ensures Join3(a, b, c) == Sum(Sum(a - 0xE0, b - 0x80, 0x40), c - 0x80, 0x40)
  {
  }

  lemma Digits4(a: bv32, b: bv32, c: bv32, d: bv32)
    requires Between(0xF0, a, 0xF7) && Between(0x80, b, 0xBF) && Between(0x80, c, 0xBF) && Between(0x80, d, 0xBF)
    ensures Join4(a, b, c, d) == Sum(Sum(Sum(a - 0xF0, b - 0x80, 0x40), c - 0x80, 0x40), d - 0x80, 0x40)
  {
  }

  lemma EucSums(a: bv32, b: bv32, c: bv32)
    requires a <= 0xFF && b <= 0xFF && c <= 0xFF
    ensures (a << 8) | b == Sum(a, b, 0x100)
    ensures (a << 16) | (b << 8) | c == Sum(Sum(a, b, 0x100), c, 0x100)
  {
  }

  /** Decoding gives the number of the character. */
  lemma DecodeIs(codec: Codec, s: seq<Byte>)
    requires Char(codec, s)
    ensures Str2Int(codec, s) == Some(Code(codec, s))
  {
    hide Join2, Join3, Join4, Sum;
    match codec
    case Utf8 =>
      if |s| == 2 { Digits2(s[0], s[1]); }
      else if |s| == 3 { Digits3(s[0], s[1], s[2]); }
      else if |s| == 4 { Digits4(s[0], s[1], s[2], s[3]); }
    case EucJp =>
      if |s| == 2 { EucSums(s[0], s[1], 0); }
      else if |s| == 3 { EucSums(s[0], s[1], s[2]); }
  }

  /** Encoding gives the bytes of the character with that number that can be
      written, and fails exactly if there is none. */
  lemma EncodeIs(codec: Codec, ch: bv32, bs: seq<Byte>)
    ensures Int2Str(codec, ch) == Some(bs) <==> Char(codec, bs) && Writable(codec, bs) && Code(codec, bs) == ch
  {
    if Int2Str(codec, ch) == Some(bs) {
      EncodedIsChar(codec, ch);
      DecodeIs(codec, bs);
    }
    if Char(codec, bs) && Writable(codec, bs) && Code(codec, bs) == ch {
      WritableEncodes(codec, bs);
    }
  }

  lemma EncodedIsChar(codec: Codec, ch: bv32)
    requires Int2Str(codec, ch).Some?
    ensures
      var bs := Int2Str(codec, ch).value;
      Char(codec, bs) && Writable(codec, bs) && Code(codec, bs) == ch
  {
    hide Join2, Join3, Join4, Utf8Int2Str, EucInt2Str, Utf8Str2Int, EucStr2Int, Utf8Length, IsTrailing, Code;
    var bs := Int2Str(codec, ch).value;
    CodecLaw(codec, ch, [], 0);
    match codec
    case Utf8 =>
      Utf8Bytes(ch);
      Utf8CharIs(bs);
      DecodeIs(codec, bs);
      Utf8Sizes(ch);
    case EucJp =>
      EucBytes(ch);
      DecodeIs(codec, bs);
  }

  lemma Utf8Sizes(ch: bv32)
    requires Utf8Int2Str(ch).Some?
    ensures ch <= 0x10FFFF
    ensures |Utf8Int2Str(ch).value| ==
      if ch <= 0x7F then 1 else if ch <= 0x7FF then 2 else if ch <= 0xFFFF then 3 else 4
  {
  }

  lemma WritableEncodes(codec: Codec, s: seq<Byte>)
    requires Char(codec, s) && Writable(codec, s)
    ensures Int2Str(codec, Code(codec, s)) == Some(s)
  {
    hide Utf8Int2Str, EucInt2Str, Utf8Str2Int, EucStr2Int, Char, Code, Writable, OfLength;
    DecodeIs(codec, s);
    match codec
    case Utf8 =>
      WritableMeans(s, Code(codec, s));
      WritableUtf8(s, Code(codec, s));
    case EucJp => WritableEuc(s);
  }

  lemma WritableMeans(s: seq<Byte>, ch: bv32)
    requires Char(Utf8, s) && Writable(Utf8, s) && ch == Code(Utf8, s)
    ensures OfLength(ch, |s|)
  {
    hide Sum, Between;
  }

  lemma WritableEuc(s: seq<Byte>)
    requires Char(EucJp, s) && Writable(EucJp, s) && EucStr2Int(s).Some?
    ensures EucInt2Str(EucStr2Int(s).value) == Some(s)
  {
    hide EucInt2Str, EucStr2Int, EucScan;
    ScanIs(EucJp, s);
    assert s[..|s|] == s;
    EucDecodeEncode(s);
  }

  lemma WritableUtf8(s: seq<Byte>, ch: bv32)
    requires Char(Utf8, s) && Utf8Str2Int(s) == Some(ch)
    requires OfLength(ch, |s|)
    ensures Utf8Int2Str(ch) == Some(s)
  {
    hide Join2, Join3, Join4, Lead2, Lead3, Lead4, Trail0, Trail1, Trail2, IsLen2, IsLen3, IsLen4, IsTrailing;
    hide Between, Utf8Length, Utf8Int2Str;
    Utf8CharIs(s);
    if |s| == 1 {
      Utf8LeadIs(s[0]);
      assert s == [ch];
      OneBack(ch);
    } else if |s| == 2 {
      TwoBack(s[0], s[1]);
      assert s == [s[0], s[1]];
    } else if |s| == 3 {
      ThreeBack(s[0], s[1], s[2]);
      assert s == [s[0], s[1], s[2]];
    } else {
      FourBack(s[0], s[1], s[2], s[3]);
      assert s == [s[0], s[1], s[2], s[3]];
    }
  }

  lemma OneBack(ch: bv32)
    requires ch <= 0x7F
    ensures Utf8Int2Str(ch) == Some([ch])
  {
  }

  lemma TwoBack(a: Byte, b: Byte)
    requires Utf8Length(a) == Some(2) && IsTrailing(b) && OfLength(Join2(a, b), 2)
    ensures Utf8Int2Str(Join2(a, b)) == Some([a, b])
  {
    hide Join2, Lead2, Trail0, IsTrailing, IsLen2;
    Value2(a, b);
  }

  lemma ThreeBack(a: Byte, b: Byte, c: Byte)
    requires Utf8Length(a) == Some(3) && IsTrailing(b) && IsTrailing(c) && OfLength(Join3(a, b, c), 3)
    ensures Utf8Int2Str(Join3(a, b, c)) == Some([a, b, c])
  {
    hide Join3, Lead3, Trail0, Trail1, IsTrailing, IsLen3;
    Value3(a, b, c);
  }

  lemma FourBack(a: Byte, b: Byte, c: Byte, d: Byte)
    requires Utf8Length(a) == Some(4) && IsTrailing(b) && IsTrailing(c) && IsTrailing(d)
    requires OfLength(Join4(a, b, c, d), 4)
    ensures Utf8Int2Str(Join4(a, b, c, d)) == Some([a, b, c, d])
  {
    hide Join4, Lead4, Trail0, Trail1, Trail2, IsTrailing, IsLen4;
    Value4(a, b, c, d);
  }

  /** Which characters UTF-8 can write. */
  lemma Utf8Writes(ch: bv32)
    ensures Int2Str(Utf8, ch).Some? <==> ch <= 0x10FFFF
  {
  }
}
