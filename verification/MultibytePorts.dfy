/** Strings and ports in a multibyte encoding (scm_mb_strlen, scm_mb_substring in
    src/encoding.c; src/scmport-mbchar.c). */
module MultibytePorts {
  import opened Forms
  import opened Codecs
  import CodecTables

  const MB_MAX_LEN := 4

  /** Characters that the codec can write. */
  predicate Writable(codec: Codec, chs: seq<bv32>) {
    forall i :: 0 <= i < |chs| ==> Int2Str(codec, chs[i]).Some?
  }

  function Encode(codec: Codec, chs: seq<bv32>): seq<Byte>
    requires Writable(codec, chs)
  {
    if chs == [] then [] else Int2Str(codec, chs[0]).value + Encode(codec, chs[1..])
  }

  lemma {:induction false} EncodeAll(codec: Codec, a: seq<bv32>, b: seq<bv32>)
    requires Writable(codec, a) && Writable(codec, b)
    ensures Encode(codec, a + b) == Encode(codec, a) + Encode(codec, b)
  {
    hide Scan, Int2Str, Str2Int;
    if a == [] {
      assert a + b == b;
    } else {
      assert (a + b)[1..] == a[1..] + b;
      EncodeAll(codec, a[1..], b);
    }
  }

  /* ---- Length and substring ---- */

  function Length(codec: Codec, s: seq<Byte>): nat {
    if s == [] then 0 else 1 + Length(codec, s[Scan(codec, s).size..])
  }

  /** Where n characters end. */
  function Skip(codec: Codec, s: seq<Byte>, n: nat): (k: nat)
    ensures k <= |s|
    decreases n
  {
    if n == 0 || s == [] then 0
    else var size := Scan(codec, s).size; size + Skip(codec, s[size..], n - 1)
  }

  /** scm_mb_strlen, on any bytes. */
  method MbStrlen(codec: Codec, s: seq<Byte>) returns (len: nat)
    ensures len == Length(codec, s)
  {
    hide Scan, Int2Str, Str2Int;
    var mbs := s;
    len := 0;
    while mbs != []
      invariant len + Length(codec, mbs) == Length(codec, s)
      decreases |mbs|
    {
      var c := Scan(codec, mbs);
      mbs := mbs[c.size..];
      len := len + 1;
    }
  }

  /** Both loops of scm_mb_substring: n characters on from an offset. */
  method SkipChars(codec: Codec, s: seq<Byte>, from: nat, n: nat) returns (k: nat)
    requires from <= |s|
    ensures from <= k <= |s| && k == from + Skip(codec, s[from..], n)
  {
    hide Scan;
    k := from;
    var left := n;
    while left > 0
      invariant from <= k <= |s| && k + Skip(codec, s[k..], left) == from + Skip(codec, s[from..], n)
    {
      if k < |s| {
        var c := Scan(codec, s[k..]);
        assert s[k..][c.size..] == s[k + c.size..];
        k := k + c.size;
      }
      left := left - 1;
    }
  }

  /** scm_mb_substring: an offset and a size. */
  method MbSubstring(codec: Codec, s: seq<Byte>, i: nat, len: nat) returns (start: nat, size: nat)
    ensures start == Skip(codec, s, i) && start + size <= |s| && size == Skip(codec, s[start..], len)
  {
    assert s[0..] == s;
    start := SkipChars(codec, s, 0, i);
    var end := SkipChars(codec, s, start, len);
    size := end - start;
  }

  /** One piece of a string: a character of the tables, or what begins one at the end of
      the string, or a single byte where there is no character. */
  ghost predicate Piece(codec: Codec, p: seq<Byte>, s: seq<Byte>) {
    CodecTables.Char(codec, p) || (p == s && CodecTables.Begins(codec, s)) ||
    (|p| == 1 && !CodecTables.Begins(codec, s) && forall n :: 1 <= n <= |s| ==> !CodecTables.Char(codec, s[..n]))
  }

  ghost predicate Pieces(codec: Codec, s: seq<Byte>, ps: seq<seq<Byte>>)
    decreases |ps|
  {
    if s == [] then ps == []
    else
      ps != [] && ps[0] != [] && ps[0] <= s && Piece(codec, ps[0], s) && Pieces(codec, s[|ps[0]|..], ps[1..])
  }

  function Concat(ps: seq<seq<Byte>>): seq<Byte> {
    if ps == [] then [] else ps[0] + Concat(ps[1..])
  }

  /** The scanner moves on by one piece. */
  lemma ScanPiece(codec: Codec, p: seq<Byte>, s: seq<Byte>)
    requires p != [] && p <= s
    ensures Piece(codec, p, s) <==> |p| == Scan(codec, s).size
  {
    hide CodecTables.Char, CodecTables.Begins, Scan;
    CodecTables.ScanIs(codec, s);
    assert p == s[..|p|];
  }

  /** Any string has pieces in one way; its length is their number, and to skip n
      characters is to skip n pieces. */
  lemma {:induction false} PiecesCounted(codec: Codec, s: seq<Byte>, ps: seq<seq<Byte>>)
    requires Pieces(codec, s, ps)
    ensures Length(codec, s) == |ps| && Concat(ps) == s
    ensures forall n :: 0 <= n <= |ps| ==> Skip(codec, s, n) == |Concat(ps[..n])|
    decreases |ps|
  {
    hide Piece, Scan;
    if s != [] {
      var p, more := ps[0], ps[1..];
      ScanPiece(codec, p, s);
      PiecesCounted(codec, s[|p|..], more);
      forall n | 0 < n <= |ps| ensures Skip(codec, s, n) == |Concat(ps[..n])| {
        assert ps[..n][1..] == more[..n - 1];
      }
      assert ps[..0] == [];
    } else {
      assert ps[..0] == [];
    }
  }

  lemma {:induction false} HasPieces(codec: Codec, s: seq<Byte>) returns (ps: seq<seq<Byte>>)
    ensures Pieces(codec, s, ps)
    decreases |s|
  {
    hide Piece, Scan;
    ps := [];
    if s != [] {
      var p := s[..Scan(codec, s).size];
      ScanPiece(codec, p, s);
      var more := HasPieces(codec, s[|p|..]);
      ps := [p] + more;
      assert ps[1..] == more;
    }
  }

  /** The first character of an encoded string is scanned whole. */
  lemma FirstScanned(codec: Codec, chs: seq<bv32>)
    requires Writable(codec, chs) && chs != []
    ensures
      var s, bs := Encode(codec, chs), Int2Str(codec, chs[0]).value;
      s != [] && Scan(codec, s) == Return(|bs|) && s[..|bs|] == bs && s[|bs|..] == Encode(codec, chs[1..])
  {
    hide Scan, Int2Str, Str2Int;
    CodecLaw(codec, chs[0], Encode(codec, chs[1..]), 0);
  }

  /** An encoded string has as many characters as were encoded, and skipping n of
      them is dropping n. */
  lemma {:induction false} LengthOfEncoded(codec: Codec, chs: seq<bv32>)
    requires Writable(codec, chs)
    ensures Length(codec, Encode(codec, chs)) == |chs|
  {
    hide Scan, Int2Str, Str2Int;
    if chs != [] {
      FirstScanned(codec, chs);
      LengthOfEncoded(codec, chs[1..]);
    }
  }

  lemma EncodeHead(codec: Codec, chs: seq<bv32>)
    requires Writable(codec, chs) && chs != []
    ensures Encode(codec, chs) == Int2Str(codec, chs[0]).value + Encode(codec, chs[1..])
  {
  }

  lemma SkipHead(codec: Codec, s: seq<Byte>, size: nat, n: nat)
    requires s != [] && Scan(codec, s) == Return(size) && n > 0
    ensures size <= |s| && Skip(codec, s, n) == size + Skip(codec, s[size..], n - 1)
  {
  }

  lemma {:induction false} SkipOfEncoded(codec: Codec, chs: seq<bv32>, n: nat)
    requires Writable(codec, chs) && n <= |chs|
    ensures
      var s := Encode(codec, chs);
      s[..Skip(codec, s, n)] == Encode(codec, chs[..n]) && s[Skip(codec, s, n)..] == Encode(codec, chs[n..])
    decreases n
  {
    hide Scan, Int2Str, Encode, Skip;
    var s := Encode(codec, chs);
    if n > 0 {
      var bs, rest := Int2Str(codec, chs[0]).value, chs[1..];
      FirstScanned(codec, chs);
      SkipHead(codec, s, |bs|, n);
      SkipOfEncoded(codec, rest, n - 1);
      var k := Skip(codec, s[|bs|..], n - 1);
      assert rest[n - 1..] == chs[n..];
      assert s[|bs| + k..] == s[|bs|..][k..];
      assert s[..|bs| + k] == bs + s[|bs|..][..k];
      assert chs[..n][1..] == rest[..n - 1];
      EncodeHead(codec, chs[..n]);
    } else {
      SkipNone(codec, s);
      assert chs[..0] == [] && chs[0..] == chs;
    }
  }

  lemma SkipNone(codec: Codec, s: seq<Byte>)
    ensures Skip(codec, s, 0) == 0 && Encode(codec, []) == []
  {
  }

  /** The substring of an encoded string is the encoding of the slice. */
  lemma SubstringOfEncoded(codec: Codec, chs: seq<bv32>, i: nat, len: nat)
    requires Writable(codec, chs) && i + len <= |chs|
    ensures
      var s := Encode(codec, chs);
      var start := Skip(codec, s, i);
      var size := Skip(codec, s[start..], len);
      start + size <= |s| && s[start..start + size] == Encode(codec, chs[i..i + len])
  {
    hide Scan, Int2Str, Str2Int, Encode;
    var s := Encode(codec, chs);
    SkipOfEncoded(codec, chs, i);
    SkipOfEncoded(codec, chs[i..], len);
    var start := Skip(codec, s, i);
    var size := Skip(codec, s[start..], len);
    assert chs[i..][..len] == chs[i..i + len];
    assert s[start..start + size] == s[start..][..size];
  }

  /* ---- Ports ---- */

  /** A C string ends at its first NUL. */
  function UntilNul(s: seq<Byte>): seq<Byte> {
    if s == [] || s[0] == 0 then [] else [s[0]] + UntilNul(s[1..])
  }

  lemma {:induction false} NoNulKept(s: seq<Byte>)
    requires forall i :: 0 <= i < |s| ==> s[i] != 0
    ensures UntilNul(s) == s
  {
    if s != [] { NoNulKept(s[1..]); }
  }

  /** What mbcport_fill_rbuf leaves: the scan of the buffer, None for the errors
      "broken character" and "broken scanner", the buffer and the bytes not read. */
  datatype Fill = Fill(info: Option<Info>, rbuf: seq<Byte>, input: seq<Byte>)

  /** The buffer does not hold a character yet, nor an error. */
  predicate Unfinished(codec: Codec, rbuf: seq<Byte>) {
    var mbc := Scan(codec, rbuf);
    !mbc.error && (mbc.incomplete || mbc.size == 0) && |rbuf| != MB_MAX_LEN
  }

  predicate Complete(codec: Codec, rbuf: seq<Byte>) {
    var mbc := Scan(codec, rbuf);
    !mbc.error && !mbc.incomplete && mbc.size > 0
  }

  function Filled(codec: Codec, rbuf: seq<Byte>, input: seq<Byte>): (f: Fill)
    ensures f.info.Some? ==> f.info.value.size <= |f.rbuf|
    decreases |input|
  {
    if Complete(codec, rbuf) then Fill(Some(Scan(codec, rbuf)), rbuf, input)
    else if !Unfinished(codec, rbuf) then Fill(None, rbuf, input)
    else if input == [] then Fill(Some(Return(0)), [], [])
    else Filled(codec, rbuf + [input[0]], input[1..])
  }

  /** On any stream, bytes are read until the buffer first holds a character or an
      error; at the end of the stream the bytes of an incomplete character are
      dropped. */
  lemma {:induction false} FilledFirst(codec: Codec, rbuf: seq<Byte>, input: seq<Byte>) returns (k: nat)
    ensures k <= |input| && forall j :: 0 <= j < k ==> Unfinished(codec, rbuf + input[..j])
    ensures
      var f, read := Filled(codec, rbuf, input), rbuf + input[..k];
      if Unfinished(codec, read) then k == |input| && f == Fill(Some(Return(0)), [], [])
      else f == Fill(if Complete(codec, read) then Some(Scan(codec, read)) else None, read, input[k..])
    decreases |input|
  {
    hide Scan;
    assert rbuf + input[..0] == rbuf && input[0..] == input;
    if !Unfinished(codec, rbuf) || input == [] {
      k := 0;
    } else {
      k := FilledFirst(codec, rbuf + [input[0]], input[1..]);
      k := k + 1;
      assert input[k..] == input[1..][k - 1..];
      forall j | 0 < j <= k ensures rbuf + input[..j] == rbuf + [input[0]] + input[1..][..j - 1] { }
    }
  }

  lemma {:induction false} TrailingBreaks(s: seq<Byte>, i: nat, len: nat)
    requires 1 <= i <= |s| && Utf8Trailing(s, i, len).incomplete
    ensures Utf8Trailing(s + [0], i, len).error
    decreases len - i
  {
    if i < |s| { TrailingBreaks(s, i + 1, len); } else { assert !IsTrailing((s + [0])[i]); }
  }

  /** A NUL in the middle of a character breaks it. */
  lemma NulBreaks(codec: Codec, s: seq<Byte>)
    requires Unfinished(codec, s) && s != []
    ensures Scan(codec, s + [0]).error
  {
    match codec
    case Utf8 =>
      assert (s + [0])[0] == s[0];
      TrailingBreaks(s, 1, Utf8Length(s[0]).value);
    case EucJp =>
  }

  lemma {:induction false} NulFree(s: seq<Byte>, b: Byte)
    requires UntilNul(s) == s && b != 0
    ensures UntilNul(s + [b]) == s + [b]
  {
    if s != [] {
      UntilNulLength(s[1..]);
      NulFree(s[1..], b);
      assert (s + [b])[1..] == s[1..] + [b];
    }
  }

  lemma {:induction false} UntilNulLength(s: seq<Byte>)
    ensures |UntilNul(s)| <= |s|
  {
    if s != [] { UntilNulLength(s[1..]); }
  }

  /** A filled buffer holds no NUL, or NUL alone. */
  lemma {:induction false} FilledNul(codec: Codec, rbuf: seq<Byte>, input: seq<Byte>)
    requires UntilNul(rbuf) == rbuf
    ensures
      var f := Filled(codec, rbuf, input);
      |f.rbuf| + |f.input| <= |rbuf| + |input| &&
      (f.info.Some? ==> f.rbuf == [0] || (UntilNul(f.rbuf) == f.rbuf && f.rbuf != [0]))
    decreases |input|
  {
    hide Scan;
    if !Complete(codec, rbuf) && Unfinished(codec, rbuf) && input != [] {
      if input[0] != 0 {
        NulFree(rbuf, input[0]);
        FilledNul(codec, rbuf + [input[0]], input[1..]);
      } else if rbuf == [] {
        ScanNul(codec);
        assert rbuf + [input[0]] == [0];
      } else {
        NulBreaks(codec, rbuf);
      }
    }
  }

  lemma ScanNul(codec: Codec)
    ensures Scan(codec, [0]) == Return(1) && Complete(codec, [0])
  {
  }

  /** Peeking: a second fill finds what the first one left exactly if that is not
      the character NUL, which is lost. */
  lemma PeekedStays(codec: Codec, rbuf: seq<Byte>, input: seq<Byte>)
    requires UntilNul(rbuf) == rbuf
    ensures
      var f := Filled(codec, rbuf, input);
      f.info.Some? ==>
        (Filled(codec, UntilNul(f.rbuf), f.input) == f <==> f.rbuf != [0]) &&
        (f.rbuf == [0] ==> Filled(codec, UntilNul(f.rbuf), f.input) == Filled(codec, [], f.input))
  {
    var k := FilledFirst(codec, rbuf, input);
    var f := Filled(codec, rbuf, input);
    FilledNul(codec, rbuf, input);
    ScanNothing(codec);
    if f.rbuf == [0] { FilledNul(codec, [], f.input); }
  }

  /** A character, SCM_ICHAR_EOF, or an error. */
  datatype Read = Char(ch: bv32) | Eof | Broken

  /** mbcport_peek_char with the buffer filled. */
  function Peeked(codec: Codec, f: Fill): Read
    requires f.info.Some? ==> f.info.value.size <= |f.rbuf|
  {
    if f.info.None? then Broken
    else if f.info.value.size == 0 then Eof
    else
      var ch := Str2Int(codec, f.rbuf[..f.info.value.size]);
      if ch.None? then Eof else Char(ch.value)
  }

  /** On any stream, peeking gives the character of the tables that the stream begins
      with; it is the end if there are no more bytes than the beginning of one, and
      anything else is broken. */
  lemma PeekedIs(codec: Codec, input: seq<Byte>)
    ensures
      var r := Peeked(codec, Filled(codec, [], input));
      (forall n :: 1 <= n <= |input| && CodecTables.Char(codec, input[..n]) ==>
         r == Char(CodecTables.Code(codec, input[..n])) && Filled(codec, [], input).input == input[n..]) &&
      (r == Eof <==> input == [] || CodecTables.Begins(codec, input)) &&
      (r == Broken <==>
         (input != [] && !CodecTables.Begins(codec, input) &&
          forall n :: 1 <= n <= |input| ==> !CodecTables.Char(codec, input[..n])))
  {
    hide CodecTables.Char, CodecTables.Begins, CodecTables.Code, Scan, Str2Int, Filled;
    var k := FilledFirst(codec, [], input);
    var read := input[..k];
    assert [] + read == read;
    ScanNothing(codec);
    if Unfinished(codec, read) {
      assert read == input;
      if input != [] { CodecTables.ScanIs(codec, input); BeginsNone(codec, input); }
    } else {
      CodecTables.ScanIs(codec, read);
      BeginsLonger(codec, input, k);
      if Complete(codec, read) {
        var n :| 1 <= n <= k && CodecTables.Char(codec, read[..n]);
        CodecTables.ScanIs(codec, input[..n]);
        assert read[..n] == input[..n] && input[..n][..n] == input[..n] && [] + input[..n] == input[..n];
        assert n == k;
        CodecTables.DecodeIs(codec, read);
        CodecTables.ScanIs(codec, input);
      } else {
        BeginsShort(codec, read);
        forall n | 1 <= n <= |input| ensures !CodecTables.Char(codec, input[..n]) {
          if n <= k { assert read[..n] == input[..n]; }
        }
      }
    }
  }

  lemma BeginsNone(codec: Codec, s: seq<Byte>)
    requires CodecTables.Begins(codec, s)
    ensures forall n :: 1 <= n <= |s| ==> !CodecTables.Char(codec, s[..n])
  {
    hide CodecTables.Char, CodecTables.Begins, Scan;
    if s != [] { CodecTables.ScanIs(codec, s); }
  }

  /** What begins a character or is the front of one, begins one. */
  lemma BeginsLonger(codec: Codec, s: seq<Byte>, k: nat)
    requires 0 < k <= |s|
    ensures CodecTables.Begins(codec, s) ==> CodecTables.Begins(codec, s[..k])
    ensures forall n :: k < n <= |s| && CodecTables.Char(codec, s[..n]) ==> CodecTables.Begins(codec, s[..k])
  {
    hide CodecTables.Char;
    if CodecTables.Begins(codec, s) {
      var bs: seq<Byte> :| CodecTables.Char(codec, bs) && 0 < |s| < |bs| && s == bs[..|s|];
      assert s[..k] == bs[..k];
    }
    forall n | k < n <= |s| && CodecTables.Char(codec, s[..n]) ensures CodecTables.Begins(codec, s[..k]) {
      assert s[..k] == s[..n][..k];
    }
  }

  lemma BeginsShort(codec: Codec, s: seq<Byte>)
    ensures CodecTables.Begins(codec, s) ==> |s| < MB_MAX_LEN
  {
  }

  /** The characters still to be read; the buffer may hold a part of the first. */
  ghost predicate Holding(codec: Codec, rbuf: seq<Byte>, input: seq<Byte>, chs: seq<bv32>) {
    Writable(codec, chs) && (forall i :: 0 <= i < |chs| ==> chs[i] != 0) &&
    rbuf + input == Encode(codec, chs) && (if chs == [] then rbuf == [] else |rbuf| <= |Int2Str(codec, chs[0]).value|)
  }

  /** On encoded characters the buffer is filled with exactly the next one. */
  lemma {:induction false} FilledEncoded(codec: Codec, rbuf: seq<Byte>, input: seq<Byte>, chs: seq<bv32>)
    requires Holding(codec, rbuf, input, chs)
    ensures UntilNul(rbuf) == rbuf
    ensures
      var f := Filled(codec, rbuf, input);
      f.rbuf + f.input == rbuf + input && Holding(codec, f.rbuf, f.input, chs) &&
      if chs == [] then f.rbuf == [] && Peeked(codec, f) == Eof
      else
        f.rbuf == Int2Str(codec, chs[0]).value && f.input == Encode(codec, chs[1..]) &&
        Holding(codec, [], f.input, chs[1..]) && Peeked(codec, f) == Char(chs[0])
    decreases |input|
  {
    hide Scan, Int2Str, Str2Int, Encode;
    BufferHasNoNul(codec, chs, rbuf, input);
    NoNulKept(rbuf);
    BufferScans(codec, chs, rbuf, input);
    if chs != [] {
      var bs := Int2Str(codec, chs[0]).value;
      FirstScanned(codec, chs);
      CodecLaw(codec, chs[0], [], 0);
      if |rbuf| == |bs| {
        assert input == (rbuf + input)[|bs|..];
        assert rbuf[..|bs|] == rbuf && [] + input == input;
      } else {
        assert rbuf + [input[0]] + input[1..] == rbuf + input;
        FilledEncoded(codec, rbuf + [input[0]], input[1..], chs);
      }
    }
  }

  class MbPort {
    const codec: Codec
    var rbuf: seq<Byte>
    var linenum: nat
    /** The byte port: what is still to be read, and what has been written. */
    var input: seq<Byte>
    var output: seq<Byte>

    constructor (codec: Codec, input: seq<Byte>)
      ensures this.codec == codec && rbuf == [] && this.input == input && output == [] && linenum == 0
    {
      this.codec := codec;
      rbuf, linenum, this.input, output := [], 0, input, [];
    }

    /** mbcport_fill_rbuf, blocking, on any stream. */
    method FillRbuf() returns (r: Option<Info>)
      modifies this`rbuf, this`input
      ensures Fill(r, rbuf, input) == Filled(codec, UntilNul(old(rbuf)), old(input))
    {
      hide Scan;
      rbuf := UntilNul(rbuf);
      while true
        invariant Filled(codec, rbuf, input) == Filled(codec, UntilNul(old(rbuf)), old(input))
        decreases |input|
      {
        var mbc := Scan(codec, rbuf);
        if mbc.error { return None; }
        if !mbc.incomplete && mbc.size > 0 { return Some(mbc); }
        if |rbuf| == MB_MAX_LEN { return None; }
        if input == [] {
          rbuf := [];
          return Some(Return(0));
        }
        rbuf, input := rbuf + [input[0]], input[1..];
      }
    }

    /** mbcport_peek_char. */
    method PeekChar() returns (r: Read)
      modifies this`rbuf, this`input
      ensures
        var f := Filled(codec, UntilNul(old(rbuf)), old(input));
        r == Peeked(codec, f) && rbuf == f.rbuf && input == f.input
    {
      hide Scan, Str2Int, Filled;
      var mbc := FillRbuf();
      if mbc.None? { return Broken; }
      var size := mbc.value.size;
      if size == 0 { return Eof; }
      var ch := Str2Int(codec, rbuf[..size]);
      r := if ch.None? then Eof else Char(ch.value);
    }

    /** mbcport_get_char: the buffer is emptied unless that was an error. */
    method GetChar() returns (r: Read)
      modifies this`rbuf, this`input, this`linenum
      ensures
        var f := Filled(codec, UntilNul(old(rbuf)), old(input));
        r == Peeked(codec, f) && rbuf == (if r == Broken then f.rbuf else []) && input == f.input
      ensures linenum == old(linenum) + if r == Char(10) then 1 else 0
    {
      hide Scan, Str2Int, Filled;
      r := PeekChar();
      if r == Broken { return; }
      rbuf := [];
      if r == Char(10) { linenum := linenum + 1; }
    }

    /** mbcport_put_char: false is "invalid character". */
    method PutChar(ch: bv32) returns (ok: bool)
      modifies this`output
      ensures ok <==> Int2Str(codec, ch).Some?
      ensures output == old(output) + if ok then Int2Str(codec, ch).value else []
    {
      var wbuf := Int2Str(codec, ch);
      ok := wbuf.Some?;
      if ok { output := output + wbuf.value; }
    }
  }

  lemma BufferHasNoNul(codec: Codec, chs: seq<bv32>, rbuf: seq<Byte>, input: seq<Byte>)
    requires Writable(codec, chs) && forall i :: 0 <= i < |chs| ==> chs[i] != 0
    requires rbuf + input == Encode(codec, chs) &&
      if chs == [] then rbuf == [] else |rbuf| <= |Int2Str(codec, chs[0]).value|
    ensures forall i :: 0 <= i < |rbuf| ==> rbuf[i] != 0
  {
    hide Scan, Int2Str, Str2Int;
    if chs != [] {
      NoNul(codec, chs[0]);
      FirstScanned(codec, chs);
      assert forall i :: 0 <= i < |rbuf| ==> rbuf[i] == (rbuf + input)[i];
    }
  }

  lemma ScanNothing(codec: Codec)
    ensures Scan(codec, []) == Return(0)
  {
  }

  /** A buffer that holds a part of the first character is incomplete, one that
      holds all of it complete. */
  lemma BufferScans(codec: Codec, chs: seq<bv32>, rbuf: seq<Byte>, input: seq<Byte>)
    requires Writable(codec, chs) && rbuf + input == Encode(codec, chs)
    requires if chs == [] then rbuf == [] else |rbuf| <= |Int2Str(codec, chs[0]).value|
    ensures
      if chs == [] then Scan(codec, rbuf) == Return(0) && input == []
      else
        var bs := Int2Str(codec, chs[0]).value;
        1 <= |bs| <= MB_MAX_LEN &&
        if |rbuf| == |bs| then rbuf == bs && Scan(codec, rbuf) == Return(|bs|)
        else input != [] && Scan(codec, rbuf) == if rbuf == [] then Return(0) else ReturnIncomplete(|rbuf|)
  {
    hide Scan, Int2Str, Str2Int;
    ScanNothing(codec);
    if chs != [] {
      var bs := Int2Str(codec, chs[0]).value;
      CodecLaw(codec, chs[0], [], |rbuf|);
      FirstScanned(codec, chs);
      assert bs + [] == bs;
      assert bs[..|rbuf|] == rbuf by { assert rbuf == (rbuf + input)[..|rbuf|]; }
    }
  }

  method WriteAll(port: MbPort, chs: seq<bv32>)
    requires Writable(port.codec, chs)
    modifies port
    ensures port.output == old(port.output) + Encode(port.codec, chs)
  {
    hide Scan, Int2Str, Str2Int;
    var i := 0;
    while i < |chs|
      invariant i <= |chs| && port.output == old(port.output) + Encode(port.codec, chs[..i])
    {
      var _ := port.PutChar(chs[i]);
      assert chs[..i + 1] == chs[..i] + [chs[i]];
      EncodeAll(port.codec, chs[..i], [chs[i]]);
      EncodeOne(port.codec, chs[i]);
      i := i + 1;
    }
    assert chs[..i] == chs;
  }

  lemma EncodeOne(codec: Codec, ch: bv32)
    requires Int2Str(codec, ch).Some?
    ensures Encode(codec, [ch]) == Int2Str(codec, ch).value
  {
    hide Int2Str;
    assert [ch][1..] == [];
  }

  /** Reads to the end, peeking before each character. */
  method ReadAll(port: MbPort, ghost chs: seq<bv32>) returns (back: seq<bv32>)
    requires Holding(port.codec, port.rbuf, port.input, chs)
    modifies port
    ensures back == chs
  {
    hide Scan, Int2Str, Str2Int, Encode, Filled, Peeked, Holding;
    back := [];
    ghost var rest := chs;
    FilledEncoded(port.codec, port.rbuf, port.input, rest);
    var peeked := port.PeekChar();
    while peeked.Char?
      invariant Holding(port.codec, port.rbuf, port.input, rest) && back + rest == chs
      invariant peeked == if rest == [] then Eof else Char(rest[0])
      decreases |rest|
    {
      FilledEncoded(port.codec, port.rbuf, port.input, rest);
      var r := port.GetChar();
      assert r == peeked;
      back := back + [r.ch];
      assert back + rest[1..] == chs;
      rest := rest[1..];
      FilledEncoded(port.codec, port.rbuf, port.input, rest);
      peeked := port.PeekChar();
    }
  }

  /** Writing characters to a port and reading the bytes back gives the same
      characters, then the end. */
  method RoundTrip(codec: Codec, chs: seq<bv32>) returns (back: seq<bv32>)
    requires Writable(codec, chs) && forall i :: 0 <= i < |chs| ==> chs[i] != 0
    ensures back == chs
  {
    hide Int2Str;
    var out := new MbPort(codec, []);
    WriteAll(out, chs);
    var port := new MbPort(codec, out.output);
    assert out.output == Encode(codec, chs);
    assert port.rbuf + port.input == port.input;
    back := ReadAll(port, chs);
  }
}
