/** Quasiquotation by copy-on-write translators (src/qquote.c).  EVAL is an
    abstract total function. */
module Quasiquote {
  import opened Forms

  const QUASIQUOTE := Sym(0)
  const UNQUOTE := Sym(1)
  const UNQUOTE_SPLICING := Sym(2)

  /** SCM_UNWRAP_KEYWORD: a symbol or a far symbol that wraps one. */
  predicate Keyword(f: Form, kw: Ident) {
    f.FId? && Root(f.id) == kw
  }

  predicate IsList1(f: Form) {
    f.FPair? && f.cdr.FNil?
  }

  /** The elements of a list, without its terminator. */
  function Elements(f: Form): seq<Form> {
    if f.FPair? then [f.car] + Elements(f.cdr) else []
  }

  function Terminator(f: Form): Form {
    if f.FPair? then Terminator(f.cdr) else f
  }

  /* ---- The recursive definition ---- */

  /** What a template stands for: a datum, a list to be spliced into the list or
      vector around it, or an error. */
  datatype Meaning = Datum(f: Form) | Spliced(f: Form) | Bad

  /** The elements that an item contributes, in front of the rest. */
  function Join(item: Meaning, rest: Meaning): Meaning {
    match item
    case Bad => Bad
    case Datum(x) => if rest.Datum? then Datum(FPair(x, rest.f)) else Bad
    case Spliced(l) => if rest.Datum? && IsList(l) then Datum(Prepend(Elements(l), rest.f)) else Bad
  }

  function QQ(eval: Form -> Form, f: Form, nest: nat): Meaning
    requires nest >= 1
    decreases f, 2
  {
    match f
    case FPair(_, _) => QQList(eval, f, true, nest)
    case FVec(items) => (match QQItems(eval, items, nest) case Datum(l) => Datum(FVec(l)) case _ => Bad)
    case FId(id) => Datum(FId(Root(id)))
    case _ => Datum(f)
  }

  function QQItems(eval: Form -> Form, items: Form, nest: nat): Meaning
    requires nest >= 1
    decreases items, 1
  {
    if items.FPair? then Join(QQ(eval, items.car, nest), QQItems(eval, items.cdr, nest)) else Datum(FNil)
  }

  /** The rest of a list, from its first cell (head) or from a later one.  A
      quasiquote in any position with one argument after it deepens the level of
      that argument, an unquote makes it shallower. */
  function QQList(eval: Form -> Form, f: Form, head: bool, nest: nat): Meaning
    requires nest >= 1
    decreases f, 1
  {
    if !f.FPair? then (if f.FNil? then Datum(FNil) else QQTail(eval, f, nest))
    else if Keyword(f.car, QUASIQUOTE) then
      if IsList1(f.cdr) then Join(QQ(eval, f.car, nest + 1), QQList(eval, f.cdr, false, nest + 1)) else Bad
    else if Keyword(f.car, UNQUOTE) then
      if !IsList1(f.cdr) then Bad
      else if nest == 1 then Datum(eval(f.cdr.car))
      else Join(QQ(eval, f.car, nest - 1), QQList(eval, f.cdr, false, nest - 1))
    else if Keyword(f.car, UNQUOTE_SPLICING) then
      if !head || !IsList1(f.cdr) then Bad
      else if nest == 1 then
        var l := eval(f.cdr.car);
        if l.FPair? || l.FNil? then Spliced(l) else Bad
      else Join(QQ(eval, f.car, nest - 1), QQList(eval, f.cdr, false, nest - 1))
    else Join(QQ(eval, f.car, nest), QQList(eval, f.cdr, false, nest))
  }

  /** The last cdr of an improper list. */
  function QQTail(eval: Form -> Form, f: Form, nest: nat): (r: Meaning)
    requires nest >= 1 && !f.FPair?
    ensures !r.Spliced?
    decreases f, 0
  {
    match f
    case FVec(items) => (match QQItems(eval, items, nest) case Datum(l) => Datum(FVec(l)) case _ => Bad)
    case FId(id) => Datum(FId(Root(id)))
    case _ => Datum(f)
  }

  /* ---- Lists and sequences ---- */

  lemma {:induction false} PrependAll(a: seq<Form>, b: seq<Form>, f: Form)
    ensures Prepend(a + b, f) == Prepend(a, Prepend(b, f))
  {
    if a == [] {
      assert a + b == b;
    } else {
      assert (a + b)[1..] == a[1..] + b;
      PrependAll(a[1..], b, f);
    }
  }

  lemma {:induction false} ElementsOf(f: Form)
    ensures Prepend(Elements(f), Terminator(f)) == f
    ensures IsList(f) <==> Terminator(f).FNil?
  {
    if f.FPair? {
      ElementsOf(f.cdr);
      assert Elements(f)[1..] == Elements(f.cdr);
    }
  }

  lemma {:induction false} SpineLonger(es: seq<Form>, f: Form)
    ensures CountPairs(Prepend(es, f)) == |es| + CountPairs(f)
  {
    PrependPairs(es, f);
  }

  /** `m` with the elements `es` in front. */
  function After(es: seq<Form>, m: Meaning): Meaning {
    match m
    case Datum(f) => Datum(Prepend(es, f))
    case Spliced(_) => if es == [] then m else Bad
    case Bad => Bad
  }

  /** The part of a list after its head is never spliced. */
  lemma QQRestNotSpliced(eval: Form -> Form, f: Form, nest: nat)
    requires nest >= 1
    ensures !QQList(eval, f, false, nest).Spliced?
  {
  }

  /* ---- The list translator ---- */

  datatype Message = Nop | Replace(obj: Form) | Splice(obj: Form)

  /** The copy so far is `copied`, then what the hole at the end of the queue `q`
      holds.  The cells from `src` up to `cur` are still to be copied. */
  class ListTranslator {
    const input: Form
    var copied: seq<Form>
    var hole: Form
    var src: Form
    var cur: Form
    var written: bool
    ghost var pending: seq<Form>

    /** At a cell: nothing of it is translated yet. */
    ghost predicate Ready()
      reads this
    {
      src == Prepend(pending, cur) && hole == src && (!written ==> copied == [] && src == input)
    }

    /** What has become of the cells in front of `cur`. */
    ghost function Done(): seq<Form>
      reads this
    {
      copied + pending
    }

    function Output(): Form
      reads this
    {
      Prepend(copied, hole)
    }

    constructor (input: Form)
      ensures Ready() && Done() == [] && cur == input && this.input == input && !written
    {
      this.input := input;
      copied, hole, src, cur, written, pending := [], input, input, input, false, [];
    }

    method CopyDeferred()
      requires Ready()
      modifies this
      ensures src == cur == old(cur) && copied == old(Done()) && pending == [] && written
    {
      written := true;
      while src != cur
        invariant src == Prepend(pending, cur) && cur == old(cur) && written && copied + pending == old(Done())
        decreases |pending|
      {
        SpineLonger(pending, cur);
        copied := copied + [src.car];
        src := src.cdr;
        pending := pending[1..];
      }
      SpineLonger(pending, cur);
    }

    /** TR_EXECUTE on the cell at `cur`: false is "bad splice list". */
    method Execute(m: Message) returns (ok: bool)
      requires Ready() && cur.FPair?
      modifies this
      ensures cur == old(cur)
      ensures m.Nop? ==> ok && Ready() && Done() == old(Done()) && written == old(written)
      ensures ok <==> (m.Splice? ==> IsList(m.obj))
      ensures ok && !m.Nop? ==> written && src == hole == cur.cdr && pending == []
      ensures ok && !m.Nop? ==> copied == old(Done()) + if m.Replace? then [m.obj] else Elements(m.obj)
    {
      ok := true;
      if m.Nop? { return; }
      CopyDeferred();
      var obj := if m.Replace? then FPair(m.obj, FNil) else m.obj;
      assert m.Replace? ==> Elements(obj) == [m.obj];
      copied := copied + Elements(obj);
      hole := Terminator(obj);
      ElementsOf(obj);
      if !hole.FNil? { return false; }
      src := cur.cdr;
      hole := src;
    }

    method Next(ghost m: Message)
      requires cur.FPair?
      requires if m.Nop? then Ready() else written && src == hole == cur.cdr && pending == []
      modifies this
      ensures Ready() && cur == old(cur).cdr && written == old(written)
      ensures Done() == old(Done()) + if m.Nop? then [old(cur).car] else []
    {
      if m.Nop? {
        PrependAll(pending, [cur.car], cur.cdr);
        assert Prepend([cur.car], cur.cdr) == cur;
        pending := pending + [cur.car];
      }
      cur := cur.cdr;
    }

    method SetSubls(obj: Form)
      requires Ready()
      modifies this
      ensures written && Output() == Prepend(old(Done()), obj)
    {
      CopyDeferred();
      hole := obj;
    }
  }

  /* ---- The vector translator ---- */

  /** Indices of spliced elements are encoded as -i - 1. */
  function SplicedIndex(i: int): int { -i - 1 }

  datatype Change = Change(index: int, obj: Form)

  /** `diff` records that the elements of `src` from i on became `pieces`. */
  ghost predicate Encodes(src: seq<Form>, i: nat, pieces: seq<seq<Form>>, diff: seq<Change>)
    decreases pieces
  {
    if pieces == [] then diff == []
    else
      i < |src| &&
      if diff != [] && diff[0].index == i then
        pieces[0] == [diff[0].obj] && Encodes(src, i + 1, pieces[1..], diff[1..])
      else if diff != [] && diff[0].index == SplicedIndex(i) then
        IsList(diff[0].obj) && pieces[0] == Elements(diff[0].obj) && Encodes(src, i + 1, pieces[1..], diff[1..])
      else
        pieces[0] == [src[i]] && Encodes(src, i + 1, pieces[1..], diff)
  }

  function Flatten(pieces: seq<seq<Form>>): seq<Form> {
    if pieces == [] then [] else pieces[0] + Flatten(pieces[1..])
  }

  lemma {:induction false} FlattenSnoc(pieces: seq<seq<Form>>, p: seq<Form>)
    ensures Flatten(pieces + [p]) == Flatten(pieces) + p
  {
    if pieces == [] {
      assert [p][1..] == [];
    } else {
      assert (pieces + [p])[1..] == pieces[1..] + [p];
      FlattenSnoc(pieces[1..], p);
    }
  }

  lemma FlattenNone()
    ensures Flatten([]) == []
  {
  }

  /** The element i + |pieces| changed. */
  lemma {:induction false} EncodeChange(src: seq<Form>, i: nat, pieces: seq<seq<Form>>, diff: seq<Change>, c: Change,
                                        p: seq<Form>)
    requires Encodes(src, i, pieces, diff) && i + |pieces| < |src|
    requires
      (c.index == i + |pieces| && p == [c.obj]) ||
      (c.index == SplicedIndex(i + |pieces|) && IsList(c.obj) && p == Elements(c.obj))
    ensures Encodes(src, i, pieces + [p], diff + [c])
    decreases pieces
  {
    if pieces == [] {
      assert (pieces + [p])[1..] == [] && (diff + [c])[1..] == [];
    } else {
      assert (pieces + [p])[1..] == pieces[1..] + [p];
      if diff != [] { assert (diff + [c])[1..] == diff[1..] + [c] && (diff + [c])[0] == diff[0]; }
      if diff != [] && (diff[0].index == i || diff[0].index == SplicedIndex(i)) {
        EncodeChange(src, i + 1, pieces[1..], diff[1..], c, p);
      } else {
        EncodeChange(src, i + 1, pieces[1..], diff, c, p);
      }
    }
  }

  /** It stayed. */
  lemma {:induction false} EncodeSame(src: seq<Form>, i: nat, pieces: seq<seq<Form>>, diff: seq<Change>)
    requires Encodes(src, i, pieces, diff) && i + |pieces| < |src|
    ensures Encodes(src, i, pieces + [[src[i + |pieces|]]], diff)
    decreases pieces
  {
    var p := [src[i + |pieces|]];
    if pieces == [] {
      assert (pieces + [p])[1..] == [];
    } else {
      assert (pieces + [p])[1..] == pieces[1..] + [p];
      if diff != [] && (diff[0].index == i || diff[0].index == SplicedIndex(i)) {
        EncodeSame(src, i + 1, pieces[1..], diff[1..]);
      } else {
        EncodeSame(src, i + 1, pieces[1..], diff);
      }
    }
  }

  /** Nothing recorded, nothing changed. */
  lemma {:induction false} EncodeNone(src: seq<Form>, i: nat, pieces: seq<seq<Form>>)
    requires Encodes(src, i, pieces, [])
    ensures i + |pieces| <= |src| || pieces == []
    ensures pieces != [] ==> Flatten(pieces) == src[i..i + |pieces|]
    decreases pieces
  {
    if pieces != [] {
      NoneHead(src, i, pieces);
      EncodeNone(src, i + 1, pieces[1..]);
      if |pieces| == 1 { assert Flatten(pieces[1..]) == []; }
      hide Encodes, Flatten;
      assert src[i..i + |pieces|] == [src[i]] + src[i + 1..i + |pieces|];
    }
  }

  lemma NoneHead(src: seq<Form>, i: nat, pieces: seq<seq<Form>>)
    requires Encodes(src, i, pieces, []) && pieces != []
    ensures i < |src| && Encodes(src, i + 1, pieces[1..], [])
    ensures Flatten(pieces) == [src[i]] + Flatten(pieces[1..])
  {
  }

  /** The next element: what it became, and the changes after it. */
  lemma EncodesHead(src: seq<Form>, i: nat, pieces: seq<seq<Form>>, diff: seq<Change>)
    requires Encodes(src, i, pieces, diff) && pieces != [] && i < |src|
    ensures Flatten(pieces) == pieces[0] + Flatten(pieces[1..])
    ensures
      if diff != [] && diff[0].index == i then
        pieces[0] == [diff[0].obj] && Encodes(src, i + 1, pieces[1..], diff[1..])
      else if diff != [] && diff[0].index == SplicedIndex(i) then
        pieces[0] == Elements(diff[0].obj) && Encodes(src, i + 1, pieces[1..], diff[1..])
      else
        pieces[0] == [src[i]] && Encodes(src, i + 1, pieces[1..], diff)
  {
  }

  lemma Placed(before: seq<Form>, piece: seq<Form>, left: seq<Form>, now: seq<Form>)
    requires now == before + piece
    ensures now + left == before + (piece + left)
  {
  }

  class VectorTranslator {
    const src: seq<Form>
    var diff: seq<Change>
    var index: nat
    var growth: int
    ghost var pieces: seq<seq<Form>>

    ghost predicate Valid()
      reads this
    {
      |pieces| == index <= |src| && Encodes(src, 0, pieces, diff) && growth == |Flatten(pieces)| - index
    }

    constructor (src: seq<Form>)
      ensures Valid() && this.src == src && index == 0 && pieces == []
    {
      this.src := src;
      diff, index, growth, pieces := [], 0, 0, [];
    }

    /** TRV_EXECUTE followed by TRV_NEXT. */
    method ExecuteNext(m: Message) returns (ok: bool)
      requires Valid() && index < |src|
      modifies this
      ensures ok <==> (m.Splice? ==> IsList(m.obj))
      ensures ok ==> Valid() && index == old(index) + 1
      ensures ok ==>
        pieces == old(pieces) + [if m.Nop? then [src[old(index)]] else if m.Replace? then [m.obj] else Elements(m.obj)]
      ensures ok ==> (diff == [] <==> old(diff) == [] && m.Nop?)
    {
      ok := true;
      ghost var p := if m.Nop? then [src[index]] else if m.Replace? then [m.obj] else Elements(m.obj);
      FlattenSnoc(pieces, p);
      match m {
        case Nop =>
          EncodeSame(src, 0, pieces, diff);
        case Replace(obj) =>
          EncodeChange(src, 0, pieces, diff, Change(index, obj), p);
          diff := diff + [Change(index, obj)];
        case Splice(obj) =>
          if !IsList(obj) { return false; }
          growth := growth + |Elements(obj)| - 1;
          EncodeChange(src, 0, pieces, diff, Change(SplicedIndex(index), obj), p);
          diff := diff + [Change(SplicedIndex(index), obj)];
      }
      index := index + 1;
      pieces := pieces + [p];
    }

    /** The elements of a spliced list, one slot each. */
    method Append(copyBuf: array<Form>, start: nat, list: Form) returns (cpi: nat)
      requires start + |Elements(list)| <= copyBuf.Length
      modifies copyBuf
      ensures cpi == start + |Elements(list)|
      ensures copyBuf[..cpi] == old(copyBuf[..start]) + Elements(list)
    {
      cpi := start;
      var appendix := list;
      ghost var before := copyBuf[..start];
      while appendix.FPair?
        invariant cpi + |Elements(appendix)| == start + |Elements(list)| <= copyBuf.Length
        invariant copyBuf[..cpi] + Elements(appendix) == before + Elements(list)
        decreases appendix
      {
        ghost var done := copyBuf[..cpi];
        copyBuf[cpi] := appendix.car;
        cpi := cpi + 1;
        assert copyBuf[..cpi] == done + [appendix.car];
        assert done + ([appendix.car] + Elements(appendix.cdr)) == done + [appendix.car] + Elements(appendix.cdr);
        appendix := appendix.cdr;
      }
    }

    /** TR_MSG_EXTRACT when changes were recorded: the new buffer holds the pieces
        one after the other, and they fill it. */
    method Extract() returns (copyBuf: array<Form>)
      requires Valid() && index == |src| && diff != []
      ensures fresh(copyBuf) && copyBuf[..] == Flatten(pieces)
    {
      hide Encodes, Flatten, Elements;
      copyBuf := new Form[|src| + growth](_ => FNil);
      var rest := diff;
      var changeIndex := rest[0].index;
      var i, cpi := 0, 0;
      ghost var left := pieces;
      while i < |src|
        invariant i <= |src| && |left| == |src| - i && Encodes(src, i, left, rest)
        invariant changeIndex == if rest == [] then |src| else rest[0].index
        invariant cpi + |Flatten(left)| == |Flatten(pieces)| == copyBuf.Length
        invariant copyBuf[..cpi] + Flatten(left) == Flatten(pieces)
      {
        EncodesHead(src, i, left, rest);
        ghost var before := copyBuf[..cpi];
        if i == changeIndex {
          copyBuf[cpi] := rest[0].obj;
          cpi := cpi + 1;
        } else if SplicedIndex(i) == changeIndex {
          cpi := Append(copyBuf, cpi, rest[0].obj);
        } else {
          copyBuf[cpi] := src[i];
          cpi := cpi + 1;
        }
        Placed(before, left[0], Flatten(left[1..]), copyBuf[..cpi]);
        if i == changeIndex || SplicedIndex(i) == changeIndex {
          rest := rest[1..];
          changeIndex := if rest == [] then |src| else rest[0].index;
        }
        left := left[1..];
        i := i + 1;
      }
      assert left == [];
      FlattenNone();
      assert copyBuf[..] == copyBuf[..cpi];
    }
  }

  /* ---- qquote_internal ---- */

  datatype Result = Ok(m: Message) | Error

  /** The message tells the caller what the template stands for; TR_MSG_NOP, that
      it stands for itself. */
  ghost predicate Tells(r: Result, input: Form, m: Meaning) {
    match r
    case Error => m.Bad?
    case Ok(Nop) => m == Datum(input)
    case Ok(Replace(obj)) => m == Datum(obj)
    case Ok(Splice(obj)) => m == Spliced(obj)
  }

  /** What the first element of `form` tells about the level: the new level, the
      value to put in place of the rest, a list to splice, or an error. */
  datatype Cue = Level(nest: nat) | Tail(obj: Form) | List(obj: Form) | Wrong

  function Classify(eval: Form -> Form, form: Form, head: bool, nest: nat): (c: Cue)
    requires form.FPair? && nest >= 1
    ensures c.Level? ==> c.nest >= 1
  {
    if Keyword(form.car, QUASIQUOTE) then
      if !IsList1(form.cdr) then Wrong else Level(nest + 1)
    else if Keyword(form.car, UNQUOTE) then
      if !IsList1(form.cdr) then Wrong
      else if nest - 1 == 0 then Tail(eval(form.cdr.car)) else Level(nest - 1)
    else if Keyword(form.car, UNQUOTE_SPLICING) then
      if !head then Wrong
      else if !IsList1(form.cdr) then Wrong
      else if nest - 1 == 0 then
        var obj := eval(form.cdr.car);
        if obj.FPair? || obj.FNil? then List(obj) else Wrong
      else Level(nest - 1)
    else Level(nest)
  }

  lemma ClassifyMeans(eval: Form -> Form, form: Form, head: bool, nest: nat)
    requires form.FPair? && nest >= 1
    ensures
      var c, m := Classify(eval, form, head, nest), QQList(eval, form, head, nest);
      match c
      case Wrong => m == Bad
      case Tail(obj) => m == Datum(obj)
      case List(obj) => m == Spliced(obj) && head
      case Level(n) => m == Join(QQ(eval, form.car, n), QQList(eval, form.cdr, false, n))
  {
  }

  /** One more item is translated. */
  lemma JoinAfter(es: seq<Form>, item: Meaning, rest: Meaning)
    requires !rest.Spliced?
    ensures item.Bad? || (item.Spliced? && !IsList(item.f)) ==> After(es, Join(item, rest)) == Bad
    ensures item.Datum? ==> After(es, Join(item, rest)) == After(es + [item.f], rest)
    ensures item.Spliced? && IsList(item.f) ==> After(es, Join(item, rest)) == After(es + Elements(item.f), rest)
  {
    match item
    case Bad =>
    case Datum(x) => if rest.Datum? {
      PrependAll(es, [x], rest.f);
      assert Prepend([x], rest.f) == FPair(x, rest.f);
    }
    case Spliced(l) => if rest.Datum? { PrependAll(es, Elements(l), rest.f); }
  }

  function Size(f: Form): (n: nat)
    ensures n >= 1
  {
    match f
    case FPair(a, d) => 1 + Size(a) + Size(d)
    case FVec(items) => 1 + Size(items)
    case _ => 1
  }

  class Quasiquoter {
    const eval: Form -> Form

    constructor (eval: Form -> Form)
      ensures this.eval == eval
    {
      this.eval := eval;
    }

    method Internal(input: Form, nest: nat) returns (r: Result)
      requires nest >= 1 && WfForm(input)
      ensures Tells(r, input, QQ(eval, input, nest))
      decreases Size(input), 1
    {
      match input {
        case FVec(items) => r := Vector(items, nest);
        case FPair(_, _) => r := Pairs(input, nest);
        case FId(id) => r := Ok(if id.Far? then Replace(FId(Root(id))) else Nop);
        case _ => r := Ok(Nop);
      }
    }

    /** scm_s_quasiquote. */
    method Quasiquote(datum: Form) returns (r: Option<Form>)
      requires WfForm(datum)
      ensures r == match QQ(eval, datum, 1) case Datum(f) => Some(f) case _ => None
    {
      var result := Internal(datum, 1);
      match result {
        case Ok(Nop) => r := Some(datum);
        case Ok(Replace(obj)) => r := Some(obj);
        case _ => r := None;
      }
    }

    method Pairs(input: Form, nest: nat) returns (r: Result)
      requires nest >= 1 && WfForm(input) && input.FPair?
      ensures Tells(r, input, QQ(eval, input, nest))
      decreases Size(input), 0
    {
      hide QQ, QQList, Join, After, Elements, Keyword;
      var tr := new ListTranslator(input);
      var level := nest;
      ghost var whole := QQList(eval, input, true, nest);
      PairsMean(eval, input, nest);
      AfterNothing(whole);
      while tr.cur.FPair?
        invariant fresh(tr) && tr.Ready() && level >= 1 && WfForm(tr.cur) && tr.input == input
        invariant Size(tr.cur) <= Size(input) && (tr.cur != input ==> Size(tr.cur) < Size(input))
        invariant tr.cur == input ==> tr.Done() == []
        invariant After(tr.Done(), QQList(eval, tr.cur, tr.cur == input, level)) == whole
        decreases Size(tr.cur)
      {
        ghost var done, cell := tr.Done(), tr.cur;
        ClassifyMeans(eval, tr.cur, tr.cur == input, level);
        match Classify(eval, tr.cur, tr.cur == input, level) {
          case Wrong =>
            AfterBad(done);
            return Error;
          case Tail(obj) =>
            AfterDatum(done, obj);
            tr.SetSubls(obj);
            return Ok(Replace(tr.Output()));
          case List(obj) =>
            AfterNothing(Spliced(obj));
            return Ok(Splice(obj));
          case Level(n) =>
            level := n;
        }
        var result := Internal(tr.cur.car, level);
        QQRestNotSpliced(eval, tr.cur.cdr, level);
        JoinAfter(done, QQ(eval, tr.cur.car, level), QQList(eval, tr.cur.cdr, false, level));
        if result.Error? { return Error; }
        var ok := tr.Execute(result.m);
        if !ok { return Error; }
        tr.Next(result.m);
        assert tr.Done() == done +
          (match result.m
           case Nop => [QQ(eval, cell.car, level).f]
           case Replace(obj) => [obj]
           case Splice(obj) => Elements(obj));
        assert tr.cur != input;
      }
      EndMeans(eval, tr.cur, tr.cur == input, level);
      if !tr.cur.FNil? {
        var result := Internal(tr.cur, level);
        AfterBad(tr.Done());
        if result.Error? { return Error; }
        AfterDatum(tr.Done(), QQ(eval, tr.cur, level).f);
        if result.m.Replace? {
          tr.SetSubls(result.m.obj);
          return Ok(Replace(tr.Output()));
        }
      }
      AfterDatum(tr.Done(), tr.cur);
      PrependAll(tr.copied, tr.pending, tr.cur);
      r := Ok(if tr.written then Replace(tr.Output()) else Nop);
    }

    method Vector(items: Form, nest: nat) returns (r: Result)
      requires nest >= 1 && WfForm(items) && IsList(items)
      ensures Tells(r, FVec(items), QQ(eval, FVec(items), nest))
      decreases Size(items), 2
    {
      hide QQ, Join, After, Flatten, Elements;
      var tr := new VectorTranslator(Elements(items));
      ghost var rest := items;
      assert After(Flatten([]), QQItems(eval, items, nest)) == QQItems(eval, items, nest) by {
        AfterNone(QQItems(eval, items, nest));
      }
      while tr.index < |tr.src|
        invariant fresh(tr) && tr.Valid() && WfForm(rest) && IsList(rest)
        invariant tr.src == Elements(items) && tr.src[tr.index..] == Elements(rest) && Size(rest) <= Size(items)
        invariant After(Flatten(tr.pieces), QQItems(eval, rest, nest)) == QQItems(eval, items, nest)
      {
        ElementsHead(rest);
        QQItemsHead(eval, rest, nest);
        assert tr.src[tr.index] == tr.src[tr.index..][0] && tr.src[tr.index + 1..] == tr.src[tr.index..][1..];
        var result := Internal(tr.src[tr.index], nest);
        JoinAfter(Flatten(tr.pieces), QQ(eval, rest.car, nest), QQItems(eval, rest.cdr, nest));
        ghost var before := tr.pieces;
        if result.Error? { VectorBad(eval, items, nest); return Error; }
        var ok := tr.ExecuteNext(result.m);
        if !ok { VectorBad(eval, items, nest); return Error; }
        FlattenSnoc(before, tr.pieces[|before|]);
        rest := rest.cdr;
      }
      ElementsNone(rest);
      QQItemsNone(eval, rest, nest);
      AfterDatum(Flatten(tr.pieces), FNil);
      VectorGood(eval, items, nest, Flatten(tr.pieces));
      if tr.diff == [] {
        EncodeNone(tr.src, 0, tr.pieces);
        if tr.pieces == [] { FlattenNone(); }
        assert Flatten(tr.pieces) == Elements(items);
        ElementsOf(items);
        r := Ok(Nop);
      } else {
        var buf := tr.Extract();
        r := Ok(Replace(FVec(Prepend(buf[..], FNil))));
      }
    }
  }

  lemma PairsMean(eval: Form -> Form, f: Form, nest: nat)
    requires nest >= 1 && f.FPair?
    ensures QQ(eval, f, nest) == QQList(eval, f, true, nest)
  {
  }

  /** The end of a list: nothing more, or the last cdr of an improper one. */
  lemma EndMeans(eval: Form -> Form, f: Form, head: bool, nest: nat)
    requires nest >= 1 && !f.FPair?
    ensures f.FNil? ==> QQList(eval, f, head, nest) == Datum(FNil)
    ensures !f.FNil? ==> QQList(eval, f, head, nest) == QQ(eval, f, nest) && !QQ(eval, f, nest).Spliced?
  {
  }

  lemma AfterNothing(m: Meaning)
    ensures After([], m) == m
  {
  }

  lemma AfterBad(es: seq<Form>)
    ensures After(es, Bad) == Bad
  {
  }

  lemma AfterNone(m: Meaning)
    ensures After(Flatten([]), m) == m
  {
  }

  lemma AfterDatum(es: seq<Form>, f: Form)
    ensures After(es, Datum(f)) == Datum(Prepend(es, f))
  {
  }

  lemma ElementsHead(f: Form)
    requires Elements(f) != []
    ensures f.FPair? && Elements(f)[0] == f.car && Elements(f)[1..] == Elements(f.cdr)
  {
  }

  lemma ElementsNone(f: Form)
    requires Elements(f) == []
    ensures !f.FPair?
  {
  }

  lemma QQItemsHead(eval: Form -> Form, items: Form, nest: nat)
    requires nest >= 1 && items.FPair?
    ensures QQItems(eval, items, nest) == Join(QQ(eval, items.car, nest), QQItems(eval, items.cdr, nest))
    ensures !QQItems(eval, items.cdr, nest).Spliced?
  {
  }

  lemma QQItemsNone(eval: Form -> Form, items: Form, nest: nat)
    requires nest >= 1 && !items.FPair?
    ensures QQItems(eval, items, nest) == Datum(FNil)
  {
  }

  lemma VectorBad(eval: Form -> Form, items: Form, nest: nat)
    requires nest >= 1 && QQItems(eval, items, nest) == Bad
    ensures QQ(eval, FVec(items), nest) == Bad
  {
  }

  lemma VectorGood(eval: Form -> Form, items: Form, nest: nat, es: seq<Form>)
    requires nest >= 1 && QQItems(eval, items, nest) == Datum(Prepend(es, FNil))
    ensures QQ(eval, FVec(items), nest) == Datum(FVec(Prepend(es, FNil)))
  {
  }

  /* ---- Templates by the grammar of R5RS section 7.1.4 ---- */

  /** A quasiquotation template with its holes.  Unquote and SpliceCell are holes of
      level 1; the arguments of Deeper are at a level more, those of Shallower and
      ShallowSplice at a level less. */
  datatype Template =
    | Leaf(f: Form)
    | Cell(head: Template, tail: Template)
    | Vec(items: Template)
    | Unquote(kw: Ident, e: Form)
    | SpliceCell(kw: Ident, e: Form, tail: Template)
    | Deeper(kw: Ident, args: Template)
    | Shallower(kw: Ident, args: Template)
    | ShallowSplice(kw: Ident, args: Template)

  function List2(kw: Ident, f: Form): Form { FPair(FId(kw), FPair(f, FNil)) }

  /** The datum as written. */
  function Written(t: Template): Form {
    match t
    case Leaf(f) => f
    case Cell(h, rest) => FPair(Written(h), Written(rest))
    case Vec(items) => FVec(Written(items))
    case Unquote(kw, e) => List2(kw, e)
    case SpliceCell(kw, e, rest) => FPair(List2(kw, e), Written(rest))
    case Deeper(kw, args) => FPair(FId(kw), Written(args))
    case Shallower(kw, args) => FPair(FId(kw), Written(args))
    case ShallowSplice(kw, args) => FPair(FId(kw), Written(args))
  }

  /** The same with the holes filled in and the identifiers unwrapped. */
  function Filled(eval: Form -> Form, t: Template): Form {
    match t
    case Leaf(f) => if f.FId? then FId(Root(f.id)) else f
    case Cell(h, rest) => FPair(Filled(eval, h), Filled(eval, rest))
    case Vec(items) => FVec(Filled(eval, items))
    case Unquote(_, e) => eval(e)
    case SpliceCell(_, e, rest) => Prepend(Elements(eval(e)), Filled(eval, rest))
    case Deeper(kw, args) => FPair(FId(Root(kw)), Filled(eval, args))
    case Shallower(kw, args) => FPair(FId(Root(kw)), Filled(eval, args))
    case ShallowSplice(kw, args) => FPair(FId(Root(kw)), Filled(eval, args))
  }

  predicate IsKeyword(f: Form) {
    Keyword(f, QUASIQUOTE) || Keyword(f, UNQUOTE) || Keyword(f, UNQUOTE_SPLICING)
  }

  /** The template is an element of a list: not one of the three symbols by itself. */
  predicate Element(t: Template) {
    t.Leaf? ==> !IsKeyword(t.f)
  }

  predicate OneItem(t: Template) {
    (t.Cell? || t.SpliceCell?) && t.tail == Leaf(FNil)
  }

  /** A well-formed template of level d whose splices are lists. */
  predicate WfTemplate(eval: Form -> Form, t: Template, d: nat) {
    match t
    case Leaf(f) => !f.FPair? && !f.FVec?
    case Cell(h, rest) => Element(h) && !rest.ShallowSplice? && WfTemplate(eval, h, d) && WfTemplate(eval, rest, d)
    case Vec(items) => WfItems(eval, items, d)
    case Unquote(kw, _) => d == 1 && Root(kw) == UNQUOTE
    case SpliceCell(kw, e, rest) =>
      d == 1 && Root(kw) == UNQUOTE_SPLICING && IsList(eval(e)) && !rest.ShallowSplice? && WfTemplate(eval, rest, d)
    case Deeper(kw, args) => Root(kw) == QUASIQUOTE && OneItem(args) && WfTemplate(eval, args, d + 1)
    case Shallower(kw, args) => d > 1 && Root(kw) == UNQUOTE && OneItem(args) && WfTemplate(eval, args, d - 1)
    case ShallowSplice(kw, args) =>
      d > 1 && Root(kw) == UNQUOTE_SPLICING && OneItem(args) && WfTemplate(eval, args, d - 1)
  }

  /** The elements of a vector, where the three symbols mean nothing by themselves. */
  predicate WfItems(eval: Form -> Form, t: Template, d: nat) {
    match t
    case Leaf(f) => f.FNil?
    case Cell(h, rest) => WfTemplate(eval, h, d) && WfItems(eval, rest, d)
    case SpliceCell(kw, e, rest) =>
      d == 1 && Root(kw) == UNQUOTE_SPLICING && IsList(eval(e)) && WfItems(eval, rest, d)
    case _ => false
  }

  lemma NotKeyword(t: Template)
    requires Element(t)
    ensures !IsKeyword(Written(t))
  {
  }

  /** One of the three symbols before its argument. */
  lemma HeadMeans(eval: Form -> Form, kw: Ident, args: Form, head: bool, d: nat)
    requires d >= 1 && IsList1(args)
    ensures
      var inner := if Root(kw) == QUASIQUOTE then d + 1 else d - 1;
      IsKeyword(FId(kw)) && inner >= 1 && (Root(kw) == UNQUOTE_SPLICING ==> head) ==>
        QQList(eval, FPair(FId(kw), args), head, d) ==
        Join(Datum(FId(Root(kw))), QQList(eval, args, false, inner))
  {
  }

  /** A list that begins with anything else. */
  lemma CellMeans(eval: Form -> Form, f: Form, head: bool, d: nat)
    requires d >= 1 && f.FPair? && !IsKeyword(f.car)
    ensures QQList(eval, f, head, d) == Join(QQ(eval, f.car, d), QQList(eval, f.cdr, false, d))
  {
  }

  /** A list is spliced exactly by an unquote-splicing of level 1. */
  lemma SplicedMeans(eval: Form -> Form, f: Form, d: nat, l: Form)
    requires d >= 1
    ensures QQ(eval, f, d) == Spliced(l) <==>
      d == 1 && f.FPair? && Keyword(f.car, UNQUOTE_SPLICING) && IsList1(f.cdr) && l == eval(f.cdr.car) &&
      (l.FPair? || l.FNil?)
  {
  }

  /** The translation of every well-formed template, at every level, is the
      template with its holes filled. */
  lemma {:induction false} TemplateMeans(eval: Form -> Form, t: Template, d: nat)
    requires d >= 1 && WfTemplate(eval, t, d)
    ensures QQ(eval, Written(t), d) == Datum(Filled(eval, t))
    ensures !t.ShallowSplice? ==> QQList(eval, Written(t), false, d) == Datum(Filled(eval, t))
    decreases t
  {
    match t
    case Leaf(f) =>
    case Cell(h, rest) =>
      hide QQ, QQList;
      TemplateMeans(eval, h, d);
      TemplateMeans(eval, rest, d);
      NotKeyword(h);
      CellMeans(eval, Written(t), false, d);
      CellMeans(eval, Written(t), true, d);
      PairsMean(eval, Written(t), d);
    case Vec(items) =>
      ItemsMean(eval, items, d);
    case Unquote(_, _) =>
    case SpliceCell(kw, e, rest) =>
      hide QQ, QQList;
      TemplateMeans(eval, rest, d);
      SplicedMeans(eval, List2(kw, e), 1, eval(e));
      CellMeans(eval, Written(t), false, d);
      CellMeans(eval, Written(t), true, d);
      PairsMean(eval, Written(t), d);
    case Deeper(kw, args) =>
      TemplateMeans(eval, args, d + 1);
      ArgumentsMean(eval, kw, args, d);
    case Shallower(kw, args) =>
      TemplateMeans(eval, args, d - 1);
      ArgumentsMean(eval, kw, args, d);
    case ShallowSplice(kw, args) =>
      TemplateMeans(eval, args, d - 1);
      ArgumentsMean(eval, kw, args, d);
  }

  lemma ArgumentsMean(eval: Form -> Form, kw: Ident, args: Template, d: nat)
    requires IsKeyword(FId(kw)) && OneItem(args) && d >= 1 && (Root(kw) != QUASIQUOTE ==> d > 1)
    requires QQList(eval, Written(args), false, if Root(kw) == QUASIQUOTE then d + 1 else d - 1) ==
      Datum(Filled(eval, args))
    ensures
      var f := FPair(FId(kw), Written(args));
      var v := Datum(FPair(FId(Root(kw)), Filled(eval, args)));
      QQ(eval, f, d) == v && (Root(kw) != UNQUOTE_SPLICING ==> QQList(eval, f, false, d) == v)
  {
    hide QQ, QQList;
    HeadMeans(eval, kw, Written(args), true, d);
    HeadMeans(eval, kw, Written(args), false, d);
    PairsMean(eval, FPair(FId(kw), Written(args)), d);
  }

  lemma {:induction false} ItemsMean(eval: Form -> Form, items: Template, d: nat)
    requires d >= 1 && WfItems(eval, items, d)
    ensures QQItems(eval, Written(items), d) == Datum(Filled(eval, items))
    decreases items
  {
    match items
    case Leaf(f) =>
    case Cell(h, rest) =>
      TemplateMeans(eval, h, d);
      ItemsMean(eval, rest, d);
    case SpliceCell(kw, e, rest) =>
      ItemsMean(eval, rest, d);
      SplicedMeans(eval, List2(kw, e), 1, eval(e));
  }

  /* ---- Nothing else is a template ---- */

  /** A form that means a datum is the written form of a template. */
  lemma {:induction false} TemplateOf(eval: Form -> Form, f: Form, d: nat, v: Form) returns (t: Template)
    requires d >= 1 && WfForm(f) && QQ(eval, f, d) == Datum(v)
    ensures WfTemplate(eval, t, d) && Written(t) == f && Filled(eval, t) == v
    decreases f, 2
  {
    match f
    case FPair(_, _) => t := ListTemplateOf(eval, f, true, d, v);
    case FVec(items) =>
      var l := ItemsTemplateOf(eval, items, d, v.items);
      t := Vec(l);
    case _ => t := Leaf(f);
  }

  lemma {:induction false} ListTemplateOf(eval: Form -> Form, f: Form, head: bool, d: nat, v: Form)
    returns (t: Template)
    requires d >= 1 && WfForm(f) && QQList(eval, f, head, d) == Datum(v)
    ensures WfTemplate(eval, t, d) && Written(t) == f && Filled(eval, t) == v && (t.ShallowSplice? ==> head)
    decreases f, 1
  {
    if !f.FPair? {
      EndMeans(eval, f, head, d);
      if f.FVec? {
        var l := ItemsTemplateOf(eval, f.items, d, v.items);
        t := Vec(l);
      } else {
        t := Leaf(f);
      }
    } else if !IsKeyword(f.car) {
      t := CellTemplateOf(eval, f, head, d, v);
    } else {
      var kw := f.car.id;
      if d == 1 && Root(kw) != QUASIQUOTE {
        t := Unquote(kw, f.cdr.car);
      } else {
        var inner := if Root(kw) == QUASIQUOTE then d + 1 else d - 1;
        HeadMeans(eval, kw, f.cdr, head, d);
        var args := ArgumentsOf(eval, f.cdr, inner, v.cdr);
        t := if Root(kw) == QUASIQUOTE then Deeper(kw, args)
             else if Root(kw) == UNQUOTE then Shallower(kw, args) else ShallowSplice(kw, args);
      }
    }
  }

  lemma {:induction false} CellTemplateOf(eval: Form -> Form, f: Form, head: bool, d: nat, v: Form)
    returns (t: Template)
    requires d >= 1 && WfForm(f) && f.FPair? && !IsKeyword(f.car) && QQList(eval, f, head, d) == Datum(v)
    ensures WfTemplate(eval, t, d) && Written(t) == f && Filled(eval, t) == v && !t.ShallowSplice?
    ensures t.Cell? || t.SpliceCell?
    decreases f, 0
  {
    hide QQ, QQList;
    CellMeans(eval, f, head, d);
    var m := QQ(eval, f.car, d);
    var r := QQList(eval, f.cdr, false, d);
    var rest := ListTemplateOf(eval, f.cdr, false, d, r.f);
    if m.Datum? {
      var h := TemplateOf(eval, f.car, d, m.f);
      t := Cell(h, rest);
    } else {
      SplicedMeans(eval, f.car, d, m.f);
      t := SpliceCell(f.car.car.id, f.car.cdr.car, rest);
    }
  }

  /** What is after one of the three symbols. */
  lemma {:induction false} ArgumentsOf(eval: Form -> Form, f: Form, d: nat, v: Form) returns (t: Template)
    requires d >= 1 && WfForm(f) && IsList1(f) && QQList(eval, f, false, d) == Datum(v)
    ensures WfTemplate(eval, t, d) && Written(t) == f && Filled(eval, t) == v && OneItem(t)
    decreases f, 1
  {
    assert !IsKeyword(f.car);
    t := CellTemplateOf(eval, f, false, d, v);
    NilTemplate(t.tail);
  }

  lemma NilTemplate(t: Template)
    requires Written(t) == FNil
    ensures t == Leaf(FNil)
  {
  }

  lemma {:induction false} ItemsTemplateOf(eval: Form -> Form, items: Form, d: nat, v: Form) returns (t: Template)
    requires d >= 1 && WfForm(items) && IsList(items) && QQItems(eval, items, d) == Datum(v)
    ensures WfItems(eval, t, d) && Written(t) == items && Filled(eval, t) == v
    decreases items, 1
  {
    if items.FPair? {
      QQItemsHead(eval, items, d);
      var m := QQ(eval, items.car, d);
      var r := QQItems(eval, items.cdr, d);
      var rest := ItemsTemplateOf(eval, items.cdr, d, r.f);
      if m.Datum? {
        var h := TemplateOf(eval, items.car, d, m.f);
        t := Cell(h, rest);
      } else {
        SplicedMeans(eval, items.car, d, m.f);
        t := SpliceCell(items.car.car.id, items.car.cdr.car, rest);
      }
    } else {
      t := Leaf(FNil);
    }
  }

  /** A form means a datum exactly if it is a well-formed template, and then the
      template with its holes filled: everything else that is not spliced is an error. */
  lemma DatumMeans(eval: Form -> Form, f: Form, d: nat, v: Form)
    requires d >= 1 && WfForm(f)
    ensures QQ(eval, f, d) == Datum(v) <==>
      exists t :: WfTemplate(eval, t, d) && Written(t) == f && Filled(eval, t) == v
  {
    hide QQ;
    if QQ(eval, f, d) == Datum(v) { var t := TemplateOf(eval, f, d, v); }
    forall t | WfTemplate(eval, t, d) && Written(t) == f && Filled(eval, t) == v ensures QQ(eval, f, d) == Datum(v) {
      TemplateMeans(eval, t, d);
    }
  }
}
