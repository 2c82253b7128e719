/** The transcriber of src/macro.c.  Repetition is driven by an index vector and
    by the signal that a variable is exhausted at some level; the contracts tie
    it to recursive instantiation. */
module Transcriber {
  import opened Forms
  import opened Patterns
  import opened Templates

  /** MSG_REPLACE, MSG_SPLICE and MSG_PVAR_EXHAUSTED. */
  datatype Ret = Replace(form: Form) | Splice(forms: seq<Form>) | Exhausted(level: nat)

  /** Following the indices i, ..., l - 1 into a binding. */
  ghost function Walk(b: Binding, idx: seq<nat>, i: nat, l: nat): State
    requires l <= |idx|
    decreases l - i
  {
    if i >= l then Live(b)
    else if !b.Many? then Past
    else if idx[i] < |b.items| then Walk(b.items[idx[i]], idx, i + 1, l)
    else if idx[i] == |b.items| then Ended(i) else Past
  }

  function Min(a: nat, b: nat): nat { if a < b then a else b }

  /** The indices leave of every variable of `t` what `ss` says. */
  ghost predicate Reads(t: Tmpl, sub: seq<Binding>, idx: seq<nat>, level: nat, ss: seq<State>) {
    level <= |idx| && |ss| == |sub| && Deep(t, ss, level) &&
    forall v :: v in Vars(t) ==> v.0 < |sub| && Walk(sub[v.0], idx, 0, Min(v.1, level)) == ss[v.0]
  }

  lemma {:induction false} WalkFrame(b: Binding, idx: seq<nat>, idx': seq<nat>, i: nat, l: nat)
    requires l <= |idx| && l <= |idx'| && idx[..l] == idx'[..l]
    ensures Walk(b, idx, i, l) == Walk(b, idx', i, l)
    decreases l - i
  {
    if i < l {
      assert idx[i] == idx[..l][i] == idx'[i];
      if b.Many? && idx[i] < |b.items| { WalkFrame(b.items[idx[i]], idx, idx', i + 1, l); }
    }
  }

  lemma {:induction false} WalkSplit(b: Binding, idx: seq<nat>, i: nat, l: nat, m: nat)
    requires i <= l <= m <= |idx|
    ensures Walk(b, idx, i, m) == match Walk(b, idx, i, l) { case Live(c) => Walk(c, idx, l, m) case w => w }
    decreases l - i
  {
    if i < l && b.Many? && idx[i] < |b.items| { WalkSplit(b.items[idx[i]], idx, i + 1, l, m); }
  }

  lemma ReadsKept(t: Tmpl, sub: seq<Binding>, idx: seq<nat>, idx': seq<nat>, level: nat, ss: seq<State>)
    requires level <= |idx'| && level <= |idx| && idx'[..level] == idx[..level] && Reads(t, sub, idx, level, ss)
    ensures Reads(t, sub, idx', level, ss)
  {
    forall v | v in Vars(t) ensures Walk(sub[v.0], idx', 0, Min(v.1, level)) == ss[v.0] {
      var l := Min(v.1, level);
      assert idx'[..l] == idx'[..level][..l] == idx[..l];
      WalkFrame(sub[v.0], idx, idx', 0, l);
    }
  }

  lemma ReadsParts(t: Tmpl, sub: seq<Binding>, idx: seq<nat>, level: nat, ss: seq<State>)
    requires Reads(t, sub, idx, level, ss)
    ensures t.TPair? ==> Reads(t.car, sub, idx, level, ss) && Reads(t.cdr, sub, idx, level, ss)
    ensures t.TVec? ==> Reads(t.items, sub, idx, level, ss)
    ensures t.TRep? ==> Reads(t.tmpl, sub, idx, level, ss)
  {}

  lemma ReadsLevel(t: Tmpl, sub: seq<Binding>, idx: seq<nat>, level: nat, ss: seq<State>)
    requires Reads(t, sub, idx, level, ss)
    ensures level <= |idx| && Deep(t, ss, level)
  {}

  /** In repetition k. */
  lemma ReadsInner(q: Tmpl, sub: seq<Binding>, idx: seq<nat>, idx': seq<nat>, level: nat, ss: seq<State>, k: nat)
    requires level <= |idx| && level < |idx'| && idx'[..level] == idx[..level] && idx'[level] == k
    requires Reads(q, sub, idx, level, ss)
    ensures Reads(q, sub, idx', level + 1, Peel(ss, level, k))
  {
    PeelDeep(q, ss, level, k);
    forall v | v in Vars(q) ensures Walk(sub[v.0], idx', 0, Min(v.1, level + 1)) == Peel(ss, level, k)[v.0] {
      assert Fits(v, ss, level);
      var l := Min(v.1, level);
      assert idx'[..l] == idx'[..level][..l] == idx[..l];
      WalkFrame(sub[v.0], idx, idx', 0, l);
      WalkSplit(sub[v.0], idx', 0, l, Min(v.1, level + 1));
    }
  }

  lemma {:induction false} PrependCat(a: seq<Form>, b: seq<Form>, r: Form)
    ensures Prepend(a + b, r) == Prepend(a, Prepend(b, r))
  {
    if a == [] { assert a + b == b; }
    else { PrependCat(a[1..], b, r); assert (a + b)[1..] == a[1..] + b; }
  }

  predicate Extends(m: map<Ident, Ident>, m': map<Ident, Ident>) {
    forall x :: x in m ==> x in m' && m'[x] == m[x]
  }

  /** What transcribe_rec must answer. */
  ghost predicate Answers(t: Tmpl, ss: seq<State>, level: nat, fvars: map<Ident, Ident>, r: Ret) {
    if Runs(t, ss, level).Stops? then r == Exhausted(Runs(t, ss, level).level)
    else if t.TRep? then
      r.Splice? && forall ren: map<Ident, Ident> :: Extends(fvars, ren) ==>
        r.forms == Repeat(t.tmpl, ss, level, ren, 0, Times(t.tmpl, ss, level))
    else
      r.Replace? && forall ren: map<Ident, Ident> :: Extends(fvars, ren) ==> r.form == Inst(t, ss, level, ren)
  }

  /** The n-th identifier of `order` got the n-th wrapper, and no other. */
  ghost predicate Numbered(fvars: map<Ident, Ident>, order: seq<Ident>, wrap: (Ident, nat) -> Ident) {
    (forall x :: x in fvars <==> x in order) && |fvars| == |order| &&
    (forall n :: 0 <= n < |order| ==> fvars[order[n]] == wrap(order[n], n)) &&
    (forall m, n :: 0 <= m < n < |order| ==> order[m] != order[n])
  }

  lemma PrefixKept(idx: seq<nat>, idx': seq<nat>, level: nat)
    requires level < |idx| <= |idx'| && idx'[..level + 1] == idx[..level + 1]
    ensures idx'[..level] == idx[..level] && idx'[level] == idx[level]
  {
    assert idx'[..level] == idx'[..level + 1][..level];
    assert idx'[level] == idx'[..level + 1][level] == idx[..level + 1][level];
  }

  class TranscriptionContext {
    const wrap: (Ident, nat) -> Ident    // scm_wrap_identifier in the definition environment, for the n-th new object
    var fvars: map<Ident, Ident>
    var indices: seq<nat>
    ghost var order: seq<Ident>          // the identifiers in fvars, oldest first

    /** The n-th identifier met got the n-th wrapper, and no other. */
    ghost predicate Valid() reads this {
      |indices| >= 16 && Numbered(fvars, order, wrap)
    }

    constructor (wrap: (Ident, nat) -> Ident)
      ensures this.wrap == wrap
    {
      this.wrap := wrap;
      fvars, indices, order := map[], seq(16, _ => 0), [];
    }

    /** transcribe: the instance of the template, for any lengths, unless a variable
        past its end is met, where the source has an assertion.  More renamings would
        not change it: every identifier that it inserts has been wrapped. */
    method Transcribe(t: Tmpl, sub: seq<Binding>) returns (form: Form)
      requires WfTmpl(t, 0) && Deep(t, Lives(sub), 0) && !Runs(t, Lives(sub), 0).Fails?
      modifies this
      ensures Valid() && form == Inst(t, Lives(sub), 0, fvars)
      ensures forall ren: map<Ident, Ident> :: Extends(fvars, ren) ==> form == Inst(t, Lives(sub), 0, ren)
    {
      fvars, indices, order := map[], seq(16, _ => 0), [];
      forall v | v in Vars(t) ensures v.0 < |sub| { assert Fits(v, Lives(sub), 0); }
      assert Reads(t, sub, indices, 0, Lives(sub));
      if Runs(t, Lives(sub), 0).Stops? { ghost var v := StopsAtEnded(t, Lives(sub), 0); }
      var r := TranscribeRec(t, sub, 0, Lives(sub));
      assert Extends(fvars, fvars);
      form := r.form;
    }

    method TranscribeRec(t: Tmpl, sub: seq<Binding>, level: nat, ghost ss: seq<State>) returns (r: Ret)
      requires Valid() && Item(t, level) && Reads(t, sub, indices, level, ss) && !Runs(t, ss, level).Fails?
      modifies this
      ensures Valid() && |indices| >= |old(indices)| && indices[..level] == old(indices)[..level] &&
        Extends(old(fvars), fvars)
      ensures Answers(t, ss, level, fvars, r)
      decreases t, 2
    {
      hide Numbered, Reads;
      ReadsParts(t, sub, indices, level, ss);
      match t {
        case TPair(_, _) =>
          var stop, q, rest := TranscribeItems(t, sub, level, ss);
          if stop.Some? { return Exhausted(stop.value); }
          if rest.TNil? { return Replace(Prepend(q, FNil)); }
          var last := TranscribeRec(rest, sub, level, ss);
          if last.Exhausted? { return last; }
          r := Replace(Prepend(q, last.form));
        case TVec(items) =>
          var stop, q, rest := TranscribeItems(items, sub, level, ss);
          if stop.Some? { return Exhausted(stop.value); }
          r := Replace(FVec(Prepend(q, FNil)));
        case TVar(i, l) => r := Reference(i, l, sub, level, ss);
        case TRep(q) => r := TranscribeReppat(q, sub, level, ss);
        case TId(x) =>
          Wrap(x);
          r := Replace(FId(fvars[x]));
        case TNil => r := Replace(FNil);
        case TAtom(v) => r := Replace(FAtom(v));
      }
    }

    /** An identifier that is not a pattern variable is wrapped when first met. */
    method Wrap(x: Ident)
      requires Valid()
      modifies this`fvars, this`order
      ensures Valid() && Extends(old(fvars), fvars) && x in fvars
    {
      if x !in fvars {
        assert x !in order;
        fvars, order := fvars[x := wrap(x, |fvars|)], order + [x];
      }
    }

    /** A pattern variable: the binding that the indices select. */
    method Reference(index: nat, plevel: nat, sub: seq<Binding>, level: nat, ghost ss: seq<State>) returns (r: Ret)
      requires plevel <= level && Reads(TVar(index, plevel), sub, indices, level, ss)
      requires !Runs(TVar(index, plevel), ss, level).Fails?
      ensures Answers(TVar(index, plevel), ss, level, fvars, r)
    {
      assert (index, plevel) in Vars(TVar(index, plevel)) && Fits((index, plevel), ss, level);
      var b, i := sub[index], 0;
      while i < plevel
        invariant 0 <= i <= plevel
        invariant Walk(sub[index], indices, 0, plevel) == Walk(b, indices, i, plevel)
      {
        if indices[i] == |b.items| { return Exhausted(i); }
        b, i := b.items[indices[i]], i + 1;
      }
      r := Replace(b.form);
    }

    /** The elements of a list template, up to its last cdr. */
    method TranscribeItems(t: Tmpl, sub: seq<Binding>, level: nat, ghost ss: seq<State>)
      returns (stop: Option<nat>, q: seq<Form>, rest: Tmpl)
      requires Valid() && WfTmpl(t, level) && Reads(t, sub, indices, level, ss) && !Runs(t, ss, level).Fails?
      modifies this
      ensures Valid() && |indices| >= |old(indices)| && indices[..level] == old(indices)[..level] &&
        Extends(old(fvars), fvars)
      ensures stop.Some? ==> Runs(t, ss, level) == Stops(stop.value)
      ensures stop.None? ==> !rest.TPair? && WfTmpl(rest, level) && Reads(rest, sub, indices, level, ss)
      ensures stop.None? ==> (rest == t || rest < t) && (TmplList(t) ==> rest.TNil?)
      ensures stop.None? ==> Runs(t, ss, level) == Runs(rest, ss, level)
      ensures stop.None? ==> forall ren: map<Ident, Ident> :: Extends(fvars, ren) ==>
        Inst(t, ss, level, ren) == Prepend(q, Inst(rest, ss, level, ren))
      decreases t, 1
    {
      hide Numbered, Reads;
      ReadsLevel(t, sub, indices, level, ss);
      stop, q, rest := None, [], t;
      while rest.TPair?
        invariant Valid() && |indices| >= |old(indices)| && indices[..level] == old(indices)[..level] &&
          Extends(old(fvars), fvars)
        invariant WfTmpl(rest, level) && Reads(rest, sub, indices, level, ss)
        invariant (rest == t || rest < t) && (TmplList(t) ==> TmplList(rest))
        invariant Runs(t, ss, level) == Runs(rest, ss, level)
        invariant forall ren: map<Ident, Ident> :: Extends(fvars, ren) ==>
          Inst(t, ss, level, ren) == Prepend(q, Inst(rest, ss, level, ren))
        decreases rest
      {
        ghost var idx, before, q0 := indices, fvars, q;
        ReadsParts(rest, sub, indices, level, ss);
        var r := TranscribeRec(rest.car, sub, level, ss);
        match r {
          case Exhausted(l) => return Some(l), [], TNil;
          case Replace(form) => q := q + [form];
          case Splice(forms) => q := q + forms;
        }
        forall ren: map<Ident, Ident> | Extends(fvars, ren)
          ensures Inst(t, ss, level, ren) == Prepend(q, Inst(rest.cdr, ss, level, ren))
        {
          assert Extends(before, ren);
          PrependCat(q0, q[|q0|..], Inst(rest.cdr, ss, level, ren));
          assert q == q0 + q[|q0|..];
        }
        ReadsKept(rest.cdr, sub, idx, indices, level, ss);
        rest := rest.cdr;
      }
    }

    /** transcribe_reppat */
    method TranscribeReppat(q: Tmpl, sub: seq<Binding>, level: nat, ghost ss: seq<State>) returns (r: Ret)
      requires Valid() && Item(TRep(q), level) && Reads(TRep(q), sub, indices, level, ss)
      requires !Runs(TRep(q), ss, level).Fails?
      modifies this
      ensures Valid() && |indices| >= |old(indices)| && indices[..level] == old(indices)[..level] &&
        Extends(old(fvars), fvars)
      ensures Answers(TRep(q), ss, level, fvars, r)
      decreases q, 3
    {
      hide Numbered, Reads, Times, Count, Deep, Runs, Inst, Vars, WfTmpl, Deeper, Peel;
      ReadsLevel(TRep(q), sub, indices, level, ss);
      ReadsParts(TRep(q), sub, indices, level, ss);
      ghost var idx := indices;
      ReadsLevel(q, sub, idx, level, ss);
      TimesBound(q, ss, level);
      RunsRep(q, ss, level);
      ItemParts(TRep(q), level);
      if level == |indices| { indices := indices + seq(level, _ => 0); }
      indices := indices[level := 0];
      var forms: seq<Form> := [];
      ghost var k: nat, n := 0, Times(q, ss, level);
      while true
        invariant Valid() && |indices| > level && |indices| >= |idx| && indices[..level] == idx[..level] &&
          Extends(old(fvars), fvars)
        invariant indices[level] == k <= n
        invariant forall ren: map<Ident, Ident> :: Extends(fvars, ren) ==> forms == Repeat(q, ss, level, ren, 0, k)
        decreases n - k
      {
        ReadsInner(q, sub, idx, indices, level, ss, k);
        assert Again(q, ss, level, k) <==> k < n;
        ghost var before, at := fvars, indices;
        var subret := TranscribeRec(q, sub, level + 1, Peel(ss, level, k));
        PrefixKept(at, indices, level);
        if subret.Exhausted? {
          if subret.level == level { break; }
          return subret;
        }
        forms := forms + [subret.form];
        forall ren: map<Ident, Ident> | Extends(fvars, ren) ensures forms == Repeat(q, ss, level, ren, 0, k + 1) {
          assert Extends(before, ren);
          RepeatSnoc(q, ss, level, ren, 0, k);
        }
        indices := indices[level := indices[level] + 1];
        k := k + 1;
      }
      r := Splice(forms);
    }
  }
}
