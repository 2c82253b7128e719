/** Compiled templates (src/macro.c) and their recursive instantiation. */
module Templates {
  import opened Forms
  import opened Patterns

  /** TVar refers to binding `index` of the match; `level` is the number of
      ellipses over the variable in the pattern. */
  datatype Tmpl =
    | TNil
    | TPair(car: Tmpl, cdr: Tmpl)
    | TVec(items: Tmpl)
    | TId(id: Ident)
    | TAtom(val: int)
    | TVar(index: nat, level: nat)
    | TRep(tmpl: Tmpl)

  /** The variable references (index, level) in a template. */
  function Vars(t: Tmpl): set<(nat, nat)> {
    match t
    case TPair(a, d) => Vars(a) + Vars(d)
    case TVec(items) => Vars(items)
    case TVar(i, l) => {(i, l)}
    case TRep(q) => Vars(q)
    case _ => {}
  }

  predicate Deeper(t: Tmpl, d: nat) {
    exists v :: v in Vars(t) && v.1 > d
  }

  /** Templates as the compiler makes them, under d ellipses: a variable is used
      under at least as many ellipses as in the pattern, and every repeatable
      subtemplate has a variable that controls the repetition. */
  predicate WfTmpl(t: Tmpl, d: nat) {
    match t
    case TPair(a, r) => (if a.TRep? then WfTmpl(a.tmpl, d + 1) && Deeper(a.tmpl, d) else WfTmpl(a, d)) && WfTmpl(r, d)
    case TVec(items) => TmplList(items) && WfTmpl(items, d)
    case TVar(_, l) => l <= d
    case TRep(_) => false
    case _ => true
  }

  predicate TmplList(t: Tmpl) {
    t.TNil? || (t.TPair? && TmplList(t.cdr))
  }

  /* ---- Variables under ellipses ---- */

  /** Lists of lists, n deep, of forms. */
  ghost predicate Nested(b: Binding, n: nat) {
    if n == 0 then b.One? else b.Many? && forall i :: 0 <= i < |b.items| ==> Nested(b.items[i], n - 1)
  }

  /** What the repetitions so far have left of a variable: a binding; that the
      ellipsis at some level is one past its end; or that one is further past it. */
  datatype State = Live(binding: Binding) | Ended(level: nat) | Past

  /** In repetition k of an ellipsis under d others. */
  function Step(s: State, d: nat, k: nat): State {
    if s.Live? && s.binding.Many? then
      if k < |s.binding.items| then Live(s.binding.items[k])
      else if k == |s.binding.items| then Ended(d) else Past
    else s
  }

  function Peel(ss: seq<State>, d: nat, k: nat): (r: seq<State>)
    ensures |r| == |ss|
  {
    seq(|ss|, v requires 0 <= v < |ss| => Step(ss[v], d, k))
  }

  function Of(ss: seq<State>, i: nat): State { if i < |ss| then ss[i] else Past }

  function Lives(bs: seq<Binding>): seq<State> {
    seq(|bs|, v requires 0 <= v < |bs| => Live(bs[v]))
  }

  /** Under d ellipses each variable's binding is nested as deep as it is still to
      be repeated, and no ellipsis that has ended is further in. */
  ghost predicate Fits(v: (nat, nat), ss: seq<State>, d: nat) {
    v.0 < |ss| &&
    match Of(ss, v.0)
    case Live(b) => Nested(b, if v.1 > d then v.1 - d else 0)
    case Ended(g) => g < d
    case Past => true
  }

  ghost predicate Deep(t: Tmpl, ss: seq<State>, d: nat) {
    forall v :: v in Vars(t) ==> Fits(v, ss, d)
  }

  /* ---- Instantiation ---- */

  /** Whether a template is instantiated, from left to right, or an ended variable is
      met first, or one that is past its end, where the source has an assertion. */
  datatype Progress = Done | Stops(level: nat) | Fails

  function Runs(t: Tmpl, ss: seq<State>, d: nat): Progress
    decreases t, 0, 0
  {
    match t
    case TVar(i, _) =>
      var s := Of(ss, i);
      if s.Live? && s.binding.One? then Done else if s.Ended? then Stops(s.level) else Fails
    case TPair(a, r) => var p := Runs(a, ss, d); if p.Done? then Runs(r, ss, d) else p
    case TVec(items) => Runs(items, ss, d)
    case TRep(q) => var p := Runs(q, Peel(ss, d, Times(q, ss, d)), d + 1); if p == Stops(d) then Done else p
    case _ => Done
  }

  /** How often `q` is repeated under d ellipses: until it is not instantiated. */
  function Times(q: Tmpl, ss: seq<State>, d: nat): nat
    decreases q, 2, 0
  {
    Count(q, ss, d, 0)
  }

  /** Past the end of every binding it is not. */
  function Count(q: Tmpl, ss: seq<State>, d: nat, k: nat): nat
    decreases q, 1, if k <= Longest(ss) then Longest(ss) + 1 - k else 0
  {
    if k > Longest(ss) || !Runs(q, Peel(ss, d, k), d + 1).Done? then k else Count(q, ss, d, k + 1)
  }

  function Size(s: State): nat { if s.Live? && s.binding.Many? then |s.binding.items| else 0 }

  function Longest(ss: seq<State>): nat {
    if ss == [] then 0 else var n := Longest(ss[1..]); if Size(ss[0]) > n then Size(ss[0]) else n
  }

  function Renamed(ren: map<Ident, Ident>, id: Ident): Ident {
    if id in ren then ren[id] else id
  }

  /** The template with its variables replaced by their bindings and its other
      identifiers renamed. */
  function Inst(t: Tmpl, ss: seq<State>, d: nat, ren: map<Ident, Ident>): Form
    decreases t, 0
  {
    match t
    case TNil => FNil
    case TAtom(v) => FAtom(v)
    case TId(x) => FId(Renamed(ren, x))
    case TVar(i, _) => var s := Of(ss, i); if s.Live? && s.binding.One? then s.binding.form else FNil
    case TVec(items) => FVec(Inst(items, ss, d, ren))
    case TPair(a, r) =>
      var rest := Inst(r, ss, d, ren);
      if a.TRep? then Prepend(Repeat(a.tmpl, ss, d, ren, 0, Times(a.tmpl, ss, d)), rest)
      else FPair(Inst(a, ss, d, ren), rest)
    case TRep(_) => FNil
  }

  /** The instances k, ..., n - 1 of a repeatable subtemplate. */
  function Repeat(q: Tmpl, ss: seq<State>, d: nat, ren: map<Ident, Ident>, k: nat, n: nat): (r: seq<Form>)
    requires k <= n
    ensures |r| == n - k
    decreases q, n - k
  {
    if k == n then [] else [Inst(q, Peel(ss, d, k), d + 1, ren)] + Repeat(q, ss, d, ren, k + 1, n)
  }

  lemma {:induction false} RepeatSnoc(q: Tmpl, ss: seq<State>, d: nat, ren: map<Ident, Ident>, k: nat, n: nat)
    requires k <= n
    ensures Repeat(q, ss, d, ren, k, n + 1) == Repeat(q, ss, d, ren, k, n) + [Inst(q, Peel(ss, d, n), d + 1, ren)]
    decreases n - k
  {
    if k < n { RepeatSnoc(q, ss, d, ren, k + 1, n); }
  }

  lemma {:induction false} RepeatAt(q: Tmpl, ss: seq<State>, d: nat, ren: map<Ident, Ident>, k: nat, n: nat, j: nat)
    requires k <= j < n
    ensures Repeat(q, ss, d, ren, k, n)[j - k] == Inst(q, Peel(ss, d, j), d + 1, ren)
    decreases n - k
  {
    hide Inst, Peel;
    var rest := Repeat(q, ss, d, ren, k + 1, n);
    assert Repeat(q, ss, d, ren, k, n) == [Inst(q, Peel(ss, d, k), d + 1, ren)] + rest;
    if k < j {
      RepeatAt(q, ss, d, ren, k + 1, n, j);
      assert Repeat(q, ss, d, ren, k, n)[j - k] == rest[j - (k + 1)];
    }
  }

  /* ---- How often ---- */

  lemma {:induction false} LongestIs(ss: seq<State>, i: nat)
    requires i < |ss|
    ensures Size(ss[i]) <= Longest(ss)
  {
    if i > 0 { LongestIs(ss[1..], i - 1); }
  }

  /** Repetition k is instantiated. */
  predicate Again(q: Tmpl, ss: seq<State>, d: nat, k: nat) {
    Runs(q, Peel(ss, d, k), d + 1).Done?
  }

  lemma CountNext(q: Tmpl, ss: seq<State>, d: nat, k: nat)
    ensures
      Count(q, ss, d, k) == if k > Longest(ss) || !Again(q, ss, d, k) then k else Count(q, ss, d, k + 1)
  {
  }

  lemma {:induction false} CountIs(q: Tmpl, ss: seq<State>, d: nat, k: nat)
    ensures forall j :: k <= j < Count(q, ss, d, k) ==> Again(q, ss, d, j)
    ensures
      var n := Count(q, ss, d, k);
      n >= k && (n > Longest(ss) || !Again(q, ss, d, n))
    decreases if k <= Longest(ss) then Longest(ss) + 1 - k else 0
  {
    CountNext(q, ss, d, k);
    if k <= Longest(ss) && Again(q, ss, d, k) { CountIs(q, ss, d, k + 1); }
  }

  /** The first repetition that is not instantiated says how often. */
  lemma TimesIs(q: Tmpl, ss: seq<State>, d: nat, n: nat)
    requires (forall j :: 0 <= j < n ==> Again(q, ss, d, j)) && !Again(q, ss, d, n) && n <= Longest(ss)
    ensures Times(q, ss, d) == n
  {
    CountIs(q, ss, d, 0);
  }

  lemma PeelDeep(q: Tmpl, ss: seq<State>, d: nat, k: nat)
    requires Deep(q, ss, d)
    ensures Deep(q, Peel(ss, d, k), d + 1)
  {
    forall v | v in Vars(q) ensures Fits(v, Peel(ss, d, k), d + 1) {
      assert v in Vars(TRep(q));
      assert Fits(v, ss, d);
    }
  }

  /** A template that stops has met a variable that ended there. */
  lemma {:induction false} StopsAtEnded(t: Tmpl, ss: seq<State>, d: nat) returns (v: (nat, nat))
    requires Runs(t, ss, d).Stops?
    ensures v in Vars(t) && Of(ss, v.0) == Ended(Runs(t, ss, d).level)
    decreases t
  {
    match t
    case TVar(i, l) => v := (i, l);
    case TPair(a, r) => if Runs(a, ss, d).Done? { v := StopsAtEnded(r, ss, d); } else { v := StopsAtEnded(a, ss, d); }
    case TVec(items) => v := StopsAtEnded(items, ss, d);
    case TRep(q) => v := StopsAtEnded(q, Peel(ss, d, Times(q, ss, d)), d + 1);
  }

  ghost predicate Item(t: Tmpl, d: nat) {
    if t.TRep? then WfTmpl(t.tmpl, d + 1) && Deeper(t.tmpl, d) else WfTmpl(t, d)
  }

  lemma ItemParts(t: Tmpl, d: nat)
    requires Item(t, d)
    ensures t.TPair? ==> Item(t.car, d) && Item(t.cdr, d) && !t.cdr.TRep? && Vars(t) == Vars(t.car) + Vars(t.cdr)
    ensures t.TVec? ==> Item(t.items, d) && Vars(t) == Vars(t.items)
    ensures t.TRep? ==> Item(t.tmpl, d + 1) && !t.tmpl.TRep? && Vars(t) == Vars(t.tmpl)
  {
    if t.TPair? { assert WfTmpl(t.cdr, d); }
    else if t.TVec? { assert WfTmpl(t.items, d); }
    else if t.TRep? { assert WfTmpl(t.tmpl, d + 1); }
  }

  /** Where no variable deeper than g is live, and there is one, nothing is instantiated. */
  lemma {:induction false} Stuck(t: Tmpl, ss: seq<State>, d: nat, g: nat)
    requires Item(t, d) && Deep(t, ss, d) && g < d && Deeper(t, g)
    requires forall v :: v in Vars(t) && v.1 > g ==> !Of(ss, v.0).Live?
    ensures !Runs(t, ss, d).Done?
    decreases t
  {
    ItemParts(t, d);
    match t
    case TVar(_, _) =>
    case TPair(a, r) =>
      if Deeper(a, g) { Stuck(a, ss, d, g); } else { Stuck(r, ss, d, g); }
    case TVec(items) => Stuck(items, ss, d, g);
    case TRep(q) =>
      var ends := Peel(ss, d, Times(q, ss, d));
      PeelDeep(q, ss, d, Times(q, ss, d));
      Stuck(q, ends, d + 1, g);
      forall v | v in Vars(q) ensures Of(ends, v.0) != Ended(d) { assert Fits(v, ss, d); }
      if Runs(q, ends, d + 1).Stops? { var v := StopsAtEnded(q, ends, d + 1); }
  }

  /** The repetitions end. */
  lemma TimesBound(q: Tmpl, ss: seq<State>, d: nat)
    requires Item(TRep(q), d) && Deep(q, ss, d)
    ensures Times(q, ss, d) <= Longest(ss)
    ensures (forall j :: 0 <= j < Times(q, ss, d) ==> Again(q, ss, d, j)) && !Again(q, ss, d, Times(q, ss, d))
  {
    CountIs(q, ss, d, 0);
    var n := Longest(ss);
    forall v | v in Vars(q) && v.1 > d ensures !Of(Peel(ss, d, n), v.0).Live? {
      assert Fits(v, ss, d);
      LongestIs(ss, v.0);
    }
    PeelDeep(q, ss, d, n);
    Stuck(q, Peel(ss, d, n), d + 1, d);
    assert !Again(q, ss, d, n);
  }

  /** When exactly the variables deeper than g have ended, and at g, a template stops
      there if it has one, and else is instantiated. */
  lemma {:induction false} EndedTogether(t: Tmpl, ss: seq<State>, d: nat, g: nat)
    requires Item(t, d) && g < d
    requires forall v :: v in Vars(t) ==>
      if v.1 > g then Of(ss, v.0) == Ended(g) else Of(ss, v.0).Live? && Of(ss, v.0).binding.One?
    ensures Runs(t, ss, d) == if Deeper(t, g) then Stops(g) else Done
    decreases t
  {
    ItemParts(t, d);
    match t
    case TPair(a, r) => EndedTogether(a, ss, d, g); EndedTogether(r, ss, d, g);
    case TVec(items) => EndedTogether(items, ss, d, g);
    case TRep(q) =>
      var v :| v in Vars(q) && v.1 > d;
      assert v in Vars(t) && Deeper(t, g) && Deeper(q, g);
      EndedTogether(q, Peel(ss, d, 0), d + 1, g);
      CountIs(q, ss, d, 0);
    case TVar(i, l) => assert (i, l) in Vars(t);
    case _ =>
  }

  /* ---- Which lengths decide ---- */

  /** The variables that are not under an ellipsis of the template. */
  function Direct(t: Tmpl): set<(nat, nat)> {
    match t
    case TPair(a, d) => Direct(a) + Direct(d)
    case TVec(items) => Direct(items)
    case TVar(i, l) => {(i, l)}
    case _ => {}
  }

  lemma {:induction false} DirectLive(t: Tmpl, ss: seq<State>, d: nat, v: (nat, nat))
    requires Runs(t, ss, d).Done? && v in Direct(t)
    ensures v in Vars(t) && Of(ss, v.0).Live?
    decreases t
  {
    match t
    case TPair(a, r) => if v in Direct(a) { DirectLive(a, ss, d, v); } else { DirectLive(r, ss, d, v); }
    case TVec(items) => DirectLive(items, ss, d, v);
    case _ =>
  }

  lemma {:induction false} DirectVars(t: Tmpl)
    ensures Direct(t) <= Vars(t)
  {
    match t
    case TPair(a, r) => DirectVars(a); DirectVars(r);
    case TVec(items) => DirectVars(items);
    case _ =>
  }

  lemma DirectBound(q: Tmpl, ss: seq<State>, d: nat, v: (nat, nat))
    requires Item(TRep(q), d) && Deep(q, ss, d) && v in Direct(q) && Of(ss, v.0).Live? && Of(ss, v.0).binding.Many?
    ensures Times(q, ss, d) <= Size(Of(ss, v.0))
  {
    TimesBound(q, ss, d);
    var m := Size(Of(ss, v.0));
    if Again(q, ss, d, m) { DirectLive(q, Peel(ss, d, m), d + 1, v); }
  }

  /** The repetitions are as many as one of the repeated variables has, and no
      variable that is not under another ellipsis has fewer: if the shortest is one
      of those, they are as many as it has, whatever the other lengths are. */
  lemma TimesIsShortest(q: Tmpl, ss: seq<State>, d: nat)
    requires Item(TRep(q), d) && Deep(q, ss, d) && Runs(TRep(q), ss, d).Done?
    ensures exists v :: v in Vars(q) && v.1 > d && Of(ss, v.0).Live? && Times(q, ss, d) == Size(Of(ss, v.0))
    ensures forall v :: v in Direct(q) && v.1 > d && Of(ss, v.0).Live? ==> Times(q, ss, d) <= Size(Of(ss, v.0))
  {
    var n := Times(q, ss, d);
    TimesBound(q, ss, d);
    var v := StopsAtEnded(q, Peel(ss, d, n), d + 1);
    assert Fits(v, ss, d);
    forall w | w in Direct(q) && w.1 > d && Of(ss, w.0).Live? ensures n <= Size(Of(ss, w.0)) {
      DirectVars(q);
      assert Fits(w, ss, d);
      DirectBound(q, ss, d, w);
    }
  }

  /** No ellipsis is under an ellipsis. */
  predicate Flat(t: Tmpl) {
    match t
    case TPair(a, r) => (if a.TRep? then Plain(a.tmpl) else Flat(a)) && Flat(r)
    case TVec(items) => Flat(items)
    case _ => true
  }

  predicate Plain(t: Tmpl) {
    match t
    case TPair(a, r) => Plain(a) && Plain(r)
    case TVec(items) => Plain(items)
    case TRep(_) => false
    case _ => true
  }

  lemma {:induction false} PlainDirect(t: Tmpl)
    requires Plain(t)
    ensures Direct(t) == Vars(t)
  {
    match t
    case TPair(a, r) => PlainDirect(a); PlainDirect(r);
    case TVec(items) => PlainDirect(items);
    case _ =>
  }

  lemma {:induction false} PlainRuns(t: Tmpl, ss: seq<State>, d: nat)
    requires Plain(t)
    requires forall v :: v in Vars(t) ==> (Of(ss, v.0).Ended? || (Of(ss, v.0).Live? && Of(ss, v.0).binding.One?))
    ensures !Runs(t, ss, d).Fails?
    decreases t
  {
    match t
    case TPair(a, r) => PlainRuns(a, ss, d); PlainRuns(r, ss, d);
    case TVec(items) => PlainRuns(items, ss, d);
    case TVar(i, l) => assert (i, l) in Vars(t);
    case _ =>
  }

  /** An ellipsis without another under it ends with its shortest variable, for any
      lengths. */
  lemma PlainTimes(q: Tmpl, ss: seq<State>, d: nat)
    requires Item(TRep(q), d) && Plain(q) && Deep(q, ss, d) && forall v :: v in Vars(q) ==> Of(ss, v.0).Live?
    requires forall v :: v in Vars(q) ==> v.1 <= d + 1
    ensures Runs(TRep(q), ss, d).Done?
    ensures forall v :: v in Vars(q) && v.1 > d ==> Times(q, ss, d) <= Size(Of(ss, v.0))
    ensures exists v :: v in Vars(q) && v.1 > d && Times(q, ss, d) == Size(Of(ss, v.0))
  {
    var n := Times(q, ss, d);
    var ends := Peel(ss, d, n);
    TimesBound(q, ss, d);
    PlainDirect(q);
    forall v | v in Vars(q) ensures Fits(v, ss, d) && (v.1 > d ==> n <= Size(Of(ss, v.0))) {
      assert v in Vars(TRep(q));
      if v.1 > d { DirectBound(q, ss, d, v); }
    }
    forall v | v in Vars(q) ensures Of(ends, v.0).Ended? || (Of(ends, v.0).Live? && Of(ends, v.0).binding.One?) {
      assert Fits(v, ss, d);
      var b := Of(ss, v.0).binding;
      if v.1 > d && n < |b.items| { assert Nested(b.items[n], 0); }
    }
    PlainRuns(q, ends, d + 1);
    var v := StopsAtEnded(q, ends, d + 1);
    assert Fits(v, ss, d);
    TimesIsShortest(q, ss, d);
  }

  /** So no lengths make a flat template fail. */
  lemma {:induction false} FlatRuns(t: Tmpl, ss: seq<State>)
    requires WfTmpl(t, 0) && Flat(t) && Deep(t, ss, 0) && forall v :: v in Vars(t) ==> Of(ss, v.0).Live?
    ensures Runs(t, ss, 0).Done?
    decreases t
  {
    ItemParts(t, 0);
    match t
    case TPair(a, r) =>
      if a.TRep? {
        assert Vars(a) == Vars(a.tmpl);
        PlainLevels(a.tmpl, 1);
        PlainTimes(a.tmpl, ss, 0);
      } else {
        FlatRuns(a, ss);
      }
      FlatRuns(r, ss);
    case TVec(items) => FlatRuns(items, ss);
    case TVar(i, l) => assert Fits((i, l), ss, 0);
    case _ =>
  }

  lemma {:induction false} PlainLevels(t: Tmpl, d: nat)
    requires WfTmpl(t, d) && Plain(t)
    ensures forall v :: v in Vars(t) ==> v.1 <= d
  {
    match t
    case TPair(a, r) => PlainLevels(a, d); PlainLevels(r, d);
    case TVec(items) => PlainLevels(items, d);
    case _ =>
  }

  /** Under two ellipses: x has an empty list and a list of one, y has nothing.  The
      first repetition ends before it looks at y, and the second finds y past its end. */
  lemma InnerHidesEnd()
    ensures
      var q := TPair(TRep(TPair(TVar(0, 2), TPair(TVar(1, 1), TNil))), TNil);
      var ss := Lives([Many([Many([]), Many([One(FNil)])]), Many([])]);
      WfTmpl(TPair(TRep(q), TNil), 0) && Deep(q, ss, 0) && Runs(TRep(q), ss, 0).Fails?
  {
    hide Runs, WfTmpl, Deep, Longest;
    var q := TPair(TRep(TPair(TVar(0, 2), TPair(TVar(1, 1), TNil))), TNil);
    var ss := Lives([Many([Many([]), Many([One(FNil)])]), Many([])]);
    var s0, s1 := [Live(Many([])), Ended(0)], [Live(Many([One(FNil)])), Past];
    InnerFits();
    assert Peel(s0, 1, 0) == [Ended(1), Ended(0)] && Peel(s1, 1, 0) == [Live(One(FNil)), Past];
    InnerRuns(s0, Stops(1));
    InnerRuns(s1, Fails);
    assert Peel(ss, 0, 0) == s0 && Peel(ss, 0, 1) == s1;
    LongestIs(ss, 0);
    TimesIs(q, ss, 0, 1);
    RunsRep(q, ss, 0);
  }

  lemma RunsRep(q: Tmpl, ss: seq<State>, d: nat)
    ensures
      var p := Runs(q, Peel(ss, d, Times(q, ss, d)), d + 1);
      Runs(TRep(q), ss, d) == if p == Stops(d) then Done else p
  {
  }

  lemma InnerFits()
    ensures
      var q := TPair(TRep(TPair(TVar(0, 2), TPair(TVar(1, 1), TNil))), TNil);
      WfTmpl(TPair(TRep(q), TNil), 0) && Deep(q, Lives([Many([Many([]), Many([One(FNil)])]), Many([])]), 0)
  {
    var inner := TPair(TVar(0, 2), TPair(TVar(1, 1), TNil));
    var q := TPair(TRep(inner), TNil);
    assert Vars(q) == Vars(inner) == {(0, 2), (1, 1)};
    assert (0, 2) in Vars(inner) && (0, 2) in Vars(q);
    assert Nested(One(FNil), 0) && Nested(Many([]), 1) && Nested(Many([One(FNil)]), 1);
  }

  lemma InnerRuns(ss: seq<State>, p: Progress)
    requires |ss| == 2
    requires
      var at := Peel(ss, 1, 0);
      (p == Stops(1) && at[0] == Ended(1)) ||
      (p == Fails && at[0].Live? && at[0].binding.One? && at[1] == Past)
    ensures
      Runs(TPair(TRep(TPair(TVar(0, 2), TPair(TVar(1, 1), TNil))), TNil), ss, 1) == if p == Stops(1) then Done else p
  {
    var inner := TPair(TVar(0, 2), TPair(TVar(1, 1), TNil));
    assert Runs(inner, Peel(ss, 1, 0), 2) == p;
    TimesIs(inner, ss, 1, 0);
    RunsRep(inner, ss, 1);
  }
}
