/** Compiled patterns (src/macro.c) and what it means for a form to match one:
    a declarative relation, and the deterministic function the matcher computes. */
module Patterns {
  import opened Forms

  /** A compiled pattern.  PVar is the pattern variable marker; PRep is a
      repeatable subpattern with the number of variables inside it. */
  datatype Pat =
    | PNil
    | PPair(car: Pat, cdr: Pat)
    | PVec(items: Pat)
    | PId(id: Ident)
    | PAtom(val: int)
    | PVar
    | PRep(pat: Pat, pvcount: nat)

  /** What a pattern variable is bound to: a form, or at a level below an
      ellipsis the list of bindings, one for each repetition. */
  datatype Binding = One(form: Form) | Many(items: seq<Binding>)

  function PvCount(p: Pat): nat {
    match p
    case PPair(a, d) => PvCount(a) + PvCount(d)
    case PVec(items) => PvCount(items)
    case PVar => 1
    case PRep(q, _) => PvCount(q)
    case _ => 0
  }

  function PatPairs(p: Pat): nat {
    if p.PPair? then 1 + PatPairs(p.cdr) else 0
  }

  /** No repeatable subpattern on the spine of `p`. */
  predicate NoRep(p: Pat) {
    p.PPair? ==> !p.car.PRep? && NoRep(p.cdr)
  }

  predicate PatList(p: Pat) {
    p.PNil? || (p.PPair? && PatList(p.cdr))
  }

  /** Patterns as the compiler makes them: a repeatable subpattern is an
      element of a list or the last element of a vector, at most one a list. */
  predicate Wf(p: Pat) {
    match p
    case PPair(a, d) =>
      Wf(d) && if a.PRep? then Wf(a.pat) && a.pvcount == PvCount(a.pat) && NoRep(d) else Wf(a)
    case PVec(items) => Wf(items) && PatList(items) && RepLast(items)
    case PRep(_, _) => false
    case _ => true
  }

  predicate RepLast(p: Pat) {
    p.PPair? ==> (p.car.PRep? ==> p.cdr.PNil?) && RepLast(p.cdr)
  }

  /** Column j of a table of bindings, as the binding of variable j. */
  function Column(rows: seq<seq<Binding>>, j: nat): Binding
    requires forall i :: 0 <= i < |rows| ==> j < |rows[i]|
  {
    Many(seq(|rows|, i requires 0 <= i < |rows| => rows[i][j]))
  }

  function Transpose(rows: seq<seq<Binding>>, w: nat): (r: seq<Binding>)
    requires forall i :: 0 <= i < |rows| ==> |rows[i]| == w
    ensures |r| == w
  {
    seq(w, j requires 0 <= j < w => Column(rows, j))
  }

  function Cat(o: Option<seq<Binding>>, acc: seq<Binding>): Option<seq<Binding>> {
    if o.None? then None else Some(o.value + acc)
  }

  /** The bindings of a match, in the order of ctx->sub: the variable met last
      comes first. */
  function MatchSpec(same: (Ident, Ident) -> bool, p: Pat, f: Form): (r: Option<seq<Binding>>)
    ensures r.Some? ==> |r.value| == PvCount(p)
    decreases p, 0
  {
    match p
    case PVar => Some([One(f)])
    case PNil => if f.FNil? then Some([]) else None
    case PAtom(v) => if f == FAtom(v) then Some([]) else None
    case PId(x) => if f.FId? && same(x, f.id) then Some([]) else None
    case PVec(items) => if f.FVec? then MatchSpec(same, items, f.items) else None
    case PRep(q, _) => None
    case PPair(a, d) =>
      if a.PRep? then
        var n := CountPairs(f) - PatPairs(d);
        if n < 0 then None else
        var rows := MatchRows(same, a.pat, f, n);
        if rows.None? then None else
        Cat(MatchSpec(same, d, Tail(f, n)), Transpose(rows.value, PvCount(a.pat)))
      else if !f.FPair? then None else
      var ba := MatchSpec(same, a, f.car);
      if ba.None? then None else Cat(MatchSpec(same, d, f.cdr), ba.value)
  }

  /** The bindings of the first n elements of `f`, one row for each. */
  function MatchRows(same: (Ident, Ident) -> bool, q: Pat, f: Form, n: nat): (r: Option<seq<seq<Binding>>>)
    requires n <= CountPairs(f)
    ensures r.Some? ==> |r.value| == n && forall i :: 0 <= i < n ==> |r.value[i]| == PvCount(q)
    decreases q, n
  {
    if n == 0 then Some([]) else
    var b := MatchSpec(same, q, f.car);
    if b.None? then None else
    var rest := MatchRows(same, q, f.cdr, n - 1);
    if rest.None? then None else Some([b.value] + rest.value)
  }

  /** `f` matches `p` with the bindings `bs`, as section 4.3.2 of R7RS says it:
      an ellipsis takes some elements `es` of the form, each of which matches,
      and leaves a rest with exactly as many pairs as there are patterns after
      the ellipsis. */
  ghost predicate Rel(same: (Ident, Ident) -> bool, p: Pat, f: Form, bs: seq<Binding>)
    decreases p, 0
  {
    match p
    case PVar => bs == [One(f)]
    case PNil => f.FNil? && bs == []
    case PAtom(v) => f == FAtom(v) && bs == []
    case PId(x) => f.FId? && same(x, f.id) && bs == []
    case PVec(items) => f.FVec? && Rel(same, items, f.items, bs)
    case PRep(_, _) => false
    case PPair(a, d) =>
      if a.PRep? then
        exists es: seq<Form>, r: Form, rows: seq<seq<Binding>>, bt: seq<Binding> ::
          Split(f, es, r, d) && RelRows(same, a.pat, es, rows) && Rel(same, d, r, bt) &&
          bs == bt + Transpose(rows, PvCount(a.pat))
      else
        f.FPair? && exists ba: seq<Binding>, bd: seq<Binding> ::
          Rel(same, a, f.car, ba) && Rel(same, d, f.cdr, bd) && bs == bd + ba
  }

  ghost predicate RelRows(same: (Ident, Ident) -> bool, q: Pat, es: seq<Form>, rows: seq<seq<Binding>>)
    decreases q, 1
  {
    |rows| == |es| &&
    forall i :: 0 <= i < |es| ==> |rows[i]| == PvCount(q) && Rel(same, q, es[i], rows[i])
  }

  ghost predicate Split(f: Form, es: seq<Form>, r: Form, tail: Pat) {
    f == Prepend(es, r) && CountPairs(r) == PatPairs(tail)
  }

  /** The function is the relation: a form matches iff the function gives
      bindings, and they are the only ones the relation allows. */
  lemma {:induction false} MatchIsRelation(same: (Ident, Ident) -> bool, p: Pat, f: Form, bs: seq<Binding>)
    ensures Rel(same, p, f, bs) <==> MatchSpec(same, p, f) == Some(bs)
    decreases p, 1
  {
    match p {
      case PVec(items) => if f.FVec? { MatchIsRelation(same, items, f.items, bs); }
      case PPair(a, d) =>
        if a.PRep? {
          if Rel(same, p, f, bs) { RepComplete(same, p, f, bs); }
          if MatchSpec(same, p, f) == Some(bs) { RepSound(same, p, f, bs); }
        } else if f.FPair? {
          PairIsRelation(same, a, d, f, bs);
        }
      case _ =>
    }
  }

  lemma {:induction false} PairIsRelation(same: (Ident, Ident) -> bool, a: Pat, d: Pat, f: Form, bs: seq<Binding>)
    requires !a.PRep? && f.FPair?
    ensures Rel(same, PPair(a, d), f, bs) <==> MatchSpec(same, PPair(a, d), f) == Some(bs)
    decreases PPair(a, d), 0
  {
    if Rel(same, PPair(a, d), f, bs) {
      var ba: seq<Binding>, bd: seq<Binding> :|
        Rel(same, a, f.car, ba) && Rel(same, d, f.cdr, bd) && bs == bd + ba;
      MatchIsRelation(same, a, f.car, ba);
      MatchIsRelation(same, d, f.cdr, bd);
    }
    if MatchSpec(same, PPair(a, d), f) == Some(bs) {
      var ba, bd := MatchSpec(same, a, f.car).value, MatchSpec(same, d, f.cdr).value;
      MatchIsRelation(same, a, f.car, ba);
      MatchIsRelation(same, d, f.cdr, bd);
      assert Rel(same, a, f.car, ba) && Rel(same, d, f.cdr, bd) && bs == bd + ba;
    }
  }

  lemma {:induction false} RepComplete(same: (Ident, Ident) -> bool, p: Pat, f: Form, bs: seq<Binding>)
    requires p.PPair? && p.car.PRep? && Rel(same, p, f, bs)
    ensures MatchSpec(same, p, f) == Some(bs)
    decreases p, 0
  {
    var q, tail := p.car.pat, p.cdr;
    var es: seq<Form>, r: Form, rows: seq<seq<Binding>>, bt: seq<Binding> :|
      Split(f, es, r, tail) && RelRows(same, q, es, rows) && Rel(same, tail, r, bt) &&
      bs == bt + Transpose(rows, PvCount(q));
    PrependPairs(es, r);
    MatchIsRelation(same, tail, r, bt);
    forall i | 0 <= i < |es| ensures MatchSpec(same, q, es[i]) == Some(rows[i]) {
      MatchIsRelation(same, q, es[i], rows[i]);
    }
    RowsOf(same, q, es, r, rows);
  }

  lemma {:induction false} RowsOf(same: (Ident, Ident) -> bool, q: Pat, es: seq<Form>, r: Form, rows: seq<seq<Binding>>)
    requires |rows| == |es|
    requires forall i :: 0 <= i < |es| ==> MatchSpec(same, q, es[i]) == Some(rows[i])
    ensures |es| <= CountPairs(Prepend(es, r))
    ensures MatchRows(same, q, Prepend(es, r), |es|) == Some(rows)
  {
    PrependPairs(es, r);
    if es != [] {
      RowsOf(same, q, es[1..], r, rows[1..]);
      assert rows == [rows[0]] + rows[1..];
    }
  }

  lemma {:induction false} RepSound(same: (Ident, Ident) -> bool, p: Pat, f: Form, bs: seq<Binding>)
    requires p.PPair? && p.car.PRep? && MatchSpec(same, p, f) == Some(bs)
    ensures Rel(same, p, f, bs)
    decreases p, 0
  {
    var q, tail := p.car.pat, p.cdr;
    var n := CountPairs(f) - PatPairs(tail);
    var rows := MatchRows(same, q, f, n).value;
    var es := FirstRows(same, q, f, n);
    var r := Tail(f, n);
    var bt := MatchSpec(same, tail, r).value;
    PrependPairs(es, r);
    MatchIsRelation(same, tail, r, bt);
    forall i | 0 <= i < |es| ensures Rel(same, q, es[i], rows[i]) {
      MatchIsRelation(same, q, es[i], rows[i]);
    }
    assert Split(f, es, r, tail) && RelRows(same, q, es, rows);
  }

  /** The elements behind the rows of a successful MatchRows. */
  lemma {:induction false} FirstRows(same: (Ident, Ident) -> bool, q: Pat, f: Form, n: nat) returns (es: seq<Form>)
    requires n <= CountPairs(f) && MatchRows(same, q, f, n).Some?
    ensures |es| == n && f == Prepend(es, Tail(f, n))
    ensures forall i :: 0 <= i < n ==> MatchSpec(same, q, es[i]) == Some(MatchRows(same, q, f, n).value[i])
    decreases n
  {
    if n == 0 {
      es := [];
    } else {
      var rest := FirstRows(same, q, f.cdr, n - 1);
      es := [f.car] + rest;
      var rows := MatchRows(same, q, f, n).value;
      assert rows[0] == MatchSpec(same, q, f.car).value;
      assert forall i :: 0 < i < n ==> rows[i] == MatchRows(same, q, f.cdr, n - 1).value[i - 1];
    }
  }

  /** MatchSpec on (reppat <ellipsis> . tail), unfolded once. */
  lemma RepSpec(same: (Ident, Ident) -> bool, arg: Pat, f: Form)
    requires arg.PPair? && arg.car.PRep?
    ensures
      var n := CountPairs(f) - PatPairs(arg.cdr);
      MatchSpec(same, arg, f) ==
      if n < 0 || MatchRows(same, arg.car.pat, f, n).None? then None
      else Cat(MatchSpec(same, arg.cdr, Tail(f, n)),
               Transpose(MatchRows(same, arg.car.pat, f, n).value, PvCount(arg.car.pat)))
  {}

  /** MatchSpec on a pair without ellipsis, unfolded once. */
  lemma PairSpec(same: (Ident, Ident) -> bool, p: Pat, f: Form)
    requires p.PPair? && !p.car.PRep?
    ensures MatchSpec(same, p, f) ==
      if !f.FPair? || MatchSpec(same, p.car, f.car).None? then None
      else Cat(MatchSpec(same, p.cdr, f.cdr), MatchSpec(same, p.car, f.car).value)
  {}

  /* ---- Comparisons that fail with an error ---- */

  /** Literals match the identifiers that compare as equal. */
  function Agrees(cmp: (Ident, Ident) -> Verdict): (Ident, Ident) -> bool {
    (x: Ident, y: Ident) => cmp(x, y) == Yes
  }

  predicate EndsInRep(p: Pat) {
    p.PPair? && (p.car.PRep? || EndsInRep(p.cdr))
  }

  /** The lengths of a vector are compared before its elements. */
  predicate FitsVector(items: Pat, len: nat) {
    if EndsInRep(items) then len >= PatPairs(items) - 1 else len == PatPairs(items)
  }

  /** The verdict of match_rec: from left to right, the first mismatch or error. */
  function Judge(cmp: (Ident, Ident) -> Verdict, p: Pat, f: Form): Verdict
    decreases p, 0
  {
    match p
    case PVar => Yes
    case PNil => if f.FNil? then Yes else No
    case PAtom(v) => if f == FAtom(v) then Yes else No
    case PId(x) => if f.FId? then cmp(x, f.id) else No
    case PVec(items) => if f.FVec? && FitsVector(items, CountPairs(f.items)) then Judge(cmp, items, f.items) else No
    case PRep(q, _) => No
    case PPair(a, d) =>
      if a.PRep? then
        var n := CountPairs(f) - PatPairs(d);
        if n < 0 then No else
        var v := JudgeRows(cmp, a.pat, f, n);
        if v != Yes then v else Judge(cmp, d, Tail(f, n))
      else if !f.FPair? then No else
      var v := Judge(cmp, a, f.car);
      if v != Yes then v else Judge(cmp, d, f.cdr)
  }

  function JudgeRows(cmp: (Ident, Ident) -> Verdict, q: Pat, f: Form, n: nat): Verdict
    requires n <= CountPairs(f)
    decreases q, n
  {
    if n == 0 then Yes else
    var v := Judge(cmp, q, f.car);
    if v != Yes then v else JudgeRows(cmp, q, f.cdr, n - 1)
  }

  /** A form matches iff that is Yes. */
  lemma {:induction false} JudgeIsMatch(cmp: (Ident, Ident) -> Verdict, p: Pat, f: Form)
    requires Wf(p)
    ensures Judge(cmp, p, f) == Yes <==> MatchSpec(Agrees(cmp), p, f).Some?
    decreases p, 0
  {
    match p
    case PVec(items) =>
      if f.FVec? {
        JudgeIsMatch(cmp, items, f.items);
        VectorFits(Agrees(cmp), items, f.items);
      }
    case PPair(a, d) =>
      if a.PRep? {
        var n := CountPairs(f) - PatPairs(d);
        if n >= 0 {
          JudgeRowsIsMatch(cmp, a.pat, f, n);
          JudgeIsMatch(cmp, d, Tail(f, n));
        }
      } else if f.FPair? {
        JudgeIsMatch(cmp, a, f.car);
        JudgeIsMatch(cmp, d, f.cdr);
      }
    case _ =>
  }

  lemma {:induction false} JudgeRowsIsMatch(cmp: (Ident, Ident) -> Verdict, q: Pat, f: Form, n: nat)
    requires Wf(q) && n <= CountPairs(f)
    ensures JudgeRows(cmp, q, f, n) == Yes <==> MatchRows(Agrees(cmp), q, f, n).Some?
    decreases q, n
  {
    if n > 0 {
      JudgeIsMatch(cmp, q, f.car);
      JudgeRowsIsMatch(cmp, q, f.cdr, n - 1);
    }
  }

  /** A vector matches only if the lengths agree, up to the ellipsis. */
  lemma {:induction false} VectorFits(same: (Ident, Ident) -> bool, p: Pat, f: Form)
    requires PatList(p) && RepLast(p)
    ensures MatchSpec(same, p, f).Some? ==> FitsVector(p, CountPairs(f))
    decreases p
  {
    if p.PPair? && !p.car.PRep? && f.FPair? { VectorFits(same, p.cdr, f.cdr); }
  }

  /** The literals of a pattern and the identifiers of a form. */
  function Literals(p: Pat): set<Ident> {
    match p
    case PId(x) => {x}
    case PPair(a, d) => Literals(a) + Literals(d)
    case PVec(items) => Literals(items)
    case PRep(q, _) => Literals(q)
    case _ => {}
  }

  function Idents(f: Form): set<Ident> {
    match f
    case FId(y) => {y}
    case FPair(a, d) => Idents(a) + Idents(d)
    case FVec(items) => Idents(items)
    case _ => {}
  }

  /** An error comes from comparing a literal with an identifier of the form. */
  lemma {:induction false} StrayComparison(cmp: (Ident, Ident) -> Verdict, p: Pat, f: Form)
    returns (x: Ident, y: Ident)
    requires Judge(cmp, p, f) == Stray
    ensures x in Literals(p) && y in Idents(f) && cmp(x, y) == Stray
    decreases p, 0
  {
    match p
    case PId(z) => x, y := z, f.id;
    case PVec(items) => x, y := StrayComparison(cmp, items, f.items);
    case PPair(a, d) =>
      if a.PRep? {
        var n := CountPairs(f) - PatPairs(d);
        if JudgeRows(cmp, a.pat, f, n) == Stray {
          x, y := StrayRow(cmp, a.pat, f, n);
        } else {
          x, y := StrayComparison(cmp, d, Tail(f, n));
          TailIdents(f, n);
        }
      } else if Judge(cmp, a, f.car) == Stray {
        x, y := StrayComparison(cmp, a, f.car);
      } else {
        x, y := StrayComparison(cmp, d, f.cdr);
      }
  }

  lemma {:induction false} StrayRow(cmp: (Ident, Ident) -> Verdict, q: Pat, f: Form, n: nat)
    returns (x: Ident, y: Ident)
    requires n <= CountPairs(f) && JudgeRows(cmp, q, f, n) == Stray
    ensures x in Literals(q) && y in Idents(f) && cmp(x, y) == Stray
    decreases q, n
  {
    if Judge(cmp, q, f.car) == Stray { x, y := StrayComparison(cmp, q, f.car); }
    else { x, y := StrayRow(cmp, q, f.cdr, n - 1); }
  }

  lemma {:induction false} TailIdents(f: Form, n: nat)
    requires n <= CountPairs(f)
    ensures Idents(Tail(f, n)) <= Idents(f)
  {
    if n > 0 { TailIdents(f.cdr, n - 1); }
  }

  /* ---- Which test decides ---- */

  /** A test of the matcher: the shape of a part of the form, or a literal compared with
      an identifier. */
  datatype Test = Shape(ok: bool) | Literal(x: Ident, y: Ident)

  /** All the tests in the order of the text, as if none failed. */
  function Tests(p: Pat, f: Form): seq<Test>
    decreases p, 0
  {
    match p
    case PVar => []
    case PNil => [Shape(f.FNil?)]
    case PAtom(v) => [Shape(f == FAtom(v))]
    case PId(x) => if f.FId? then [Literal(x, f.id)] else [Shape(false)]
    case PVec(items) => if f.FVec? then LengthTest(items, f.items) + Tests(items, f.items) else [Shape(false)]
    case PRep(_, _) => [Shape(false)]
    case PPair(a, d) =>
      if a.PRep? then
        if CountPairs(f) < PatPairs(d) then [Shape(false)]
        else RowTests(a.pat, f, CountPairs(f) - PatPairs(d)) + Tests(d, Tail(f, CountPairs(f) - PatPairs(d)))
      else if f.FPair? then Tests(a, f.car) + Tests(d, f.cdr) else [Shape(false)]
  }

  function RowTests(q: Pat, f: Form, n: nat): seq<Test>
    requires n <= CountPairs(f)
    decreases q, n
  {
    if n == 0 then [] else Tests(q, f.car) + RowTests(q, f.cdr, n - 1)
  }

  /** The length of a vector is tested before its elements. */
  function LengthTest(items: Pat, f: Form): seq<Test> {
    [Shape(if NoRep(items) then CountPairs(f) == PatPairs(items) else CountPairs(f) >= PatPairs(items) - 1)]
  }

  function Answer(cmp: (Ident, Ident) -> Verdict, t: Test): Verdict {
    match t
    case Shape(ok) => if ok then Yes else No
    case Literal(x, y) => cmp(x, y)
  }

  /** Test k is the first that fails. */
  ghost predicate FirstFails(cmp: (Ident, Ident) -> Verdict, ts: seq<Test>, k: nat) {
    k < |ts| && Answer(cmp, ts[k]) != Yes && forall j :: 0 <= j < k ==> Answer(cmp, ts[j]) == Yes
  }

  /** The verdict is that of the first test that fails. */
  ghost predicate Decides(cmp: (Ident, Ident) -> Verdict, ts: seq<Test>, v: Verdict) {
    if v == Yes then forall j :: 0 <= j < |ts| ==> Answer(cmp, ts[j]) == Yes
    else exists k: nat :: FirstFails(cmp, ts, k) && Answer(cmp, ts[k]) == v
  }

  lemma DecidesBoth(cmp: (Ident, Ident) -> Verdict, ts: seq<Test>, us: seq<Test>, v: Verdict, w: Verdict)
    requires Decides(cmp, ts, v) && (v == Yes ==> Decides(cmp, us, w))
    ensures Decides(cmp, ts + us, if v != Yes then v else w)
  {
    var all := ts + us;
    assert forall j :: 0 <= j < |ts| ==> all[j] == ts[j];
    assert forall j :: 0 <= j < |us| ==> all[|ts| + j] == us[j];
    if v != Yes {
      var k: nat :| FirstFails(cmp, ts, k) && Answer(cmp, ts[k]) == v;
      assert FirstFails(cmp, all, k) && all[k] == ts[k];
    } else if w != Yes {
      var k: nat :| FirstFails(cmp, us, k) && Answer(cmp, us[k]) == w;
      forall j | 0 <= j < |ts| + k ensures Answer(cmp, all[j]) == Yes {
        if j >= |ts| { assert all[j] == us[j - |ts|]; }
      }
      assert FirstFails(cmp, all, |ts| + k) && all[|ts| + k] == us[k];
    }
  }

  lemma DecidesOne(cmp: (Ident, Ident) -> Verdict, t: Test)
    ensures Decides(cmp, [t], Answer(cmp, t))
  {
    if Answer(cmp, t) != Yes { assert FirstFails(cmp, [t], 0); }
  }

  lemma {:induction false} RepEnds(items: Pat)
    requires RepLast(items)
    ensures EndsInRep(items) <==> !NoRep(items)
  {
    if items.PPair? { RepEnds(items.cdr); }
  }

  /** The matcher's verdict is that of the first test of the text that fails: a literal
      that strays is an error exactly if everything before it matches. */
  lemma {:induction false} FirstDecides(cmp: (Ident, Ident) -> Verdict, p: Pat, f: Form)
    requires Wf(p)
    ensures Decides(cmp, Tests(p, f), Judge(cmp, p, f))
    decreases p, 0
  {
    hide Decides;
    match p
    case PVar => assert Decides(cmp, [], Yes) by { NoTests(cmp); }
    case PNil => DecidesOne(cmp, Shape(f.FNil?));
    case PAtom(v) => DecidesOne(cmp, Shape(f == FAtom(v)));
    case PId(x) => DecidesOne(cmp, if f.FId? then Literal(x, f.id) else Shape(false));
    case PVec(items) =>
      if f.FVec? {
        FirstDecides(cmp, items, f.items);
        RepEnds(items);
        DecidesOne(cmp, LengthTest(items, f.items)[0]);
        DecidesBoth(cmp, LengthTest(items, f.items), Tests(items, f.items),
          if FitsVector(items, CountPairs(f.items)) then Yes else No, Judge(cmp, items, f.items));
      } else {
        DecidesOne(cmp, Shape(false));
      }
    case PRep(_, _) => DecidesOne(cmp, Shape(false));
    case PPair(a, d) =>
      if a.PRep? && CountPairs(f) >= PatPairs(d) {
        var n := CountPairs(f) - PatPairs(d);
        FirstRowDecides(cmp, a.pat, f, n);
        FirstDecides(cmp, d, Tail(f, n));
        DecidesBoth(cmp, RowTests(a.pat, f, n), Tests(d, Tail(f, n)), JudgeRows(cmp, a.pat, f, n),
          Judge(cmp, d, Tail(f, n)));
      } else if !a.PRep? && f.FPair? {
        FirstDecides(cmp, a, f.car);
        FirstDecides(cmp, d, f.cdr);
        DecidesBoth(cmp, Tests(a, f.car), Tests(d, f.cdr), Judge(cmp, a, f.car), Judge(cmp, d, f.cdr));
      } else {
        DecidesOne(cmp, Shape(false));
      }
  }

  lemma NoTests(cmp: (Ident, Ident) -> Verdict)
    ensures Decides(cmp, [], Yes)
  {
  }

  lemma {:induction false} FirstRowDecides(cmp: (Ident, Ident) -> Verdict, q: Pat, f: Form, n: nat)
    requires Wf(q) && n <= CountPairs(f)
    ensures Decides(cmp, RowTests(q, f, n), JudgeRows(cmp, q, f, n))
    decreases q, n
  {
    hide Decides;
    if n == 0 {
      NoTests(cmp);
    } else {
      FirstDecides(cmp, q, f.car);
      FirstRowDecides(cmp, q, f.cdr, n - 1);
      DecidesBoth(cmp, Tests(q, f.car), RowTests(q, f.cdr, n - 1), Judge(cmp, q, f.car),
        JudgeRows(cmp, q, f.cdr, n - 1));
    }
  }
}
