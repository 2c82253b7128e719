/** What compiling a rule guarantees about the bindings of its matches: each is
    nested as deep as the template that uses it says, so that whether it can be
    transcribed depends on lengths alone, and in a flat template not on those. */
module Nesting {
  import opened Forms
  import opened Patterns
  import opened Templates
  import opened Compiler

  /** The number of ellipses over each variable, the last variable first. */
  function Depths(p: Pat, level: nat): seq<nat> {
    match p
    case PVar => [level]
    case PPair(a, d) => Depths(d, level) + Depths(a, level)
    case PVec(items) => Depths(items, level)
    case PRep(q, _) => Depths(q, level + 1)
    case _ => []
  }

  lemma {:induction false} DepthsCount(p: Pat, level: nat)
    ensures |Depths(p, level)| == PvCount(p)
    ensures forall i :: 0 <= i < PvCount(p) ==> Depths(p, level)[i] >= level
  {
    match p
    case PPair(a, d) => DepthsCount(a, level); DepthsCount(d, level);
    case PVec(items) => DepthsCount(items, level);
    case PRep(q, _) => DepthsCount(q, level + 1);
    case _ =>
  }

  /* ---- The compiler records the depths ---- */

  lemma {:induction false} CompiledDepths(cx: Context, form: Form, level: nat, st: PVars)
    ensures
      var r := CompilePat(cx, form, level, st);
      r.Some? ==> r.value.1.levels == Depths(r.value.0, level) + st.levels
    decreases form, 1
  {
    match form
    case FPair(_, _) => CompiledDepthsList(cx, form, level, st, false);
    case FVec(items) => if items.FPair? { CompiledDepthsList(cx, items, level, st, false); }
    case _ =>
  }

  lemma {:induction false} CompiledDepthsList(cx: Context, form: Form, level: nat, st: PVars, seen: bool)
    requires form.FPair?
    ensures
      var r := CompilePatList(cx, form, level, st, seen);
      r.Some? ==> r.value.1.levels == Depths(r.value.0, level) + st.levels
    decreases form, 0
  {
    hide IsEllipsis, CompilePat, NewVars;
    var rep := form.cdr.FPair? && IsEllipsis(cx, form.cdr.car);
    var lv, rest := if rep then level + 1 else level, if rep then form.cdr.cdr else form.cdr;
    CompiledDepths(cx, form.car, lv, st);
    var r, a := CompilePatList(cx, form, level, st, seen), CompilePat(cx, form.car, lv, st);
    if r.Some? {
      if rest.FPair? { CompiledDepthsList(cx, rest, level, a.value.1, seen || rep); }
      else if !rest.FNil? { CompiledDepths(cx, rest, level, a.value.1); }
      var d := CompilePatRest(cx, rest, level, a.value.1, seen || rep).value;
      assert Depths(r.value.0, level) == Depths(d.0, level) + Depths(a.value.0, lv);
      assert Depths(d.0, level) + (Depths(a.value.0, lv) + st.levels) == Depths(r.value.0, level) + st.levels;
    }
  }

  /** A variable of a compiled template has the depth of the table. */
  ghost predicate FromTable(t: Tmpl, pv: PVars) {
    forall v :: v in Vars(t) ==> v.0 < |pv.levels| && pv.levels[v.0] == v.1
  }

  lemma {:induction false} CompiledVars(cx: Context, form: Form, level: nat, pv: PVars)
    ensures CompileTmpl(cx, form, level, pv).Some? ==> FromTable(CompileTmpl(cx, form, level, pv).value.0, pv)
    decreases form, 1
  {
    match form
    case FPair(a, d) =>
      if IsEllipsis(cx, a) && d.FPair? && d.cdr.FNil? { CompiledVars(cx.(ellipsis := None), d.car, level, pv); }
      else { CompiledVarsList(cx, form, level, pv); }
    case FVec(items) => if items.FPair? { CompiledVarsList(cx, items, level, pv); }
    case _ =>
  }

  lemma {:induction false} CompiledVarsList(cx: Context, form: Form, level: nat, pv: PVars)
    requires form.FPair?
    ensures CompileTmplList(cx, form, level, pv).Some? ==> FromTable(CompileTmplList(cx, form, level, pv).value.0, pv)
    decreases form, 0
  {
    hide IsEllipsis, CompileTmpl;
    var rep := form.cdr.FPair? && IsEllipsis(cx, form.cdr.car);
    var lv, rest := if rep then level + 1 else level, if rep then form.cdr.cdr else form.cdr;
    CompiledVars(cx, form.car, lv, pv);
    if rest.FPair? { CompiledVarsList(cx, rest, level, pv); }
    else if !rest.FNil? { CompiledVars(cx, rest, level, pv); }
    var r := CompileTmplList(cx, form, level, pv);
    if r.Some? {
      var a, d := CompileTmpl(cx, form.car, lv, pv).value.0, CompileTmplRest(cx, rest, level, pv).value.0;
      assert r.value.0 == TPair(if rep then TRep(a) else a, d);
      assert Vars(r.value.0) == Vars(a) + Vars(d);
      assert FromTable(a, pv) && FromTable(d, pv);
    }
  }

  /* ---- So are the bindings of a match ---- */

  /** Binding i is nested as deep as variable i is below `level`. */
  ghost predicate NestedAll(bs: seq<Binding>, depths: seq<nat>, level: nat) {
    |bs| == |depths| && forall i :: 0 <= i < |bs| ==> depths[i] >= level && Nested(bs[i], depths[i] - level)
  }

  lemma {:induction false} MatchNested(same: (Ident, Ident) -> bool, p: Pat, f: Form, level: nat)
    ensures MatchSpec(same, p, f).Some? ==> NestedAll(MatchSpec(same, p, f).value, Depths(p, level), level)
    decreases p, 0
  {
    hide NestedAll, Nested, Transpose, MatchRows;
    NestedNone(level);
    if MatchSpec(same, p, f).Some? {
      match p
      case PVar => NestedForm(f, level);
      case PVec(items) => MatchNested(same, items, f.items, level);
      case PPair(a, d) =>
        if a.PRep? {
          var n := CountPairs(f) - PatPairs(d);
          var rows := MatchRows(same, a.pat, f, n).value;
          MatchNested(same, d, Tail(f, n), level);
          RowsNested(same, a.pat, f, n, level + 1);
          DepthsCount(a.pat, level + 1);
          ColumnsNested(rows, Depths(a.pat, level + 1), level);
          NestedCat(MatchSpec(same, d, Tail(f, n)).value, Depths(d, level),
                    Transpose(rows, PvCount(a.pat)), Depths(a.pat, level + 1), level);
        } else {
          MatchNested(same, a, f.car, level);
          MatchNested(same, d, f.cdr, level);
          NestedCat(MatchSpec(same, d, f.cdr).value, Depths(d, level), MatchSpec(same, a, f.car).value,
            Depths(a, level), level);
        }
      case _ =>
    }
  }

  lemma NestedNone(level: nat)
    ensures NestedAll([], [], level)
  {
  }

  lemma NestedForm(f: Form, level: nat)
    ensures NestedAll([One(f)], [level], level)
  {
  }

  lemma NestedCat(bd: seq<Binding>, dd: seq<nat>, ba: seq<Binding>, da: seq<nat>, level: nat)
    requires NestedAll(bd, dd, level) && NestedAll(ba, da, level)
    ensures NestedAll(bd + ba, dd + da, level)
  {
  }

  lemma {:induction false} RowsNested(same: (Ident, Ident) -> bool, q: Pat, f: Form, n: nat, level: nat)
    requires n <= CountPairs(f) && MatchRows(same, q, f, n).Some?
    ensures forall k :: 0 <= k < n ==> NestedAll(MatchRows(same, q, f, n).value[k], Depths(q, level), level)
    decreases q, n
  {
    hide NestedAll, Depths;
    if n > 0 {
      MatchNested(same, q, f.car, level);
      RowsNested(same, q, f.cdr, n - 1, level);
      var rows, rest := MatchRows(same, q, f, n).value, MatchRows(same, q, f.cdr, n - 1).value;
      assert rows == [MatchSpec(same, q, f.car).value] + rest;
      forall k | 0 <= k < n ensures NestedAll(rows[k], Depths(q, level), level) {
        if k > 0 { assert rows[k] == rest[k - 1]; }
      }
    }
  }

  lemma ColumnsNested(rows: seq<seq<Binding>>, depths: seq<nat>, level: nat)
    requires forall k :: 0 <= k < |rows| ==> |rows[k]| == |depths| && NestedAll(rows[k], depths, level + 1)
    requires forall i :: 0 <= i < |depths| ==> depths[i] >= level + 1
    ensures NestedAll(Transpose(rows, |depths|), depths, level)
  {
    forall i | 0 <= i < |depths| ensures Nested(Column(rows, i), depths[i] - level) {
      forall k | 0 <= k < |rows| ensures Nested(rows[k][i], depths[i] - level - 1) {
        assert NestedAll(rows[k], depths, level + 1);
      }
    }
  }

  /* ---- Lengths ---- */

  /** The variables that one ellipsis repeats have equally many bindings. */
  ghost predicate EqualLengths(t: Tmpl, ss: seq<State>, d: nat) {
    match t
    case TPair(a, r) => EqualLengths(a, ss, d) && EqualLengths(r, ss, d)
    case TVec(items) => EqualLengths(items, ss, d)
    case TRep(q) =>
      (forall v, w :: v in Vars(q) && w in Vars(q) && v.1 > d && w.1 > d ==> Size(Of(ss, v.0)) == Size(Of(ss, w.0))) &&
      forall v, k :: v in Vars(q) && v.1 > d && 0 <= k < Size(Of(ss, v.0)) ==> EqualLengths(q, Peel(ss, d, k), d + 1)
    case _ => true
  }

  ghost predicate AllLive(t: Tmpl, ss: seq<State>) {
    forall v :: v in Vars(t) ==> Of(ss, v.0).Live?
  }

  /** With equal lengths a template is instantiated, each ellipsis as often as any of
      its variables has bindings. */
  lemma {:induction false} EqualLengthsRun(t: Tmpl, ss: seq<State>, d: nat)
    requires Item(t, d) && Deep(t, ss, d) && AllLive(t, ss) && EqualLengths(t, ss, d)
    ensures Runs(t, ss, d).Done?
    ensures t.TRep? ==> forall v :: v in Vars(t.tmpl) && v.1 > d ==> Times(t.tmpl, ss, d) == Size(Of(ss, v.0))
    decreases t
  {
    hide Runs;
    RunsIs(t, ss, d);
    ItemParts(t, d);
    match t
    case TPair(a, r) =>
      EqualLengthsRun(a, ss, d);
      EqualLengthsRun(r, ss, d);
    case TVec(items) => EqualLengthsRun(items, ss, d);
    case TVar(i, l) => assert Fits((i, l), ss, d);
    case TRep(q) =>
      var w :| w in Vars(q) && w.1 > d;
      var n := Size(Of(ss, w.0));
      forall k | 0 <= k < n ensures Runs(q, Peel(ss, d, k), d + 1).Done? {
        PeelDeep(q, ss, d, k);
        PeelLive(q, ss, d, k, n);
        EqualLengthsRun(q, Peel(ss, d, k), d + 1);
      }
      PeelEnds(q, ss, d, n);
      EndedTogether(q, Peel(ss, d, n), d + 1, d);
      LongestIs(ss, w.0);
      TimesIs(q, ss, d, n);
    case _ =>
  }

  lemma RunsIs(t: Tmpl, ss: seq<State>, d: nat)
    ensures t.TPair? ==> (Runs(t, ss, d).Done? <==> Runs(t.car, ss, d).Done? && Runs(t.cdr, ss, d).Done?)
    ensures t.TVec? ==> Runs(t, ss, d) == Runs(t.items, ss, d)
    ensures t.TRep? && Runs(t.tmpl, Peel(ss, d, Times(t.tmpl, ss, d)), d + 1) == Stops(d) ==> Runs(t, ss, d).Done?
    ensures t.TVar? && Of(ss, t.index).Live? && Of(ss, t.index).binding.One? ==> Runs(t, ss, d).Done?
    ensures t.TNil? || t.TId? || t.TAtom? ==> Runs(t, ss, d).Done?
  {
  }

  lemma PeelLive(q: Tmpl, ss: seq<State>, d: nat, k: nat, n: nat)
    requires Deep(q, ss, d) && AllLive(q, ss) && k < n
    requires forall v :: v in Vars(q) && v.1 > d ==> Size(Of(ss, v.0)) == n
    ensures AllLive(q, Peel(ss, d, k))
  {
    forall v | v in Vars(q) ensures Of(Peel(ss, d, k), v.0).Live? { assert Fits(v, ss, d); }
  }

  lemma PeelEnds(q: Tmpl, ss: seq<State>, d: nat, n: nat)
    requires Deep(q, ss, d) && AllLive(q, ss)
    requires forall v :: v in Vars(q) && v.1 > d ==> Size(Of(ss, v.0)) == n
    ensures forall v :: v in Vars(q) ==>
      var s := Of(Peel(ss, d, n), v.0);
      if v.1 > d then s == Ended(d) else s.Live? && s.binding.One?
  {
    forall v | v in Vars(q)
      ensures
        var s := Of(Peel(ss, d, n), v.0);
        if v.1 > d then s == Ended(d) else s.Live? && s.binding.One?
    {
      assert Fits(v, ss, d);
    }
  }

  /** For a compiled rule, the bindings of a match have the depths that the template
      needs.  Equal lengths under each ellipsis are enough to transcribe it, and if no
      ellipsis is under another, any lengths. */
  lemma MatchFitsTemplate(same: (Ident, Ident) -> bool, cx: Context, pattern: Form, template: Form, f: Form)
    requires WfForm(pattern) && WfForm(template) && CompileRule(cx, pattern, template).Some?
    ensures
      var rule := CompileRule(cx, pattern, template).value;
      Wf(rule.pat) && WfTmpl(rule.tmpl, 0) &&
      (MatchSpec(same, rule.pat, f).Some? ==>
        var ss := Lives(MatchSpec(same, rule.pat, f).value);
        Deep(rule.tmpl, ss, 0) && AllLive(rule.tmpl, ss) &&
        (EqualLengths(rule.tmpl, ss, 0) || Flat(rule.tmpl) ==> Runs(rule.tmpl, ss, 0).Done?))
  {
    hide MatchSpec, Runs, EqualLengths, Vars, CompilePat, CompileTmpl, Wf, WfTmpl, Flat;
    var (pat, pv) := WholePattern(cx, pattern).value;
    var t := WholeTemplate(cx, template, pv).value.0;
    CompiledPat(cx, pattern, 0, PVars([], []));
    CompiledDepths(cx, pattern, 0, PVars([], []));
    CompiledTmpl(cx, template, 0, pv);
    CompiledVars(cx, template, 0, pv);
    MatchNested(same, pat, f, 0);
    assert pv.levels == Depths(pat, 0);
    if MatchSpec(same, pat, f).Some? {
      var bs := MatchSpec(same, pat, f).value;
      forall v | v in Vars(t) ensures Fits(v, Lives(bs), 0) && Of(Lives(bs), v.0).Live? {
        assert Nested(bs[v.0], pv.levels[v.0] - 0);
      }
      WfItem(t);
      if EqualLengths(t, Lives(bs), 0) { EqualLengthsRun(t, Lives(bs), 0); }
      if Flat(t) { FlatRuns(t, Lives(bs)); }
    }
  }

  lemma WfItem(t: Tmpl)
    requires WfTmpl(t, 0)
    ensures Item(t, 0)
  {
  }
}
