/** A pattern without literals, compiled also as the template, rebuilds every
    form that it matches. */
module RoundTrip {
  import opened Forms
  import opened Patterns
  import opened Templates
  import opened Compiler
  import opened Nesting
  import opened CompilationContexts
  import opened PairHeap
  import opened Matcher
  import opened BindingLists
  import opened Transcriber

  /** Every ellipsis subpattern has a variable. */
  predicate RepsBound(p: Pat) {
    match p
    case PPair(a, d) => RepsBound(a) && RepsBound(d)
    case PVec(items) => RepsBound(items)
    case PRep(q, _) => PvCount(q) > 0 && RepsBound(q)
    case _ => true
  }

  predicate NoIds(p: Pat) {
    match p
    case PPair(a, d) => NoIds(a) && NoIds(d)
    case PVec(items) => NoIds(items)
    case PRep(q, _) => NoIds(q)
    case PId(_) => false
    case _ => true
  }

  /** The template that says the same as pattern `p`, whose variables take the
      indices below `hi`, the first variable the highest. */
  function Templ(p: Pat, hi: nat, level: nat): Tmpl
    requires PvCount(p) <= hi
  {
    match p
    case PNil => TNil
    case PAtom(v) => TAtom(v)
    case PId(x) => TId(x)
    case PVar => TVar(hi - 1, level)
    case PVec(items) => TVec(Templ(items, hi, level))
    case PRep(q, _) => TRep(Templ(q, hi, level + 1))
    case PPair(a, d) => TPair(Templ(a, hi, level), Templ(d, hi - PvCount(a), level))
  }

  ghost predicate Table(pv: PVars) {
    |pv.levels| == |pv.names| && (forall i :: 0 <= i < |pv.names| ==> pv.names[i].Some?) &&
    forall i, j :: 0 <= i < j < |pv.names| ==> pv.names[i] != pv.names[j]
  }

  ghost predicate Suffix(st: PVars, pv: PVars) {
    |st.names| == |st.levels| <= |pv.names| == |pv.levels| &&
    pv.names[|pv.names| - |st.names|..] == st.names && pv.levels[|pv.names| - |st.names|..] == st.levels
  }

  lemma {:induction false} IndexAt(names: seq<Option<Ident>>, id: Ident, i: nat)
    requires i < |names| && names[i] == Some(id) && forall j :: 0 <= j < i ==> names[j] != Some(id)
    ensures Index(names, id) == i
  {
    if i > 0 { IndexAt(names[1..], id, i - 1); }
  }

  lemma SuffixBack(p: Pat, st: PVars, st': PVars, pv: PVars)
    requires Entered(p, st, st') && Suffix(st', pv) && |st.names| == |st.levels|
    ensures Suffix(st, pv) && |st'.names| == |st.names| + PvCount(p) <= |pv.names| == |pv.levels|
  {
    var n := |pv.names|;
    assert pv.names[n - |st.names|..] == pv.names[n - |st'.names|..][PvCount(p)..];
    assert pv.levels[n - |st.names|..] == pv.levels[n - |st'.names|..][PvCount(p)..];
  }

  /** What a pattern becomes when it is compiled as a template: an error iff some
      ellipsis has no variable, and else the template that says the same. */
  ghost predicate Mirrors(cx: Context, p: Pat, st: PVars, level: nat, N: nat, t: Option<(Tmpl, nat)>)
    requires |st.names| + PvCount(p) <= N
  {
    t == if RepsBound(p) then Some((Templ(p, N - |st.names|, level), PvCount(p))) else None
  }

  lemma {:induction false} SameTemplate(cx: Context, form: Form, level: nat, st: PVars, pv: PVars)
    requires WfForm(form) && cx.literals == [] && CompilePat(cx, form, level, st).Some? && |st.names| == |st.levels|
    requires Table(pv) && Suffix(CompilePat(cx, form, level, st).value.1, pv)
    ensures |st.names| + PvCount(CompilePat(cx, form, level, st).value.0) <= |pv.names|
    ensures Mirrors(cx, CompilePat(cx, form, level, st).value.0, st, level, |pv.names|,
      CompileTmpl(cx, form, level, pv))
    ensures NoIds(CompilePat(cx, form, level, st).value.0)
    decreases form, 1
  {
    hide Entered, Wf, Suffix, Table;
    CompiledPat(cx, form, level, st);
    SuffixBack(CompilePat(cx, form, level, st).value.0, st, CompilePat(cx, form, level, st).value.1, pv);
    match form {
      case FPair(_, _) => SameTemplateList(cx, form, level, st, false, pv);
      case FVec(items) =>
        var p := CompilePat(cx, form, level, st).value.0;
        assert RepsBound(p) == RepsBound(p.items);
        assert Templ(p, |pv.names| - |st.names|, level) == TVec(Templ(p.items, |pv.names| - |st.names|, level));
        if items.FPair? { SameTemplateList(cx, items, level, st, false, pv); }
      case FId(id) =>
        var st' := CompilePat(cx, form, level, st).value.1;
        assert |st'.names| == |st.names| + 1;
        assert st'.names[0].Some? ==> st'.names[0].value == id;
        SameVariable(id, level, st', pv);
      case _ =>
    }
  }

  lemma SameVariable(id: Ident, level: nat, st: PVars, pv: PVars)
    requires Table(pv) && Suffix(st, pv) && |st.names| > 0 && st.levels[0] == level
    requires st.names[0].Some? ==> st.names[0].value == id
    ensures Index(pv.names, id) == |pv.names| - |st.names| && pv.levels[|pv.names| - |st.names|] == level
  {
    var i := |pv.names| - |st.names|;
    assert pv.names[i] == pv.names[i..][0] && pv.levels[i] == pv.levels[i..][0];
    IndexAt(pv.names, id, i);
  }

  lemma {:induction false} SameTemplateList(cx: Context, form: Form, level: nat, st: PVars, seen: bool, pv: PVars)
    requires form.FPair? && WfForm(form) && cx.literals == [] && |st.names| == |st.levels|
    requires CompilePatList(cx, form, level, st, seen).Some?
    requires Table(pv) && Suffix(CompilePatList(cx, form, level, st, seen).value.1, pv)
    ensures |st.names| + PvCount(CompilePatList(cx, form, level, st, seen).value.0) <= |pv.names|
    ensures Mirrors(cx, CompilePatList(cx, form, level, st, seen).value.0, st, level, |pv.names|,
      CompileTmplList(cx, form, level, pv))
    ensures NoIds(CompilePatList(cx, form, level, st, seen).value.0)
    decreases form, 0
  {
    hide Entered, Wf, Suffix, Table, IsEllipsis, Mirrors, CompileTmplList;
    var rep := form.cdr.FPair? && IsEllipsis(cx, form.cdr.car);
    var lv, rest := if rep then level + 1 else level, if rep then form.cdr.cdr else form.cdr;
    var a := CompilePat(cx, form.car, lv, st).value;
    var d := CompilePatRest(cx, rest, level, a.1, seen || rep).value;
    CompiledPat(cx, form.car, lv, st);
    CompiledPatRest(cx, rest, level, a.1, seen || rep);
    SuffixBack(d.0, a.1, d.1, pv);
    SameTemplate(cx, form.car, lv, st, pv);
    SameTemplateRest(cx, rest, level, a.1, seen || rep, pv);
    MirrorsCons(cx, form, level, st, seen, pv, a, d);
  }

  lemma MirrorsCons(cx: Context, form: Form, level: nat, st: PVars, seen: bool, pv: PVars, a: (Pat, PVars),
                   d: (Pat, PVars))
    requires form.FPair? && CompilePatList(cx, form, level, st, seen).Some? && !a.0.PRep?
    requires
      var rep := form.cdr.FPair? && IsEllipsis(cx, form.cdr.car);
      var lv, rest, N := if rep then level + 1 else level, if rep then form.cdr.cdr else form.cdr, |pv.names|;
      CompilePat(cx, form.car, lv, st) == Some(a) && CompilePatRest(cx, rest, level, a.1, seen || rep) == Some(d) &&
      |a.1.names| == |st.names| + PvCount(a.0) && |a.1.names| + PvCount(d.0) <= N &&
      Mirrors(cx, a.0, st, lv, N, CompileTmpl(cx, form.car, lv, pv)) &&
      Mirrors(cx, d.0, a.1, level, N, CompileTmplRest(cx, rest, level, pv))
    ensures |st.names| + PvCount(CompilePatList(cx, form, level, st, seen).value.0) <= |pv.names|
    ensures Mirrors(cx, CompilePatList(cx, form, level, st, seen).value.0, st, level, |pv.names|,
      CompileTmplList(cx, form, level, pv))
    ensures NoIds(a.0) && NoIds(d.0) ==> NoIds(CompilePatList(cx, form, level, st, seen).value.0)
  {
    hide IsEllipsis, CompilePat, CompileTmpl, CompilePatRest, CompileTmplRest, NewVars;
    var p, N := CompilePatList(cx, form, level, st, seen).value.0, |pv.names|;
    assert p.cdr == d.0 && if p.car.PRep? then p.car.pat == a.0 else p.car == a.0;
    assert RepsBound(p) == (RepsBound(p.car) && RepsBound(d.0));
    assert Templ(p, N - |st.names|, level) ==
      TPair(Templ(p.car, N - |st.names|, level), Templ(d.0, N - |a.1.names|, level));
  }

  lemma {:induction false} SameTemplateRest(cx: Context, rest: Form, level: nat, st: PVars, seen: bool, pv: PVars)
    requires WfForm(rest) && cx.literals == [] && |st.names| == |st.levels|
    requires CompilePatRest(cx, rest, level, st, seen).Some?
    requires Table(pv) && Suffix(CompilePatRest(cx, rest, level, st, seen).value.1, pv)
    ensures |st.names| + PvCount(CompilePatRest(cx, rest, level, st, seen).value.0) <= |pv.names|
    ensures Mirrors(cx, CompilePatRest(cx, rest, level, st, seen).value.0, st, level, |pv.names|,
      CompileTmplRest(cx, rest, level, pv))
    ensures NoIds(CompilePatRest(cx, rest, level, st, seen).value.0)
    decreases rest, 2
  {
    if rest.FPair? { SameTemplateList(cx, rest, level, st, seen, pv); }
    else if !rest.FNil? { SameTemplate(cx, rest, level, st, pv); }
  }

  /** The variables of the template are those of the pattern. */
  lemma {:induction false} TemplVars(p: Pat, hi: nat, level: nat)
    requires PvCount(p) <= hi
    ensures forall v :: v in Vars(Templ(p, hi, level)) ==> hi - PvCount(p) <= v.0 < hi && v.1 >= level
    ensures PvCount(p) > 0 && level > 0 ==> Deeper(Templ(p, hi, level), level - 1)
  {
    match p {
      case PPair(a, d) =>
        TemplVars(a, hi, level);
        TemplVars(d, hi - PvCount(a), level);
        if PvCount(p) > 0 && level > 0 {
          var t := if PvCount(a) > 0 then Templ(a, hi, level) else Templ(d, hi - PvCount(a), level);
          var v :| v in Vars(t) && v.1 > level - 1;
          assert v in Vars(Templ(p, hi, level));
        }
      case PVec(items) => TemplVars(items, hi, level);
      case PRep(q, _) =>
        TemplVars(q, hi, level + 1);
        if PvCount(q) > 0 && level > 0 {
          var v :| v in Vars(Templ(q, hi, level + 1)) && v.1 > level;
          assert v in Vars(Templ(p, hi, level));
        }
      case PVar => if level > 0 { assert (hi - 1, level) in Vars(Templ(p, hi, level)); }
      case _ =>
    }
  }

  lemma {:induction false} TemplItem(p: Pat, hi: nat, level: nat)
    requires Wf(p) && RepsBound(p) && PvCount(p) <= hi
    ensures WfTmpl(Templ(p, hi, level), level) && (PatList(p) ==> TmplList(Templ(p, hi, level)))
  {
    match p
    case PPair(a, d) =>
      TemplItem(d, hi - PvCount(a), level);
      if a.PRep? {
        TemplItem(a.pat, hi, level + 1);
        TemplVars(a.pat, hi, level + 1);
      } else {
        TemplItem(a, hi, level);
        TemplPair(a, d, hi, level);
      }
    case PVec(items) => TemplItem(items, hi, level);
    case _ =>
  }

  /** The bindings `b` are those of the variables below `hi`. */
  ghost predicate Holds(ss: seq<State>, hi: nat, b: seq<Binding>) {
    |b| <= hi <= |ss| && ss[hi - |b|..hi] == Lives(b)
  }

  lemma HoldsOne(ss: seq<State>, hi: nat, b: Binding)
    requires Holds(ss, hi, [b])
    ensures hi - 1 < |ss| && ss[hi - 1] == Live(b)
  {
    assert ss[hi - 1] == ss[hi - 1..hi][0];
  }

  lemma HoldsParts(ss: seq<State>, hi: nat, bd: seq<Binding>, ba: seq<Binding>)
    requires Holds(ss, hi, bd + ba)
    ensures |ba| <= hi && Holds(ss, hi, ba) && Holds(ss, hi - |ba|, bd)
  {
    assert Lives(bd + ba) == Lives(bd) + Lives(ba);
    assert ss[hi - |ba|..hi] == Lives(bd + ba)[|bd|..];
    assert ss[hi - |ba| - |bd|..hi - |ba|] == Lives(bd + ba)[..|bd|];
  }

  /** Instantiating the template with the bindings of a match gives the form. */
  lemma {:induction false} Rebuild(same: (Ident, Ident) -> bool, p: Pat, f: Form, hi: nat, level: nat,
                                   ss: seq<State>, ren: map<Ident, Ident>)
    requires Wf(p) && NoIds(p) && RepsBound(p) && PvCount(p) <= hi
    requires MatchSpec(same, p, f).Some? && Holds(ss, hi, MatchSpec(same, p, f).value)
    ensures Runs(Templ(p, hi, level), ss, level).Done?
    ensures Inst(Templ(p, hi, level), ss, level, ren) == f
    decreases p, 1
  {
    hide Holds, MatchSpec, Runs, Inst, Templ;
    match p {
      case PVec(items) =>
        RebuildVec(same, items, f, hi, level, ss, ren);
      case PPair(a, d) =>
        if a.PRep? {
          RebuildRep(same, a, d, f, hi, level, ss, ren);
        } else {
          RebuildPair(same, a, d, f, hi, level, ss, ren);
        }
      case _ => RebuildLeaf(same, p, f, hi, level, ss, ren);
    }
  }

  lemma RebuildLeaf(same: (Ident, Ident) -> bool, p: Pat, f: Form, hi: nat, level: nat, ss: seq<State>,
                    ren: map<Ident, Ident>)
    requires p.PNil? || p.PAtom? || p.PVar?
    requires PvCount(p) <= hi && MatchSpec(same, p, f).Some? && Holds(ss, hi, MatchSpec(same, p, f).value)
    ensures Runs(Templ(p, hi, level), ss, level).Done?
    ensures Inst(Templ(p, hi, level), ss, level, ren) == f
  {
    hide Holds;
    if p.PVar? {
      HoldsOne(ss, hi, One(f));
      assert Templ(p, hi, level) == TVar(hi - 1, level);
    }
  }

  lemma {:induction false} RebuildVec(same: (Ident, Ident) -> bool, items: Pat, f: Form, hi: nat, level: nat,
                                      ss: seq<State>, ren: map<Ident, Ident>)
    requires Wf(items) && NoIds(items) && RepsBound(items) && PvCount(items) <= hi
    requires MatchSpec(same, PVec(items), f).Some? && Holds(ss, hi, MatchSpec(same, PVec(items), f).value)
    ensures Runs(Templ(PVec(items), hi, level), ss, level).Done?
    ensures Inst(Templ(PVec(items), hi, level), ss, level, ren) == f
    decreases PVec(items), 0
  {
    hide Holds;
    Rebuild(same, items, f.items, hi, level, ss, ren);
  }

  lemma {:induction false} RebuildPair(same: (Ident, Ident) -> bool, a: Pat, d: Pat, f: Form, hi: nat, level: nat,
                                       ss: seq<State>, ren: map<Ident, Ident>)
    requires !a.PRep? && Wf(a) && Wf(d) && NoIds(a) && NoIds(d) && RepsBound(a) && RepsBound(d) &&
      PvCount(a) + PvCount(d) <= hi
    requires MatchSpec(same, PPair(a, d), f).Some? && Holds(ss, hi, MatchSpec(same, PPair(a, d), f).value)
    ensures Runs(Templ(PPair(a, d), hi, level), ss, level).Done?
    ensures Inst(Templ(PPair(a, d), hi, level), ss, level, ren) == f
    decreases PPair(a, d), 0
  {
    hide Runs, MatchSpec, Holds, Wf, NoIds, RepsBound, Inst, Templ;
    PairSpec(same, PPair(a, d), f);
    HoldsParts(ss, hi, MatchSpec(same, d, f.cdr).value, MatchSpec(same, a, f.car).value);
    Rebuild(same, a, f.car, hi, level, ss, ren);
    Rebuild(same, d, f.cdr, hi - PvCount(a), level, ss, ren);
    RunsPair(Templ(a, hi, level), Templ(d, hi - PvCount(a), level), ss, level);
    TemplPair(a, d, hi, level);
    InstPair(Templ(a, hi, level), Templ(d, hi - PvCount(a), level), ss, level, ren);
  }

  lemma TemplPair(a: Pat, d: Pat, hi: nat, level: nat)
    requires PvCount(a) + PvCount(d) <= hi && !a.PRep?
    ensures PvCount(PPair(a, d)) <= hi && !Templ(a, hi, level).TRep?
    ensures Templ(PPair(a, d), hi, level) == TPair(Templ(a, hi, level), Templ(d, hi - PvCount(a), level))
  {}

  lemma InstPair(a: Tmpl, r: Tmpl, ss: seq<State>, d: nat, ren: map<Ident, Ident>)
    requires !a.TRep?
    ensures Inst(TPair(a, r), ss, d, ren) == FPair(Inst(a, ss, d, ren), Inst(r, ss, d, ren))
  {}

  lemma {:induction false} RebuildRep(same: (Ident, Ident) -> bool, a: Pat, d: Pat, f: Form, hi: nat, level: nat,
                                      ss: seq<State>, ren: map<Ident, Ident>)
    requires a.PRep? && Wf(a.pat) && Wf(d) && NoIds(a) && NoIds(d) && RepsBound(a) && RepsBound(d) &&
      PvCount(a) + PvCount(d) <= hi
    requires MatchSpec(same, PPair(a, d), f).Some? && Holds(ss, hi, MatchSpec(same, PPair(a, d), f).value)
    ensures Runs(Templ(PPair(a, d), hi, level), ss, level).Done?
    ensures Inst(Templ(PPair(a, d), hi, level), ss, level, ren) == f
    decreases PPair(a, d), 0
  {
    hide Runs, Times, Repeat, MatchRows, MatchSpec, Holds, Wf;
    RepSpec(same, PPair(a, d), f);
    var q, n := a.pat, CountPairs(f) - PatPairs(d);
    HoldsParts(ss, hi, MatchSpec(same, d, Tail(f, n)).value, Transpose(MatchRows(same, q, f, n).value, PvCount(q)));
    Rebuild(same, d, Tail(f, n), hi - PvCount(a), level, ss, ren);
    RebuildRows(same, q, f, n, hi, level, ss, ren);
    RunsPair(TRep(Templ(q, hi, level + 1)), Templ(d, hi - PvCount(a), level), ss, level);
    assert Templ(a, hi, level) == TRep(Templ(q, hi, level + 1));
    assert Templ(PPair(a, d), hi, level) == TPair(Templ(a, hi, level), Templ(d, hi - PvCount(a), level));
  }

  lemma RunsPair(a: Tmpl, r: Tmpl, ss: seq<State>, d: nat)
    requires Runs(a, ss, d).Done? && Runs(r, ss, d).Done?
    ensures Runs(TPair(a, r), ss, d).Done?
  {}

  lemma {:induction false} RebuildRows(same: (Ident, Ident) -> bool, q: Pat, f: Form, n: nat, hi: nat, level: nat,
                                       ss: seq<State>, ren: map<Ident, Ident>)
    requires Wf(q) && NoIds(q) && RepsBound(q) && 0 < PvCount(q) <= hi && n <= CountPairs(f) &&
      MatchRows(same, q, f, n).Some?
    requires Holds(ss, hi, Transpose(MatchRows(same, q, f, n).value, PvCount(q)))
    ensures Runs(TRep(Templ(q, hi, level + 1)), ss, level).Done?
    ensures Times(Templ(q, hi, level + 1), ss, level) == n
    ensures Prepend(Repeat(Templ(q, hi, level + 1), ss, level, ren, 0, n), Tail(f, n)) == f
    decreases q, 2
  {
    hide Runs, Times, Holds, MatchSpec;
    var rows, t := MatchRows(same, q, f, n).value, Templ(q, hi, level + 1);
    var es := FirstRows(same, q, f, n);
    forall k | 0 <= k < n
      ensures Runs(t, Peel(ss, level, k), level + 1).Done? && Inst(t, Peel(ss, level, k), level + 1, ren) == es[k]
    {
      RowHolds(rows, PvCount(q), hi, level, ss, k);
      Rebuild(same, q, es[k], hi, level + 1, Peel(ss, level, k), ren);
    }
    RowsEnd(q, rows, hi, level, ss);
    TimesIs(t, ss, level, n);
    RunsRep(t, ss, level);
    RepeatIs(t, ss, level, ren, 0, n, es);
  }

  /** After the last row the variables of a repeatable subtemplate have all ended. */
  lemma RowsEnd(q: Pat, rows: seq<seq<Binding>>, hi: nat, level: nat, ss: seq<State>)
    requires Wf(q) && NoIds(q) && RepsBound(q) && 0 < PvCount(q) <= hi
    requires forall i :: 0 <= i < |rows| ==> |rows[i]| == PvCount(q)
    requires Holds(ss, hi, Transpose(rows, PvCount(q)))
    ensures |rows| <= Longest(ss)
    ensures Runs(Templ(q, hi, level + 1), Peel(ss, level, |rows|), level + 1) == Stops(level)
  {
    hide Runs, Templ, Wf, NoIds, RepsBound, WfTmpl, Holds, Transpose, Longest;
    var t, lo, n := Templ(q, hi, level + 1), hi - PvCount(q), |rows|;
    TemplVars(q, hi, level + 1);
    TemplItem(q, hi, level + 1);
    TmplIsItem(t, level + 1);
    RowsAre(rows, PvCount(q), hi, ss);
    LongestIs(ss, lo);
    EndedTogether(t, Peel(ss, level, n), level + 1, level);
  }

  lemma RowsAre(rows: seq<seq<Binding>>, w: nat, hi: nat, ss: seq<State>)
    requires w <= hi && forall i :: 0 <= i < |rows| ==> |rows[i]| == w
    requires Holds(ss, hi, Transpose(rows, w))
    ensures hi <= |ss|
    ensures forall i :: hi - w <= i < hi ==>
      ss[i].Live? && ss[i].binding.Many? && |ss[i].binding.items| == |rows|
  {
    forall i | hi - w <= i < hi ensures ss[i] == Live(Column(rows, i - (hi - w))) {
      assert ss[i] == ss[hi - w..hi][i - (hi - w)];
    }
  }

  lemma TmplIsItem(t: Tmpl, d: nat)
    requires WfTmpl(t, d)
    ensures Item(t, d)
  {
  }

  lemma RowHolds(rows: seq<seq<Binding>>, w: nat, hi: nat, level: nat, ss: seq<State>, k: nat)
    requires w <= hi && k < |rows| && forall i :: 0 <= i < |rows| ==> |rows[i]| == w
    requires Holds(ss, hi, Transpose(rows, w))
    ensures Holds(Peel(ss, level, k), hi, rows[k])
  {
    forall i | 0 <= i < w ensures Peel(ss, level, k)[hi - w..hi][i] == Lives(rows[k])[i] {
      assert ss[hi - w + i] == ss[hi - w..hi][i] == Live(Column(rows, i));
      assert Column(rows, i).items[k] == rows[k][i];
    }
  }

  lemma {:induction false} RepeatIs(t: Tmpl, ss: seq<State>, level: nat, ren: map<Ident, Ident>, k: nat, n: nat,
                                    es: seq<Form>)
    requires k <= n == |es| && forall i :: k <= i < n ==> Inst(t, Peel(ss, level, i), level + 1, ren) == es[i]
    ensures Repeat(t, ss, level, ren, k, n) == es[k..]
    decreases n - k
  {
    if k < n { RepeatIs(t, ss, level, ren, k + 1, n, es); }
  }

  /** The template exists iff every ellipsis subpattern has a variable, and then
      a form that matches is what it gives for the bindings, however identifiers
      are renamed. */
  ghost predicate Rebuilds(same: (Ident, Ident) -> bool, p: Pat, t: Option<(Tmpl, nat)>, f: Form) {
    (t.Some? <==> RepsBound(p)) &&
    (t.Some? ==> WfTmpl(t.value.0, 0)) &&
    (t.Some? && MatchSpec(same, p, f).Some? ==>
      Runs(t.value.0, Lives(MatchSpec(same, p, f).value), 0).Done? &&
      forall ren: map<Ident, Ident> :: Inst(t.value.0, Lives(MatchSpec(same, p, f).value), 0, ren) == f)
  }

  /** Compile `source` as pattern and as template, match and instantiate: the
      template compiles iff every ellipsis subpattern has a variable, and then
      every form that matches comes back. */
  lemma MatchInstantiate(same: (Ident, Ident) -> bool, cx: Context, source: Form, p: Pat, pv: PVars, f: Form)
    requires WfForm(source) && cx.literals == [] && WholePattern(cx, source) == Some((p, pv))
    requires forall i :: 0 <= i < |pv.names| ==> pv.names[i].Some?
    ensures Wf(p) && Rebuilds(same, p, WholeTemplate(cx, source, pv), f)
  {
    hide Apart, Table, Suffix, Runs, Wf, WfTmpl, CompilePat, CompileTmpl, MatchSpec, Inst, RepsBound, Templ;
    ApartNone();
    NamesApart(cx, source, 0, PVars([], []));
    CompiledPat(cx, source, 0, PVars([], []));
    TableAll(pv);
    SameTemplate(cx, source, 0, PVars([], []), pv);
    CompiledTmpl(cx, source, 0, pv);
    if RepsBound(p) && MatchSpec(same, p, f).Some? {
      forall ren: map<Ident, Ident>
        ensures Runs(Templ(p, PvCount(p), 0), Lives(MatchSpec(same, p, f).value), 0).Done?
        ensures Inst(Templ(p, PvCount(p), 0), Lives(MatchSpec(same, p, f).value), 0, ren) == f
      {
        RebuildAll(same, p, f, ren);
      }
      RebuildAll(same, p, f, map[]);
    }
  }

  lemma RebuildAll(same: (Ident, Ident) -> bool, p: Pat, f: Form, ren: map<Ident, Ident>)
    requires Wf(p) && NoIds(p) && RepsBound(p) && MatchSpec(same, p, f).Some?
    ensures Runs(Templ(p, PvCount(p), 0), Lives(MatchSpec(same, p, f).value), 0).Done?
    ensures Inst(Templ(p, PvCount(p), 0), Lives(MatchSpec(same, p, f).value), 0, ren) == f
  {
    hide Wf, NoIds, RepsBound, Runs, Inst, Templ, MatchSpec;
    var bs := MatchSpec(same, p, f).value;
    assert Lives(bs)[0..|bs|] == Lives(bs);
    Rebuild(same, p, f, |bs|, 0, Lives(bs), ren);
  }

  /** The variables of a pattern, none of which is an underscore. */
  predicate NoUnderscore(cx: Context, source: Form) {
    var p := WholePattern(cx, source);
    p.Some? ==> forall i :: 0 <= i < |p.value.1.names| ==> p.value.1.names[i].Some?
  }

  /** The round trip: a rule without literals and underscores whose template is its
      pattern, compiled, matched and transcribed, gives back every form that it
      matches; it compiles iff the pattern does and each of its ellipses has a
      variable. */
  method MatchTranscribe(ellipsis: Ident, source: Form, cmp: (Ident, Ident) -> Verdict, wrap: (Ident, nat) -> Ident,
                         cells: Heap, o: Obj, ghost frozen: set<nat>, ghost f: Form)
    returns (r: Option<Form>)
    requires WfForm(source) && NoUnderscore(InitContext(ellipsis, []), source)
    requires Represents(cells, frozen, o, f) && forall a :: a in frozen ==> a < |cells|
    ensures
      var p := WholePattern(InitContext(ellipsis, []), source);
      r == if p.Some? && RepsBound(p.value.0) && MatchSpec(Agrees(cmp), p.value.0, f).Some? then Some(f) else None
  {
    hide CompilePat, CompileTmpl, MatchSpec, Judge, RepsBound, Runs, Inst, Wf, WfTmpl, Represents;
    var compiler := new CompilationContext(ellipsis, []);
    ghost var cx := compiler.cx;
    var rule := compiler.CompileOne(source, source);
    ghost var p := WholePattern(cx, source);
    if p.Some? { MatchInstantiate(Agrees(cmp), cx, source, p.value.0, p.value.1, f); }
    if rule.Some? { MatchFitsTemplate(Agrees(cmp), cx, source, source, f); }
    if rule.None? { return None; }
    var matcher := new MatchContext(cmp, cells, frozen);
    var verdict, sub := MatchAndRead(matcher, rule.value.pat, o, f);
    if verdict != Yes { return None; }
    var transcriber := new TranscriptionContext(wrap);
    var form := transcriber.Transcribe(rule.value.tmpl, sub);
    r := Some(form);
  }

  lemma ApartNone()
    ensures Apart(PVars([], []))
  {}

  lemma TableAll(pv: PVars)
    requires Apart(pv) && forall name :: name in pv.names ==> name.Some?
    ensures Table(pv) && Suffix(pv, pv)
  {
    assert pv.names[0..] == pv.names && pv.levels[0..] == pv.levels;
  }

  /** No variable is entered twice. */
  ghost predicate Apart(st: PVars) {
    |st.levels| == |st.names| &&
    forall i, j :: 0 <= i < j < |st.names| && st.names[i].Some? ==> st.names[i] != st.names[j]
  }

  lemma {:induction false} NamesApart(cx: Context, form: Form, level: nat, st: PVars)
    requires Apart(st)
    ensures CompilePat(cx, form, level, st).Some? ==> Apart(CompilePat(cx, form, level, st).value.1)
    decreases form, 1
  {
    match form {
      case FPair(_, _) => NamesApartList(cx, form, level, st, false);
      case FVec(items) => if items.FPair? { NamesApartList(cx, items, level, st, false); }
      case _ =>
    }
  }

  lemma {:induction false} NamesApartList(cx: Context, form: Form, level: nat, st: PVars, seen: bool)
    requires form.FPair? && Apart(st)
    ensures CompilePatList(cx, form, level, st, seen).Some? ==> Apart(CompilePatList(cx, form, level, st, seen).value.1)
    decreases form, 0
  {
    var rep := form.cdr.FPair? && IsEllipsis(cx, form.cdr.car);
    var lv, rest := if rep then level + 1 else level, if rep then form.cdr.cdr else form.cdr;
    NamesApart(cx, form.car, lv, st);
    var a := CompilePat(cx, form.car, lv, st);
    if a.Some? {
      if rest.FPair? { NamesApartList(cx, rest, level, a.value.1, seen || rep); }
      else { NamesApart(cx, rest, level, a.value.1); }
    }
  }
}
