/** The compiler of src/macro.c for patterns and templates, as functions that
    thread the table of pattern variables; None is a syntax error. */
module Compiler {
  import opened Forms
  import opened Patterns
  import opened Templates

  const UNDERSCORE := Sym(0)

  /** `ellipsis` is the unwrapped ellipsis identifier, None if it is escaped or
      listed in the literals. */
  datatype Context = Context(ellipsis: Option<Ident>, literals: seq<Ident>)

  /** ctx->pvars: the variable met last comes first.  None stands for the unique
      object that an underscore is entered as. */
  datatype PVars = PVars(names: seq<Option<Ident>>, levels: seq<nat>)

  predicate IsEllipsis(cx: Context, f: Form) {
    f.FId? && cx.ellipsis == Some(Root(f.id))
  }

  /** init_compilation_context */
  function InitContext(ellipsis: Ident, literals: seq<Ident>): Context {
    if exists i :: 0 <= i < |literals| && Root(literals[i]) == Root(ellipsis) then Context(None, literals)
    else Context(Some(Root(ellipsis)), literals)
  }

  function CompilePat(cx: Context, form: Form, level: nat, st: PVars): Option<(Pat, PVars)>
    decreases form, 1
  {
    match form
    case FPair(_, _) => CompilePatList(cx, form, level, st, false)
    case FVec(items) =>
      if items.FNil? then Some((PVec(PNil), st))
      else if !items.FPair? || !EllipsisLast(cx, items) then None
      else
        var r := CompilePatList(cx, items, level, st, false);
        if r.None? then None else Some((PVec(r.value.0), r.value.1))
    case FId(id) =>
      if id in cx.literals then Some((PId(id), st))
      else
        var name := if Root(id) == UNDERSCORE then None else Some(id);
        if name.Some? && name in st.names then None
        else Some((PVar, PVars([name] + st.names, [level] + st.levels)))
    case FNil => Some((PNil, st))
    case FAtom(v) => Some((PAtom(v), st))
  }

  /** In a vector pattern an ellipsis is allowed at the end only. */
  predicate EllipsisLast(cx: Context, items: Form) {
    items.FPair? ==> (IsEllipsis(cx, items.car) ==> items.cdr.FNil?) && EllipsisLast(cx, items.cdr)
  }

  function CompilePatList(cx: Context, form: Form, level: nat, st: PVars, seen: bool): Option<(Pat, PVars)>
    requires form.FPair?
    decreases form, 0
  {
    if IsEllipsis(cx, form.car) then None
    else if form.cdr.FPair? && IsEllipsis(cx, form.cdr.car) then
      if seen then None else
      var a := CompilePat(cx, form.car, level + 1, st);
      if a.None? then None else
      var d := CompilePatRest(cx, form.cdr.cdr, level, a.value.1, true);
      if d.None? then None
      else Some((PPair(PRep(a.value.0, NewVars(st, a.value.1)), d.value.0), d.value.1))
    else
      var a := CompilePat(cx, form.car, level, st);
      if a.None? then None else
      var d := CompilePatRest(cx, form.cdr, level, a.value.1, seen);
      if d.None? then None else Some((PPair(a.value.0, d.value.0), d.value.1))
  }

  function NewVars(before: PVars, after: PVars): nat {
    if |after.names| < |before.names| then 0 else |after.names| - |before.names|
  }

  function CompilePatRest(cx: Context, rest: Form, level: nat, st: PVars, seen: bool): Option<(Pat, PVars)>
    decreases rest, 2
  {
    if rest.FPair? then CompilePatList(cx, rest, level, st, seen)
    else if rest.FNil? then Some((PNil, st))
    else if IsEllipsis(cx, rest) then None
    else CompilePat(cx, rest, level, st)
  }

  /** list_find_index */
  function Index(names: seq<Option<Ident>>, id: Ident): int {
    if names == [] then -1
    else if names[0] == Some(id) then 0
    else var i := Index(names[1..], id); if i < 0 then -1 else i + 1
  }

  /** A template and how many of its variable references control repetitions. */
  function CompileTmpl(cx: Context, form: Form, level: nat, pv: PVars): Option<(Tmpl, nat)>
    decreases form, 1
  {
    match form
    case FPair(a, d) =>
      if IsEllipsis(cx, a) && d.FPair? && d.cdr.FNil? then CompileTmpl(cx.(ellipsis := None), d.car, level, pv)
      else CompileTmplList(cx, form, level, pv)
    case FVec(items) =>
      if items.FNil? then Some((TVec(TNil), 0))
      else if !items.FPair? then None
      else
        var r := CompileTmplList(cx, items, level, pv);
        if r.None? then None else Some((TVec(r.value.0), r.value.1))
    case FId(id) =>
      var i := Index(pv.names, id);
      if i < 0 || i >= |pv.levels| then Some((TId(id), 0))
      else if level < pv.levels[i] then None
      else Some((TVar(i, pv.levels[i]), if level == pv.levels[i] then 1 else 0))
    case FNil => Some((TNil, 0))
    case FAtom(v) => Some((TAtom(v), 0))
  }

  function CompileTmplList(cx: Context, form: Form, level: nat, pv: PVars): Option<(Tmpl, nat)>
    requires form.FPair?
    decreases form, 0
  {
    if IsEllipsis(cx, form.car) then None
    else if form.cdr.FPair? && IsEllipsis(cx, form.cdr.car) then
      var a := CompileTmpl(cx, form.car, level + 1, pv);
      if a.None? || a.value.1 == 0 then None else
      var d := CompileTmplRest(cx, form.cdr.cdr, level, pv);
      if d.None? then None else Some((TPair(TRep(a.value.0), d.value.0), a.value.1 + d.value.1))
    else
      var a := CompileTmpl(cx, form.car, level, pv);
      if a.None? then None else
      var d := CompileTmplRest(cx, form.cdr, level, pv);
      if d.None? then None else Some((TPair(a.value.0, d.value.0), a.value.1 + d.value.1))
  }

  function CompileTmplRest(cx: Context, rest: Form, level: nat, pv: PVars): Option<(Tmpl, nat)>
    decreases rest, 2
  {
    if rest.FPair? then CompileTmplList(cx, rest, level, pv)
    else if rest.FNil? then Some((TNil, 0))
    else if IsEllipsis(cx, rest) then None
    else CompileTmpl(cx, rest, level, pv)
  }

  /** compile: a whole pattern or template must not be the ellipsis itself. */
  function WholePattern(cx: Context, form: Form): Option<(Pat, PVars)> {
    if IsEllipsis(cx, form) then None else CompilePat(cx, form, 0, PVars([], []))
  }

  function WholeTemplate(cx: Context, form: Form, pv: PVars): Option<(Tmpl, nat)> {
    if IsEllipsis(cx, form) then None else CompileTmpl(cx, form, 0, pv)
  }

  /** A compiled rule of syntax-rules. */
  datatype Rule = Rule(pat: Pat, tmpl: Tmpl)

  /** One rule: the template is compiled with the variables of the pattern. */
  function CompileRule(cx: Context, pattern: Form, template: Form): Option<Rule> {
    var p := WholePattern(cx, pattern);
    if p.None? then None else
    var t := WholeTemplate(cx, template, p.value.1);
    if t.None? then None else Some(Rule(p.value.0, t.value.0))
  }

  /* ---- What the compiler guarantees ---- */

  /** The pattern is well formed, and its variables were pushed on the table. */
  ghost predicate Entered(p: Pat, st: PVars, st': PVars) {
    Wf(p) && |st'.names| == |st.names| + PvCount(p) && |st'.levels| == |st.levels| + PvCount(p) &&
    st'.names[PvCount(p)..] == st.names && st'.levels[PvCount(p)..] == st.levels
  }

  lemma {:induction false} CompiledPat(cx: Context, form: Form, level: nat, st: PVars)
    requires WfForm(form)
    ensures CompilePat(cx, form, level, st).Some? ==>
      Entered(CompilePat(cx, form, level, st).value.0, st, CompilePat(cx, form, level, st).value.1) &&
      !CompilePat(cx, form, level, st).value.0.PRep?
    decreases form, 1
  {
    match form {
      case FPair(_, _) => CompiledPatList(cx, form, level, st, false);
      case FVec(items) =>
        if items.FPair? {
          CompiledPatList(cx, items, level, st, false);
          var r := CompilePatList(cx, items, level, st, false);
          if EllipsisLast(cx, items) && r.Some? { CompiledVec(cx, items, level, st, false, r.value.0, r.value.1); }
        }
      case _ =>
    }
  }

  /** The parts of a compiled list pattern. */
  lemma ListParts(cx: Context, form: Form, level: nat, st: PVars, seen: bool)
    requires form.FPair? && CompilePatList(cx, form, level, st, seen).Some?
    ensures
      var rep := form.cdr.FPair? && IsEllipsis(cx, form.cdr.car);
      var r, a := CompilePatList(cx, form, level, st, seen).value,
          CompilePat(cx, form.car, if rep then level + 1 else level, st);
      a.Some? && (rep ==> !seen) &&
      var d := CompilePatRest(cx, if rep then form.cdr.cdr else form.cdr, level, a.value.1, seen || rep);
      d.Some? && r.1 == d.value.1 &&
      r.0 == PPair(if rep then PRep(a.value.0, NewVars(st, a.value.1)) else a.value.0, d.value.0)
  {
    hide IsEllipsis, CompilePat, CompilePatRest;
  }

  lemma {:induction false} CompiledPatList(cx: Context, form: Form, level: nat, st: PVars, seen: bool)
    requires form.FPair? && WfForm(form)
    ensures CompilePatList(cx, form, level, st, seen).Some? ==>
      var r := CompilePatList(cx, form, level, st, seen).value;
      Entered(r.0, st, r.1) && r.0.PPair? && (seen ==> NoRep(r.0))
    decreases form, 0
  {
    hide IsEllipsis, CompilePat, CompilePatRest, CompilePatList, Entered, NewVars;
    var r := CompilePatList(cx, form, level, st, seen);
    if r.Some? {
      ListParts(cx, form, level, st, seen);
      var rep := form.cdr.FPair? && IsEllipsis(cx, form.cdr.car);
      var lv, rest := if rep then level + 1 else level, if rep then form.cdr.cdr else form.cdr;
      var a := CompilePat(cx, form.car, lv, st).value;
      CompiledPat(cx, form.car, lv, st);
      CompiledPatRest(cx, rest, level, a.1, seen || rep);
      PairEntered(r.value.0, rep, a.0, st, a.1, r.value.1);
    }
  }

  /** A pair of compiled patterns. */
  lemma PairEntered(p: Pat, rep: bool, a: Pat, st: PVars, st1: PVars, st2: PVars)
    requires p.PPair? && p.car == (if rep then PRep(a, NewVars(st, st1)) else a)
    requires Entered(a, st, st1) && !a.PRep? && Entered(p.cdr, st1, st2) && (rep ==> NoRep(p.cdr))
    ensures Entered(p, st, st2) && (!rep && NoRep(p.cdr) ==> NoRep(p))
  {
    hide Entered, NewVars;
    EnteredCount(a, st, st1);
    EnteredCount(p.cdr, st1, st2);
    assert PvCount(p) == PvCount(a) + PvCount(p.cdr);
    assert Wf(p);
    EnteredOn(p, a, p.cdr, st, st1, st2);
  }

  lemma EnteredCount(p: Pat, st: PVars, st': PVars)
    requires Entered(p, st, st')
    ensures Wf(p) && NewVars(st, st') == PvCount(p)
  {}

  lemma {:induction false} CompiledPatRest(cx: Context, rest: Form, level: nat, st: PVars, seen: bool)
    requires WfForm(rest)
    ensures CompilePatRest(cx, rest, level, st, seen).Some? ==>
      var r := CompilePatRest(cx, rest, level, st, seen).value;
      Entered(r.0, st, r.1) && (seen ==> NoRep(r.0))
    decreases rest, 2
  {
    if rest.FPair? { CompiledPatList(cx, rest, level, st, seen); }
    else if !rest.FNil? { CompiledPat(cx, rest, level, st); }
  }

  lemma EnteredOn(p: Pat, a: Pat, d: Pat, st: PVars, st1: PVars, st2: PVars)
    requires Entered(a, st, st1) && Entered(d, st1, st2) && Wf(p) && PvCount(p) == PvCount(a) + PvCount(d)
    ensures Entered(p, st, st2)
  {
    hide Wf, PvCount;
    DropTwice(st2.names, st1.names, PvCount(d), PvCount(a));
    DropTwice(st2.levels, st1.levels, PvCount(d), PvCount(a));
  }

  lemma DropTwice<T>(s: seq<T>, s1: seq<T>, m: nat, n: nat)
    requires m + n <= |s| && s[m..] == s1
    ensures s[m + n..] == s1[n..]
  {}

  /** A vector pattern is a proper list with the ellipsis at its end. */
  lemma {:induction false} CompiledVec(cx: Context, items: Form, level: nat, st: PVars, seen: bool, p: Pat, st': PVars)
    requires items.FPair? && IsList(items) && WfForm(items) && EllipsisLast(cx, items) && Wf(p)
    requires CompilePatList(cx, items, level, st, seen) == Some((p, st'))
    ensures PatList(p) && RepLast(p)
    decreases items, 0
  {
    hide IsEllipsis, CompilePat, NewVars;
    var rep := items.cdr.FPair? && IsEllipsis(cx, items.cdr.car);
    if rep {
      assert EllipsisLast(cx, items.cdr) && items.cdr.cdr.FNil?;
    } else {
      CompiledPat(cx, items.car, level, st);
    }
    if !rep && items.cdr.FPair? {
      CompiledVec(cx, items.cdr, level, CompilePat(cx, items.car, level, st).value.1, seen, p.cdr, st');
    }
  }

  lemma {:induction false} CompiledTmpl(cx: Context, form: Form, level: nat, pv: PVars)
    requires WfForm(form)
    ensures CompileTmpl(cx, form, level, pv).Some? ==>
      var r := CompileTmpl(cx, form, level, pv).value;
      WfTmpl(r.0, level) && (level > 0 && r.1 > 0 ==> Deeper(r.0, level - 1))
    decreases form, 1
  {
    match form {
      case FPair(a, d) =>
        if IsEllipsis(cx, a) && d.FPair? && d.cdr.FNil? { CompiledTmpl(cx.(ellipsis := None), d.car, level, pv); }
        else { CompiledTmplList(cx, form, level, pv); }
      case FVec(items) => if items.FPair? { CompiledTmplList(cx, items, level, pv); }
      case FId(id) =>
        var r := CompileTmpl(cx, form, level, pv);
        if r.Some? && r.value.1 > 0 { assert (r.value.0.index, r.value.0.level) in Vars(r.value.0); }
      case _ =>
    }
  }

  lemma {:induction false} CompiledTmplList(cx: Context, form: Form, level: nat, pv: PVars)
    requires form.FPair? && WfForm(form)
    ensures CompileTmplList(cx, form, level, pv).Some? ==>
      var r := CompileTmplList(cx, form, level, pv).value;
      WfTmpl(r.0, level) && (IsList(form) ==> TmplList(r.0)) && (level > 0 && r.1 > 0 ==> Deeper(r.0, level - 1))
    decreases form, 0
  {
    var rep := form.cdr.FPair? && IsEllipsis(cx, form.cdr.car);
    var lv := if rep then level + 1 else level;
    var rest := if rep then form.cdr.cdr else form.cdr;
    CompiledTmpl(cx, form.car, lv, pv);
    CompiledTmplRest(cx, rest, level, pv);
    assert IsList(form) ==> IsList(form.cdr) && IsList(rest);
    var r, a, d := CompileTmplList(cx, form, level, pv), CompileTmpl(cx, form.car, lv, pv),
        CompileTmplRest(cx, rest, level, pv);
    if r.Some? && level > 0 && r.value.1 > 0 {
      if a.value.1 > 0 {
        assert Deeper(a.value.0, lv - 1);
        var v :| v in Vars(a.value.0) && v.1 > lv - 1;
        assert v in Vars(r.value.0);
      } else {
        var v :| v in Vars(d.value.0) && v.1 > level - 1;
        assert v in Vars(r.value.0);
      }
    }
  }

  lemma {:induction false} CompiledTmplRest(cx: Context, rest: Form, level: nat, pv: PVars)
    requires WfForm(rest)
    ensures CompileTmplRest(cx, rest, level, pv).Some? ==>
      var r := CompileTmplRest(cx, rest, level, pv).value;
      WfTmpl(r.0, level) && (IsList(rest) ==> TmplList(r.0)) && (level > 0 && r.1 > 0 ==> Deeper(r.0, level - 1))
    decreases rest, 2
  {
    if rest.FPair? { CompiledTmplList(cx, rest, level, pv); }
    else if !rest.FNil? { CompiledTmpl(cx, rest, level, pv); }
  }
}
