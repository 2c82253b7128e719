/** Compiling a template and instantiating it mean what SyntaxRules says about the
    template as it is written. */
module TemplateMeaning {
  import opened Forms
  import opened Patterns
  import opened Templates
  import opened Compiler
  import opened Nesting
  import SyntaxRules

  type Syntax = SyntaxRules.Syntax

  /** The context has the ellipsis of the rules, or it is escaped. */
  predicate Like(cx: Context, sr: Syntax, escaped: bool) {
    cx.ellipsis == if escaped then None else InitContext(sr.ellipsis, sr.literals).ellipsis
  }

  lemma DotsIs(cx: Context, sr: Syntax, escaped: bool, f: Form)
    requires Like(cx, sr, escaped)
    ensures IsEllipsis(cx, f) <==> SyntaxRules.Dots(sr, escaped, f)
  {
  }

  lemma {:induction false} IndexIs(names: seq<Option<Ident>>, x: Ident)
    ensures Index(names, x) >= 0 <==> Some(x) in names
    ensures Index(names, x) >= 0 ==> Index(names, x) < |names| && names[Index(names, x)] == Some(x)
    ensures Index(names, x) >= -1
  {
    if names != [] {
      IndexIs(names[1..], x);
      assert Some(x) in names <==> names[0] == Some(x) || Some(x) in names[1..];
    }
  }

  /* ---- Which templates are accepted ---- */

  ghost predicate TableIs(pv: PVars, levels: map<Ident, nat>) {
    |pv.names| == |pv.levels| && (forall x :: x in levels <==> Some(x) in pv.names) &&
    forall x :: x in levels ==> 0 <= Index(pv.names, x) < |pv.levels| && levels[x] == pv.levels[Index(pv.names, x)]
  }

  /** It compiles exactly if it is a template, and then controls a repetition exactly if
      one of its variables is under as many ellipses as in the pattern. */
  lemma {:induction false} TemplateAccepted(cx: Context, sr: Syntax, escaped: bool, form: Form, d: nat, pv: PVars,
      levels: map<Ident, nat>)
    requires WfForm(form) && Like(cx, sr, escaped) && TableIs(pv, levels)
    ensures
      var r := CompileTmpl(cx, form, d, pv);
      (r.Some? <==> SyntaxRules.Template(sr, escaped, form, d, levels)) &&
      (r.Some? ==> (r.value.1 > 0 <==> SyntaxRules.Controls(sr, escaped, form, d, levels)))
    decreases form, 1
  {
    hide SyntaxRules.Dots, IsEllipsis;
    match form
    case FPair(a, r) =>
      DotsIs(cx, sr, escaped, a);
      if SyntaxRules.Dots(sr, escaped, a) && r.FPair? && r.cdr.FNil? {
        TemplateAccepted(cx.(ellipsis := None), sr, true, r.car, d, pv, levels);
      } else {
        ListAccepted(cx, sr, escaped, form, d, pv, levels);
      }
    case FVec(items) =>
      if items.FPair? {
        ListAccepted(cx, sr, escaped, items, d, pv, levels);
      } else {
        assert items.FNil?;
        NoDots(sr, escaped);
      }
    case FId(x) => IndexIs(pv.names, x);
    case _ =>
  }

  lemma NoDots(sr: Syntax, escaped: bool)
    ensures !SyntaxRules.Dots(sr, escaped, FNil)
  {
  }

  lemma {:induction false} ListAccepted(cx: Context, sr: Syntax, escaped: bool, form: Form, d: nat, pv: PVars,
      levels: map<Ident, nat>)
    requires form.FPair? && WfForm(form) && Like(cx, sr, escaped) && TableIs(pv, levels)
    ensures
      var r := CompileTmplList(cx, form, d, pv);
      (r.Some? <==> SyntaxRules.TemplateList(sr, escaped, form, d, levels)) &&
      (r.Some? ==> (r.value.1 > 0 <==> SyntaxRules.ControlsList(sr, escaped, form, d, levels)))
    decreases form, 0
  {
    hide SyntaxRules.Dots, IsEllipsis, CompileTmpl, SyntaxRules.Template, SyntaxRules.Controls;
    DotsIs(cx, sr, escaped, form.car);
    if form.cdr.FPair? { DotsIs(cx, sr, escaped, form.cdr.car); }
    if form.cdr.FPair? && SyntaxRules.Dots(sr, escaped, form.cdr.car) {
      TemplateAccepted(cx, sr, escaped, form.car, d + 1, pv, levels);
      TmplRestAccepted(cx, sr, escaped, form.cdr.cdr, d, pv, levels);
    } else {
      TemplateAccepted(cx, sr, escaped, form.car, d, pv, levels);
      TmplRestAccepted(cx, sr, escaped, form.cdr, d, pv, levels);
    }
  }

  lemma {:induction false} TmplRestAccepted(cx: Context, sr: Syntax, escaped: bool, rest: Form, d: nat, pv: PVars,
      levels: map<Ident, nat>)
    requires WfForm(rest) && Like(cx, sr, escaped) && TableIs(pv, levels)
    ensures
      var r := CompileTmplRest(cx, rest, d, pv);
      (r.Some? <==> SyntaxRules.TemplateList(sr, escaped, rest, d, levels)) &&
      (r.Some? ==> (r.value.1 > 0 <==> SyntaxRules.ControlsList(sr, escaped, rest, d, levels)))
    decreases rest, 2
  {
    hide SyntaxRules.Dots, IsEllipsis;
    DotsIs(cx, sr, escaped, rest);
    if rest.FPair? { ListAccepted(cx, sr, escaped, rest, d, pv, levels); }
    else if rest.FNil? { NoDots(sr, escaped); }
    else { TemplateAccepted(cx, sr, escaped, rest, d, pv, levels); }
  }

  /* ---- The variables of a template ---- */

  /** No variable is written like the ellipsis. */
  ghost predicate Undotted(sr: Syntax, names: seq<Option<Ident>>) {
    forall x :: Some(x) in names ==> !SyntaxRules.Dots(sr, false, FId(x))
  }

  /** The variables of the compiled template are the identifiers of the table in it. */
  ghost predicate SameVars(t: Tmpl, ids: set<Ident>, names: seq<Option<Ident>>) {
    (forall v :: v in Vars(t) ==> v.0 < |names| && names[v.0].Some? && names[v.0].value in ids) &&
    forall x :: x in ids && Some(x) in names ==> exists v :: v in Vars(t) && v.0 < |names| && names[v.0] == Some(x)
  }

  lemma SameVarsPair(a: Tmpl, r: Tmpl, ids: set<Ident>, more: set<Ident>, names: seq<Option<Ident>>)
    requires SameVars(a, ids, names) && SameVars(r, more, names)
    ensures SameVars(TPair(a, r), ids + more, names) && SameVars(TPair(TRep(a), r), ids + more, names)
  {
    var t, u := TPair(a, r), TPair(TRep(a), r);
    assert Vars(t) == Vars(a) + Vars(r) && Vars(u) == Vars(TRep(a)) + Vars(r) && Vars(TRep(a)) == Vars(a);
    forall x | x in ids + more && Some(x) in names
      ensures exists v :: v in Vars(t) && v.0 < |names| && names[v.0] == Some(x)
    {
      if x in ids {
        var v :| v in Vars(a) && v.0 < |names| && names[v.0] == Some(x);
        assert v in Vars(t);
      } else {
        var v :| v in Vars(r) && v.0 < |names| && names[v.0] == Some(x);
        assert v in Vars(t);
      }
    }
  }

  lemma {:induction false} TemplateVars(cx: Context, sr: Syntax, escaped: bool, form: Form, d: nat, pv: PVars)
    requires Like(cx, sr, escaped) && Undotted(sr, pv.names) && |pv.names| == |pv.levels|
    requires WfForm(form) && CompileTmpl(cx, form, d, pv).Some?
    ensures SameVars(CompileTmpl(cx, form, d, pv).value.0, SyntaxRules.Identifiers(form), pv.names)
    decreases form, 1
  {
    hide SyntaxRules.Dots, IsEllipsis, SameVars;
    match form
    case FPair(a, r) =>
      DotsIs(cx, sr, escaped, a);
      if SyntaxRules.Dots(sr, escaped, a) && r.FPair? && r.cdr.FNil? {
        TemplateVars(cx.(ellipsis := None), sr, true, r.car, d, pv);
        DotsApart(sr, escaped, a, pv.names);
        assert SyntaxRules.Identifiers(r) == SyntaxRules.Identifiers(r.car) + {};
        IdsLess(CompileTmpl(cx, form, d, pv).value.0, SyntaxRules.Identifiers(r.car), SyntaxRules.Identifiers(form),
          SyntaxRules.Identifiers(a), pv.names);
      } else {
        ListVars(cx, sr, escaped, form, d, pv);
      }
    case FVec(items) =>
      if items.FPair? { ListVars(cx, sr, escaped, items, d, pv); }
      VecVars(CompileTmpl(cx, form, d, pv).value.0, SyntaxRules.Identifiers(form), pv.names, items);
    case FId(x) => IdVars(cx, x, d, pv);
    case _ => NoVars(CompileTmpl(cx, form, d, pv).value.0, pv.names);
  }

  lemma VecVars(t: Tmpl, ids: set<Ident>, names: seq<Option<Ident>>, items: Form)
    requires t.TVec? && ids == SyntaxRules.Identifiers(items)
    requires (items.FNil? && t.items.TNil?) || SameVars(t.items, ids, names)
    ensures SameVars(t, ids, names)
  {
    assert Vars(t) == Vars(t.items);
  }

  lemma NoVars(t: Tmpl, names: seq<Option<Ident>>)
    requires Vars(t) == {}
    ensures SameVars(t, {}, names)
  {
  }

  lemma IdVars(cx: Context, x: Ident, d: nat, pv: PVars)
    requires |pv.names| == |pv.levels| && CompileTmpl(cx, FId(x), d, pv).Some?
    ensures SameVars(CompileTmpl(cx, FId(x), d, pv).value.0, {x}, pv.names)
  {
    IndexIs(pv.names, x);
    var t := CompileTmpl(cx, FId(x), d, pv).value.0;
    if t.TVar? { assert (t.index, t.level) in Vars(t); }
  }

  lemma DotsApart(sr: Syntax, escaped: bool, f: Form, names: seq<Option<Ident>>)
    requires SyntaxRules.Dots(sr, escaped, f) && Undotted(sr, names)
    ensures forall x :: x in SyntaxRules.Identifiers(f) ==> Some(x) !in names
  {
  }

  /** Identifiers that are not in the table do not count. */
  lemma IdsLess(t: Tmpl, ids: set<Ident>, all: set<Ident>, dots: set<Ident>, names: seq<Option<Ident>>)
    requires SameVars(t, ids, names) && all == ids + dots && forall x :: x in dots ==> Some(x) !in names
    ensures SameVars(t, all, names)
  {
  }

  lemma {:induction false} ListVars(cx: Context, sr: Syntax, escaped: bool, form: Form, d: nat, pv: PVars)
    requires form.FPair? && Like(cx, sr, escaped) && Undotted(sr, pv.names) && |pv.names| == |pv.levels|
    requires WfForm(form) && CompileTmplList(cx, form, d, pv).Some?
    ensures SameVars(CompileTmplList(cx, form, d, pv).value.0, SyntaxRules.Identifiers(form), pv.names)
    decreases form, 0
  {
    hide SyntaxRules.Dots, IsEllipsis, SameVars, CompileTmpl, Undotted;
    DotsIs(cx, sr, escaped, form.car);
    if form.cdr.FPair? { DotsIs(cx, sr, escaped, form.cdr.car); }
    var rep := form.cdr.FPair? && SyntaxRules.Dots(sr, escaped, form.cdr.car);
    var rest := if rep then form.cdr.cdr else form.cdr;
    var lv := if rep then d + 1 else d;
    TemplateVars(cx, sr, escaped, form.car, lv, pv);
    RestVars(cx, sr, escaped, rest, d, pv);
    var a, r := CompileTmpl(cx, form.car, lv, pv).value.0, CompileTmplRest(cx, rest, d, pv).value.0;
    SameVarsPair(a, r, SyntaxRules.Identifiers(form.car), SyntaxRules.Identifiers(rest), pv.names);
    if rep {
      DotsApart(sr, escaped, form.cdr.car, pv.names);
      assert SyntaxRules.Identifiers(form.cdr) == SyntaxRules.Identifiers(form.cdr.car) + SyntaxRules.Identifiers(rest);
      IdsLess(CompileTmplList(cx, form, d, pv).value.0,
        SyntaxRules.Identifiers(form.car) + SyntaxRules.Identifiers(rest), SyntaxRules.Identifiers(form),
        SyntaxRules.Identifiers(form.cdr.car), pv.names);
    }
  }

  lemma {:induction false} RestVars(cx: Context, sr: Syntax, escaped: bool, rest: Form, d: nat, pv: PVars)
    requires Like(cx, sr, escaped) && Undotted(sr, pv.names) && |pv.names| == |pv.levels|
    requires WfForm(rest) && CompileTmplRest(cx, rest, d, pv).Some?
    ensures SameVars(CompileTmplRest(cx, rest, d, pv).value.0, SyntaxRules.Identifiers(rest), pv.names)
    decreases rest, 2
  {
    if rest.FPair? { ListVars(cx, sr, escaped, rest, d, pv); }
    else if rest.FNil? { NoVars(TNil, pv.names); }
    else { TemplateVars(cx, sr, escaped, rest, d, pv); }
  }

  /* ---- What a template is instantiated to ---- */

  /** Every ellipsis ends with the shortest of the variables that it repeats. */
  ghost predicate Zips(t: Tmpl, ss: seq<State>, d: nat) {
    match t
    case TPair(a, r) => Zips(a, ss, d) && Zips(r, ss, d)
    case TVec(items) => Zips(items, ss, d)
    case TRep(q) =>
      (forall v :: v in Vars(q) && v.1 > d ==> Times(q, ss, d) <= Templates.Size(Of(ss, v.0))) &&
      forall k :: 0 <= k < Times(q, ss, d) ==> Zips(q, Peel(ss, d, k), d + 1)
    case _ => true
  }

  /** The states are those of the variables in the environment. */
  ghost predicate StatesAre(t: Tmpl, names: seq<Option<Ident>>, ss: seq<State>, env: map<Ident, Binding>) {
    (forall x :: x in env <==> Some(x) in names) &&
    forall v :: v in Vars(t) ==>
      v.0 < |names| && names[v.0].Some? && names[v.0].value in env && Of(ss, v.0) == Live(env[names[v.0].value])
  }

  /** What is needed to instantiate a compiled template. */
  ghost predicate Ready(t: Tmpl, names: seq<Option<Ident>>, ss: seq<State>, d: nat, env: map<Ident, Binding>) {
    Item(t, d) && StatesAre(t, names, ss, env) && Deep(t, ss, d) && Runs(t, ss, d).Done? && Zips(t, ss, d)
  }

  lemma ReadyParts(t: Tmpl, names: seq<Option<Ident>>, ss: seq<State>, d: nat, env: map<Ident, Binding>)
    requires Ready(t, names, ss, d, env)
    ensures t.TPair? ==> Ready(t.car, names, ss, d, env) && Ready(t.cdr, names, ss, d, env)
    ensures t.TVec? ==> Ready(t.items, names, ss, d, env)
  {
    ItemParts(t, d);
  }

  /** In repetition k. */
  lemma ReadyInner(q: Tmpl, names: seq<Option<Ident>>, ss: seq<State>, d: nat, env: map<Ident, Binding>, k: nat)
    requires Ready(TRep(q), names, ss, d, env) && k < Times(q, ss, d)
    ensures Ready(q, names, Peel(ss, d, k), d + 1, SyntaxRules.Row(env, k))
  {
    ItemParts(TRep(q), d);
    assert Deep(q, ss, d) by { assert Vars(TRep(q)) == Vars(q); }
    TimesBound(q, ss, d);
    assert Again(q, ss, d, k);
    PeelDeep(q, ss, d, k);
    forall v | v in Vars(q)
      ensures v.0 < |names| && names[v.0].Some? && names[v.0].value in SyntaxRules.Row(env, k) &&
        Of(Peel(ss, d, k), v.0) == Live(SyntaxRules.Row(env, k)[names[v.0].value])
    {
      assert v in Vars(TRep(q)) && Fits(v, ss, d);
    }
  }

  /** A repeatable subtemplate is repeated so many times, and in no other way. */
  lemma RepeatsIs(q: Tmpl, form: Form, names: seq<Option<Ident>>, ss: seq<State>, d: nat, env: map<Ident, Binding>,
      n: nat)
    requires Ready(TRep(q), names, ss, d, env) && SameVars(q, SyntaxRules.Identifiers(form), names)
    ensures SyntaxRules.Repeats(form, env, n) <==> n == Times(q, ss, d)
  {
    hide Runs, Times, Count;
    assert Vars(TRep(q)) == Vars(q);
    assert Deep(q, ss, d);
    TimesIsShortest(q, ss, d);
    var m := Times(q, ss, d);
    forall x | x in SyntaxRules.Identifiers(form) && x in env && env[x].Many? ensures m <= |env[x].items| {
      var v :| v in Vars(q) && v.0 < |names| && names[v.0] == Some(x);
      assert Fits(v, ss, d);
    }
    var v :| v in Vars(q) && v.1 > d && Of(ss, v.0).Live? && m == Templates.Size(Of(ss, v.0));
    assert Fits(v, ss, d);
    var x := names[v.0].value;
    assert x in SyntaxRules.Identifiers(form) && env[x].Many? && m == |env[x].items|;
  }

  /** The instances of the template as written are the instance of the compiled one. */
  lemma {:induction false} InstanceMeans(cx: Context, sr: Syntax, escaped: bool, form: Form, d: nat, pv: PVars,
      ss: seq<State>, env: map<Ident, Binding>, ren: map<Ident, Ident>, out: Form)
    requires Like(cx, sr, escaped) && Undotted(sr, pv.names) && |pv.names| == |pv.levels|
    requires WfForm(form) && CompileTmpl(cx, form, d, pv).Some?
    requires Ready(CompileTmpl(cx, form, d, pv).value.0, pv.names, ss, d, env)
    ensures SyntaxRules.Instance(sr, escaped, form, env, ren, out) <==>
      out == Inst(CompileTmpl(cx, form, d, pv).value.0, ss, d, ren)
    decreases form, 1
  {
    hide SyntaxRules.Dots, IsEllipsis, Ready, Runs;
    match form
    case FPair(a, r) =>
      DotsIs(cx, sr, escaped, a);
      if SyntaxRules.Dots(sr, escaped, a) && r.FPair? && r.cdr.FNil? {
        InstanceMeans(cx.(ellipsis := None), sr, true, r.car, d, pv, ss, env, ren, out);
      } else {
        ListInstance(cx, sr, escaped, form, d, pv, ss, env, ren, out);
      }
    case FVec(items) =>
      ReadyParts(CompileTmpl(cx, form, d, pv).value.0, pv.names, ss, d, env);
      if items.FPair? {
        if out.FVec? { ListInstance(cx, sr, escaped, items, d, pv, ss, env, ren, out.items); }
      } else {
        assert items.FNil?;
      }
    case FId(x) => IdInstance(cx, sr, escaped, x, d, pv, ss, env, ren, out);
    case _ =>
  }

  lemma IdInstance(cx: Context, sr: Syntax, escaped: bool, x: Ident, d: nat, pv: PVars, ss: seq<State>,
      env: map<Ident, Binding>, ren: map<Ident, Ident>, out: Form)
    requires |pv.names| == |pv.levels| && CompileTmpl(cx, FId(x), d, pv).Some?
    requires Ready(CompileTmpl(cx, FId(x), d, pv).value.0, pv.names, ss, d, env)
    ensures SyntaxRules.Instance(sr, escaped, FId(x), env, ren, out) <==>
      out == Inst(CompileTmpl(cx, FId(x), d, pv).value.0, ss, d, ren)
  {
    IndexIs(pv.names, x);
    var t := CompileTmpl(cx, FId(x), d, pv).value.0;
    if t.TVar? { assert (t.index, t.level) in Vars(t) && Fits((t.index, t.level), ss, d); }
  }

  lemma {:induction false} RestInstance(cx: Context, sr: Syntax, escaped: bool, rest: Form, d: nat, pv: PVars,
      ss: seq<State>, env: map<Ident, Binding>, ren: map<Ident, Ident>, out: Form)
    requires Like(cx, sr, escaped) && Undotted(sr, pv.names) && |pv.names| == |pv.levels|
    requires WfForm(rest) && CompileTmplRest(cx, rest, d, pv).Some?
    requires Ready(CompileTmplRest(cx, rest, d, pv).value.0, pv.names, ss, d, env)
    ensures SyntaxRules.InstanceList(sr, escaped, rest, env, ren, out) <==>
      out == Inst(CompileTmplRest(cx, rest, d, pv).value.0, ss, d, ren)
    decreases rest, 2
  {
    hide SyntaxRules.Dots, IsEllipsis, Ready, Runs;
    if rest.FPair? { ListInstance(cx, sr, escaped, rest, d, pv, ss, env, ren, out); }
    else if !rest.FNil? { InstanceMeans(cx, sr, escaped, rest, d, pv, ss, env, ren, out); }
  }

  lemma {:induction false} ListInstance(cx: Context, sr: Syntax, escaped: bool, form: Form, d: nat, pv: PVars,
      ss: seq<State>, env: map<Ident, Binding>, ren: map<Ident, Ident>, out: Form)
    requires form.FPair? && Like(cx, sr, escaped) && Undotted(sr, pv.names) && |pv.names| == |pv.levels|
    requires WfForm(form) && CompileTmplList(cx, form, d, pv).Some?
    requires Ready(CompileTmplList(cx, form, d, pv).value.0, pv.names, ss, d, env)
    ensures SyntaxRules.InstanceList(sr, escaped, form, env, ren, out) <==>
      out == Inst(CompileTmplList(cx, form, d, pv).value.0, ss, d, ren)
    decreases form, 0
  {
    hide SyntaxRules.Dots, IsEllipsis, Ready, Runs, CompileTmpl, CompileTmplRest, Inst, Repeat, Times, Like, Undotted;
    hide SyntaxRules.Instance, SyntaxRules.InstanceList;
    DotsIs(cx, sr, escaped, form.car);
    if form.cdr.FPair? { DotsIs(cx, sr, escaped, form.cdr.car); }
    var rep := form.cdr.FPair? && SyntaxRules.Dots(sr, escaped, form.cdr.car);
    var rest := if rep then form.cdr.cdr else form.cdr;
    var lv := if rep then d + 1 else d;
    var t := CompileTmplList(cx, form, d, pv).value.0;
    var a, r := CompileTmpl(cx, form.car, lv, pv).value.0, CompileTmplRest(cx, rest, d, pv).value.0;
    assert t == TPair(if rep then TRep(a) else a, r);
    ReadyParts(t, pv.names, ss, d, env);
    forall o ensures SyntaxRules.InstanceList(sr, escaped, rest, env, ren, o) <==> o == Inst(r, ss, d, ren) {
      RestInstance(cx, sr, escaped, rest, d, pv, ss, env, ren, o);
    }
    if rep {
      TemplateVars(cx, sr, escaped, form.car, lv, pv);
      forall k, o | 0 <= k < Times(a, ss, d)
        ensures SyntaxRules.Instance(sr, escaped, form.car, SyntaxRules.Row(env, k), ren, o) <==>
          o == Inst(a, Peel(ss, d, k), d + 1, ren)
      {
        ReadyInner(a, pv.names, ss, d, env, k);
        InstanceMeans(cx, sr, escaped, form.car, lv, pv, Peel(ss, d, k), SyntaxRules.Row(env, k), ren, o);
      }
      RepeatedInstance(sr, escaped, form, a, r, pv.names, ss, d, env, ren, out);
    } else {
      forall o ensures SyntaxRules.Instance(sr, escaped, form.car, env, ren, o) <==> o == Inst(a, ss, d, ren) {
        InstanceMeans(cx, sr, escaped, form.car, lv, pv, ss, env, ren, o);
      }
      TmplNoRep(a, d, cx, form.car, pv);
      PairInstance(sr, escaped, form, a, r, ss, d, env, ren, out);
    }
  }

  lemma TmplNoRep(a: Tmpl, d: nat, cx: Context, form: Form, pv: PVars)
    requires WfForm(form) && CompileTmpl(cx, form, d, pv).Some? && a == CompileTmpl(cx, form, d, pv).value.0
    ensures !a.TRep?
  {
    CompiledTmpl(cx, form, d, pv);
  }

  lemma PairInstance(sr: Syntax, escaped: bool, form: Form, a: Tmpl, r: Tmpl, ss: seq<State>, d: nat,
      env: map<Ident, Binding>, ren: map<Ident, Ident>, out: Form)
    requires form.FPair? && !(form.cdr.FPair? && SyntaxRules.Dots(sr, escaped, form.cdr.car)) && !a.TRep?
    requires forall o :: SyntaxRules.Instance(sr, escaped, form.car, env, ren, o) <==> o == Inst(a, ss, d, ren)
    requires forall o :: SyntaxRules.InstanceList(sr, escaped, form.cdr, env, ren, o) <==> o == Inst(r, ss, d, ren)
    ensures SyntaxRules.InstanceList(sr, escaped, form, env, ren, out) <==> out == Inst(TPair(a, r), ss, d, ren)
  {
    hide SyntaxRules.Dots, SyntaxRules.Instance;
  }

  lemma RepeatedInstance(sr: Syntax, escaped: bool, form: Form, a: Tmpl, r: Tmpl, names: seq<Option<Ident>>,
      ss: seq<State>, d: nat, env: map<Ident, Binding>, ren: map<Ident, Ident>, out: Form)
    requires form.FPair? && form.cdr.FPair? && SyntaxRules.Dots(sr, escaped, form.cdr.car)
    requires Ready(TRep(a), names, ss, d, env) && SameVars(a, SyntaxRules.Identifiers(form.car), names)
    requires forall k, o :: 0 <= k < Times(a, ss, d) ==>
      (SyntaxRules.Instance(sr, escaped, form.car, SyntaxRules.Row(env, k), ren, o) <==>
       o == Inst(a, Peel(ss, d, k), d + 1, ren))
    requires forall o :: SyntaxRules.InstanceList(sr, escaped, form.cdr.cdr, env, ren, o) <==> o == Inst(r, ss, d, ren)
    ensures SyntaxRules.InstanceList(sr, escaped, form, env, ren, out) <==> out == Inst(TPair(TRep(a), r), ss, d, ren)
  {
    hide SyntaxRules.Dots, Ready, SameVars, Times, SyntaxRules.Instance, Inst, Repeat, SyntaxRules.Repeats;
    hide SyntaxRules.InstanceList;
    var n, tail := Times(a, ss, d), Inst(r, ss, d, ren);
    var all := Repeat(a, ss, d, ren, 0, n);
    InstOfRep(a, r, ss, d, ren);
    forall m: nat ensures SyntaxRules.Repeats(form.car, env, m) <==> m == n {
      RepeatsIs(a, form.car, names, ss, d, env, m);
    }
    forall k | 0 <= k < n ensures all[k] == Inst(a, Peel(ss, d, k), d + 1, ren) { RepeatAt(a, ss, d, ren, 0, n, k); }
    if SyntaxRules.InstanceList(sr, escaped, form, env, ren, out) {
      var es, o := Unfold(sr, escaped, form, env, ren, out);
      assert es == all && o == tail;
    }
    if out == Prepend(all, tail) {
      assert SyntaxRules.InstanceList(sr, escaped, form.cdr.cdr, env, ren, tail);
      Fold(sr, escaped, form, env, ren, out, all, tail);
    }
  }

  ghost predicate Unfolded(sr: Syntax, escaped: bool, form: Form, env: map<Ident, Binding>, ren: map<Ident, Ident>,
      out: Form, es: seq<Form>, r: Form)
    requires form.FPair? && form.cdr.FPair?
  {
    out == Prepend(es, r) && SyntaxRules.Repeats(form.car, env, |es|) &&
    (forall k :: 0 <= k < |es| ==>
       SyntaxRules.Instance(sr, escaped, form.car, SyntaxRules.Row(env, k), ren, es[k])) &&
    SyntaxRules.InstanceList(sr, escaped, form.cdr.cdr, env, ren, r)
  }

  lemma Unfold(sr: Syntax, escaped: bool, form: Form, env: map<Ident, Binding>, ren: map<Ident, Ident>, out: Form)
      returns (es: seq<Form>, r: Form)
    requires form.FPair? && form.cdr.FPair? && SyntaxRules.Dots(sr, escaped, form.cdr.car)
    requires SyntaxRules.InstanceList(sr, escaped, form, env, ren, out)
    ensures Unfolded(sr, escaped, form, env, ren, out, es, r)
  {
    hide SyntaxRules.Dots, SyntaxRules.Instance, SyntaxRules.Repeats;
    es, r :|
      out == Prepend(es, r) && SyntaxRules.Repeats(form.car, env, |es|) &&
      (forall k :: 0 <= k < |es| ==>
         SyntaxRules.Instance(sr, escaped, form.car, SyntaxRules.Row(env, k), ren, es[k])) &&
      SyntaxRules.InstanceList(sr, escaped, form.cdr.cdr, env, ren, r);
  }

  lemma Fold(sr: Syntax, escaped: bool, form: Form, env: map<Ident, Binding>, ren: map<Ident, Ident>, out: Form,
      es: seq<Form>, r: Form)
    requires form.FPair? && form.cdr.FPair? && SyntaxRules.Dots(sr, escaped, form.cdr.car)
    requires Unfolded(sr, escaped, form, env, ren, out, es, r)
    ensures SyntaxRules.InstanceList(sr, escaped, form, env, ren, out)
  {
    hide SyntaxRules.Dots, SyntaxRules.Instance, SyntaxRules.Repeats;
  }

  lemma InstOfRep(a: Tmpl, r: Tmpl, ss: seq<State>, d: nat, ren: map<Ident, Ident>)
    ensures Inst(TPair(TRep(a), r), ss, d, ren) ==
      Prepend(Repeat(a, ss, d, ren, 0, Times(a, ss, d)), Inst(r, ss, d, ren))
  {
  }
}
