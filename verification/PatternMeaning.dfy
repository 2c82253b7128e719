/** Compiling a pattern and matching forms against it mean what SyntaxRules says about
    the pattern as it is written. */
module PatternMeaning {
  import opened Forms
  import opened Patterns
  import opened Templates
  import opened Compiler
  import opened Nesting
  import SyntaxRules

  type Syntax = SyntaxRules.Syntax

  function Init(sr: Syntax): Context { InitContext(sr.ellipsis, sr.literals) }

  lemma DotsIs(sr: Syntax, f: Form)
    ensures IsEllipsis(Init(sr), f) <==> SyntaxRules.Dots(sr, false, f)
  {
  }

  /* ---- Which patterns are accepted, and what is entered ---- */

  ghost predicate ListOk(sr: Syntax, p: Form, seen: bool)
    requires p.FPair?
    decreases p, 0
  {
    !SyntaxRules.Dots(sr, false, p.car) && SyntaxRules.Pattern(sr, p.car) &&
    if p.cdr.FPair? && SyntaxRules.Dots(sr, false, p.cdr.car) then !seen && RestOk(sr, p.cdr.cdr, true)
    else RestOk(sr, p.cdr, seen)
  }

  ghost predicate RestOk(sr: Syntax, p: Form, seen: bool)
    decreases p, 1
  {
    if p.FPair? then ListOk(sr, p, seen) else SyntaxRules.Pattern(sr, p)
  }

  ghost predicate DotsAtMost(sr: Syntax, es: seq<Form>, seen: bool) {
    if seen then forall i :: 0 <= i < |es| ==> !SyntaxRules.Dots(sr, false, es[i])
    else forall i, j :: 0 <= i < j < |es| && SyntaxRules.Dots(sr, false, es[i]) ==> !SyntaxRules.Dots(sr, false, es[j])
  }

  /** Reading a list from left to right is the same as looking at its elements. */
  lemma {:induction false} ListOkIs(sr: Syntax, p: Form, seen: bool)
    requires p.FPair?
    ensures ListOk(sr, p, seen) <==>
      !SyntaxRules.Dots(sr, false, p.car) && !SyntaxRules.Dots(sr, false, SyntaxRules.End(p)) &&
      DotsAtMost(sr, SyntaxRules.Elements(p), seen) && SyntaxRules.Parts(sr, p)
    decreases p
  {
    hide SyntaxRules.Dots, SyntaxRules.Pattern;
    var es, rest := SyntaxRules.Elements(p), SyntaxRules.Elements(p.cdr);
    assert es == [p.car] + rest && (p.cdr.FPair? ==> rest[0] == p.cdr.car);
    EndPattern(sr, p);
    if p.cdr.FPair? {
      if SyntaxRules.Dots(sr, false, p.cdr.car) {
        var more := SyntaxRules.Elements(p.cdr.cdr);
        assert rest == [p.cdr.car] + more;
        assert SyntaxRules.Parts(sr, p.cdr) == SyntaxRules.Parts(sr, p.cdr.cdr);
        if p.cdr.cdr.FPair? {
          ListOkIs(sr, p.cdr.cdr, true);
          assert more[0] == p.cdr.cdr.car;
        }
        if !SyntaxRules.Dots(sr, false, p.car) { TwoDots(sr, p.car, p.cdr.car, more, seen); }
      } else {
        ListOkIs(sr, p.cdr, seen);
        if !SyntaxRules.Dots(sr, false, p.car) { OneMore(sr, p.car, rest, seen); }
      }
    } else {
      assert es == [p.car];
    }
  }

  lemma EndPattern(sr: Syntax, p: Form)
    requires p.FPair?
    ensures SyntaxRules.Pattern(sr, SyntaxRules.End(p)) ==> !SyntaxRules.Dots(sr, false, SyntaxRules.End(p))
    ensures !p.cdr.FPair? ==> SyntaxRules.End(p) == p.cdr
    ensures SyntaxRules.End(p) == SyntaxRules.End(p.cdr)
  {
    EndIsNoPair(p);
  }

  lemma {:induction false} EndIsNoPair(p: Form)
    ensures !SyntaxRules.End(p).FPair?
  {
    if p.FPair? { EndIsNoPair(p.cdr); }
  }

  lemma OneMore(sr: Syntax, a: Form, es: seq<Form>, seen: bool)
    requires !SyntaxRules.Dots(sr, false, a)
    ensures DotsAtMost(sr, [a] + es, seen) <==> DotsAtMost(sr, es, seen)
  {
    hide SyntaxRules.Dots;
    var all := [a] + es;
    assert forall i :: 0 <= i < |es| ==> all[i + 1] == es[i];
    if DotsAtMost(sr, es, seen) {
      forall i, j | 0 <= i < j < |all| && SyntaxRules.Dots(sr, false, all[i])
        ensures !SyntaxRules.Dots(sr, false, all[j])
      {
        assert all[i] == es[i - 1] && all[j] == es[j - 1];
      }
      forall i | seen && 0 <= i < |all| ensures !SyntaxRules.Dots(sr, false, all[i]) {
        if i > 0 { assert all[i] == es[i - 1]; }
      }
    }
  }

  lemma TwoDots(sr: Syntax, a: Form, dots: Form, es: seq<Form>, seen: bool)
    requires !SyntaxRules.Dots(sr, false, a) && SyntaxRules.Dots(sr, false, dots)
    ensures DotsAtMost(sr, [a] + ([dots] + es), seen) <==> !seen && DotsAtMost(sr, es, true)
  {
    hide SyntaxRules.Dots;
    var all := [a] + ([dots] + es);
    assert all[1] == dots && forall i :: 0 <= i < |es| ==> all[i + 2] == es[i];
    if !seen && DotsAtMost(sr, es, true) {
      forall i, j | 0 <= i < j < |all| && SyntaxRules.Dots(sr, false, all[i])
        ensures !SyntaxRules.Dots(sr, false, all[j])
      {
        if j >= 2 { assert all[j] == es[j - 2]; }
      }
    }
    if !seen && DotsAtMost(sr, all, seen) {
      forall i | 0 <= i < |es| ensures !SyntaxRules.Dots(sr, false, es[i]) { assert all[i + 2] == es[i]; }
    }
  }

  /** The pattern compiles exactly if it is one and no variable is entered twice; the
      table then has its variables in front, with their levels. */
  ghost predicate Enters(sr: Syntax, ok: bool, form: Form, level: nat, st: PVars, r: Option<(Pat, PVars)>) {
    (r.Some? <==> ok && SyntaxRules.Once(SyntaxRules.Variables(sr, form) + st.names)) &&
    (r.Some? ==>
      (r.value.1.names == SyntaxRules.Variables(sr, form) + st.names &&
       r.value.1.levels == SyntaxRules.Depths(sr, form, level) + st.levels))
  }

  lemma {:induction false} PatternEnters(sr: Syntax, form: Form, level: nat, st: PVars)
    requires WfForm(form) && !SyntaxRules.Dots(sr, false, form) && SyntaxRules.Once(st.names)
    ensures Enters(sr, SyntaxRules.Pattern(sr, form), form, level, st, CompilePat(Init(sr), form, level, st))
    decreases form, 1
  {
    hide SyntaxRules.Dots, IsEllipsis;
    match form
    case FPair(_, _) =>
      ListEnters(sr, form, level, st, false);
      ListOkIs(sr, form, false);
    case FVec(items) =>
      if items.FPair? {
        ListEnters(sr, items, level, st, false);
        ListOkIs(sr, items, false);
        LastIs(sr, items);
      } else {
        assert SyntaxRules.Elements(items) == [] && SyntaxRules.Variables(sr, form) + st.names == st.names;
        assert SyntaxRules.Depths(sr, form, level) + st.levels == st.levels;
      }
    case FId(x) => IdEnters(sr, x, level, st);
    case _ =>
      assert SyntaxRules.Variables(sr, form) + st.names == st.names;
      assert SyntaxRules.Depths(sr, form, level) + st.levels == st.levels;
  }

  lemma {:induction false} LastIs(sr: Syntax, items: Form)
    requires IsList(items)
    ensures EllipsisLast(Init(sr), items) <==>
      forall i :: 0 <= i < |SyntaxRules.Elements(items)| - 1 ==>
        !SyntaxRules.Dots(sr, false, SyntaxRules.Elements(items)[i])
  {
    hide SyntaxRules.Dots, IsEllipsis;
    if items.FPair? {
      var es, rest := SyntaxRules.Elements(items), SyntaxRules.Elements(items.cdr);
      assert es == [items.car] + rest;
      DotsIs(sr, items.car);
      LastIs(sr, items.cdr);
      assert forall i :: 0 <= i < |rest| ==> es[i + 1] == rest[i];
      if EllipsisLast(Init(sr), items) {
        forall i | 0 <= i < |es| - 1 ensures !SyntaxRules.Dots(sr, false, es[i]) {
          if i > 0 {
            assert es[i] == rest[i - 1] && !SyntaxRules.Dots(sr, false, SyntaxRules.Elements(items.cdr)[i - 1]);
          } else {
            assert es[0] == items.car && items.cdr.FPair? && !IsEllipsis(Init(sr), items.car);
          }
        }
      }
      if forall i :: 0 <= i < |es| - 1 ==> !SyntaxRules.Dots(sr, false, es[i]) {
        if items.cdr.FPair? { assert es[0] == items.car; }
        forall i | 0 <= i < |rest| - 1 ensures !SyntaxRules.Dots(sr, false, rest[i]) { assert es[i + 1] == rest[i]; }
      }
    }
  }

  lemma IdEnters(sr: Syntax, x: Ident, level: nat, st: PVars)
    requires !SyntaxRules.Dots(sr, false, FId(x)) && SyntaxRules.Once(st.names)
    ensures Enters(sr, SyntaxRules.Pattern(sr, FId(x)), FId(x), level, st,
      CompilePat(Init(sr), FId(x), level, st))
  {
    var v := SyntaxRules.Variables(sr, FId(x));
    if x in sr.literals {
      assert v + st.names == st.names && SyntaxRules.Depths(sr, FId(x), level) + st.levels == st.levels;
    } else {
      var all := v + st.names;
      assert forall i :: 0 < i < |all| ==> all[i] == st.names[i - 1];
      if Root(x) != UNDERSCORE && Some(x) in st.names {
        var j :| 0 <= j < |st.names| && st.names[j] == Some(x);
        assert all[0] == all[j + 1];
      }
    }
  }

  lemma OnceParts(a: seq<Option<Ident>>, b: seq<Option<Ident>>)
    requires SyntaxRules.Once(a + b)
    ensures SyntaxRules.Once(b)
  {
    forall i, j | 0 <= i < j < |b| && b[i].Some? ensures b[i] != b[j] {
      assert (a + b)[|a| + i] == b[i] && (a + b)[|a| + j] == b[j];
    }
  }

  lemma {:induction false} ListEnters(sr: Syntax, form: Form, level: nat, st: PVars, seen: bool)
    requires form.FPair? && WfForm(form) && SyntaxRules.Once(st.names)
    ensures Enters(sr, ListOk(sr, form, seen), form, level, st, CompilePatList(Init(sr), form, level, st, seen))
    decreases form, 0
  {
    hide SyntaxRules.Dots, IsEllipsis, SyntaxRules.Once, CompilePat, CompilePatRest, NewVars;
    DotsIs(sr, form.car);
    if form.cdr.FPair? { DotsIs(sr, form.cdr.car); }
    if !SyntaxRules.Dots(sr, false, form.car) {
      var rep := form.cdr.FPair? && SyntaxRules.Dots(sr, false, form.cdr.car);
      var rest := if rep then form.cdr.cdr else form.cdr;
      var lv := if rep then level + 1 else level;
      var va, vr := SyntaxRules.Variables(sr, form.car), SyntaxRules.Variables(sr, rest);
      if rep { NoVariables(sr, form.cdr); }
      assert SyntaxRules.Variables(sr, form) == vr + va;
      assert vr + va + st.names == vr + (va + st.names);
      var da, dr := SyntaxRules.Depths(sr, form.car, lv), SyntaxRules.Depths(sr, rest, level);
      assert SyntaxRules.Depths(sr, form, level) == dr + da && dr + da + st.levels == dr + (da + st.levels);
      PatternEnters(sr, form.car, lv, st);
      var a := CompilePat(Init(sr), form.car, lv, st);
      if SyntaxRules.Once(vr + (va + st.names)) { OnceParts(vr, va + st.names); }
      if a.Some? { RestEnters(sr, rest, level, a.value.1, seen || rep); }
    }
  }

  lemma NoVariables(sr: Syntax, p: Form)
    requires p.FPair? && SyntaxRules.Dots(sr, false, p.car)
    ensures SyntaxRules.Variables(sr, p) == SyntaxRules.Variables(sr, p.cdr)
  {
  }

  lemma {:induction false} RestEnters(sr: Syntax, rest: Form, level: nat, st: PVars, seen: bool)
    requires WfForm(rest) && SyntaxRules.Once(st.names)
    ensures Enters(sr, RestOk(sr, rest, seen), rest, level, st, CompilePatRest(Init(sr), rest, level, st, seen))
    decreases rest, 2
  {
    hide SyntaxRules.Dots, IsEllipsis;
    DotsIs(sr, rest);
    if rest.FPair? { ListEnters(sr, rest, level, st, seen); }
    else if rest.FNil? {
      assert SyntaxRules.Variables(sr, rest) + st.names == st.names;
      assert SyntaxRules.Depths(sr, rest, level) + st.levels == st.levels;
      NilPattern(sr);
    }
    else if !SyntaxRules.Dots(sr, false, rest) { PatternEnters(sr, rest, level, st); }
    else { DotsNoPattern(sr, rest); }
  }

  lemma NilPattern(sr: Syntax)
    ensures SyntaxRules.Pattern(sr, FNil)
  {
  }

  lemma DotsNoPattern(sr: Syntax, f: Form)
    requires SyntaxRules.Dots(sr, false, f)
    ensures !SyntaxRules.Pattern(sr, f)
  {
  }

  /* ---- What a compiled pattern matches ---- */

  /** Each variable is bound to its binding. */
  ghost predicate Agree(vars: seq<Option<Ident>>, bs: seq<Binding>, env: map<Ident, Binding>) {
    |vars| == |bs| &&
    forall i :: 0 <= i < |vars| && vars[i].Some? ==> vars[i].value in env && env[vars[i].value] == bs[i]
  }

  lemma AgreeParts(v: seq<Option<Ident>>, bs: seq<Binding>, v': seq<Option<Ident>>, bs': seq<Binding>,
      env: map<Ident, Binding>)
    requires |v| == |bs| && |v'| == |bs'|
    ensures Agree(v + v', bs + bs', env) <==> Agree(v, bs, env) && Agree(v', bs', env)
  {
    if Agree(v + v', bs + bs', env) {
      forall i | 0 <= i < |v| && v[i].Some? ensures v[i].value in env && env[v[i].value] == bs[i] {
        assert (v + v')[i] == v[i] && (bs + bs')[i] == bs[i];
      }
      forall i | 0 <= i < |v'| && v'[i].Some? ensures v'[i].value in env && env[v'[i].value] == bs'[i] {
        assert (v + v')[|v| + i] == v'[i] && (bs + bs')[|v| + i] == bs'[i];
      }
    }
  }

  /** The compiled pattern gives the bindings exactly if the form matches as written. */
  ghost predicate Means(sr: Syntax, same: (Ident, Ident) -> bool, form: Form, p: Pat, f: Form, env: map<Ident, Binding>)
  {
    SyntaxRules.Matches(sr, same, form, f, env) <==>
    MatchSpec(same, p, f).Some? && Agree(SyntaxRules.Variables(sr, form), MatchSpec(same, p, f).value, env)
  }

  lemma Sizes(sr: Syntax, form: Form, level: nat, st: PVars)
    requires WfForm(form) && !SyntaxRules.Dots(sr, false, form) && SyntaxRules.Once(st.names)
    requires CompilePat(Init(sr), form, level, st).Some?
    ensures
      var r := CompilePat(Init(sr), form, level, st).value;
      |SyntaxRules.Variables(sr, form)| == PvCount(r.0) == NewVars(st, r.1) && !r.0.PRep? &&
      SyntaxRules.Once(r.1.names)
  {
    hide SyntaxRules.Dots;
    PatternEnters(sr, form, level, st);
    CompiledPat(Init(sr), form, level, st);
  }

  lemma RestSizes(sr: Syntax, rest: Form, level: nat, st: PVars, seen: bool)
    requires WfForm(rest) && SyntaxRules.Once(st.names) && CompilePatRest(Init(sr), rest, level, st, seen).Some?
    ensures
      var r := CompilePatRest(Init(sr), rest, level, st, seen).value;
      |SyntaxRules.Variables(sr, rest)| == PvCount(r.0)
  {
    RestEnters(sr, rest, level, st, seen);
    CompiledPatRest(Init(sr), rest, level, st, seen);
  }

  /** After an ellipsis there is a pattern for each pair. */
  lemma {:induction false} RestPairs(sr: Syntax, rest: Form, level: nat, st: PVars)
    requires CompilePatRest(Init(sr), rest, level, st, true).Some?
    ensures PatPairs(CompilePatRest(Init(sr), rest, level, st, true).value.0) == CountPairs(rest)
    decreases rest
  {
    hide IsEllipsis;
    if rest.FPair? {
      ListParts(Init(sr), rest, level, st, true);
      RestPairs(sr, rest.cdr, level, CompilePat(Init(sr), rest.car, level, st).value.1);
    }
  }

  /** A vector matches as its items do. */
  lemma VecMeans(sr: Syntax, same: (Ident, Ident) -> bool, form: Form, level: nat, st: PVars, f: Form,
      env: map<Ident, Binding>)
    requires WfForm(form) && form.FVec? && CompilePat(Init(sr), form, level, st).Some?
    requires form.items.FPair? && f.FVec? ==>
      CompilePatList(Init(sr), form.items, level, st, false).Some? &&
      Means(sr, same, form.items, CompilePatList(Init(sr), form.items, level, st, false).value.0, f.items, env)
    ensures Means(sr, same, form, CompilePat(Init(sr), form, level, st).value.0, f, env)
  {
    hide SyntaxRules.Dots, IsEllipsis;
    var p := CompilePat(Init(sr), form, level, st).value.0;
    assert SyntaxRules.Variables(sr, form) == SyntaxRules.Variables(sr, form.items);
    if !f.FVec? {
      assert MatchSpec(same, p, f).None?;
    } else if form.items.FPair? {
      assert MatchSpec(same, p, f) == MatchSpec(same, p.items, f.items);
    } else {
      assert SyntaxRules.Variables(sr, form.items) == [];
      assert p == PVec(PNil);
      assert MatchSpec(same, p, f) == MatchSpec(same, PNil, f.items);
      assert SyntaxRules.Matches(sr, same, form.items, f.items, env) <==> f.items.FNil?;
    }
  }

  lemma {:induction false} PatternMeans(sr: Syntax, same: (Ident, Ident) -> bool, form: Form, level: nat, st: PVars,
      f: Form, env: map<Ident, Binding>)
    requires WfForm(form) && !SyntaxRules.Dots(sr, false, form) && SyntaxRules.Once(st.names)
    requires CompilePat(Init(sr), form, level, st).Some?
    ensures Means(sr, same, form, CompilePat(Init(sr), form, level, st).value.0, f, env)
    decreases form, 1
  {
    hide SyntaxRules.Dots, IsEllipsis, SyntaxRules.Once;
    match form
    case FPair(_, _) => ListMeans(sr, same, form, level, st, false, f, env);
    case FVec(items) =>
      if items.FPair? && f.FVec? { ListMeans(sr, same, items, level, st, false, f.items, env); }
      VecMeans(sr, same, form, level, st, f, env);
    case _ => LeafMeans(sr, same, form, level, st, f, env);
  }

  lemma LeafMeans(sr: Syntax, same: (Ident, Ident) -> bool, form: Form, level: nat, st: PVars, f: Form,
      env: map<Ident, Binding>)
    requires !SyntaxRules.Dots(sr, false, form) && (form.FNil? || form.FAtom? || form.FId?)
    requires CompilePat(Init(sr), form, level, st).Some?
    ensures Means(sr, same, form, CompilePat(Init(sr), form, level, st).value.0, f, env)
  {
    hide SyntaxRules.Dots;
    if form.FId? && form.id !in sr.literals {
      var vars := SyntaxRules.Variables(sr, form);
      assert MatchSpec(same, PVar, f) == Some([One(f)]) && |vars| == 1;
      assert Agree(vars, [One(f)], env) <==> (vars[0].Some? ==> form.id in env && env[form.id] == One(f));
    }
  }

  lemma {:induction false} RestMeans(sr: Syntax, same: (Ident, Ident) -> bool, rest: Form, level: nat, st: PVars,
      seen: bool, f: Form, env: map<Ident, Binding>)
    requires WfForm(rest) && SyntaxRules.Once(st.names) && CompilePatRest(Init(sr), rest, level, st, seen).Some?
    ensures Means(sr, same, rest, CompilePatRest(Init(sr), rest, level, st, seen).value.0, f, env)
    decreases rest, 2
  {
    hide SyntaxRules.Dots, IsEllipsis, SyntaxRules.Once;
    DotsIs(sr, rest);
    if rest.FPair? { ListMeans(sr, same, rest, level, st, seen, f, env); }
    else if !rest.FNil? { PatternMeans(sr, same, rest, level, st, f, env); }
  }

  lemma {:induction false} ListMeans(sr: Syntax, same: (Ident, Ident) -> bool, form: Form, level: nat, st: PVars,
      seen: bool, f: Form, env: map<Ident, Binding>)
    requires form.FPair? && WfForm(form) && SyntaxRules.Once(st.names)
    requires CompilePatList(Init(sr), form, level, st, seen).Some?
    ensures Means(sr, same, form, CompilePatList(Init(sr), form, level, st, seen).value.0, f, env)
    decreases form, 0
  {
    hide SyntaxRules.Dots, IsEllipsis, SyntaxRules.Once, CompilePat, CompilePatRest, CompilePatList, NewVars, Means;
    ListParts(Init(sr), form, level, st, seen);
    DotsIs(sr, form.car);
    if form.cdr.FPair? { DotsIs(sr, form.cdr.car); }
    NotDots(sr, form, level, st, seen);
    var rep := form.cdr.FPair? && SyntaxRules.Dots(sr, false, form.cdr.car);
    var rest := if rep then form.cdr.cdr else form.cdr;
    var lv := if rep then level + 1 else level;
    var (q, st1) := CompilePat(Init(sr), form.car, lv, st).value;
    Sizes(sr, form.car, lv, st);
    RestSizes(sr, rest, level, st1, seen || rep);
    var pd := CompilePatRest(Init(sr), rest, level, st1, seen || rep).value.0;
    forall f', env' ensures Means(sr, same, form.car, q, f', env') {
      PatternMeans(sr, same, form.car, lv, st, f', env');
    }
    forall f', env' ensures Means(sr, same, rest, pd, f', env') {
      RestMeans(sr, same, rest, level, st1, seen || rep, f', env');
    }
    if rep {
      RestPairs(sr, rest, level, st1);
      RepeatedMeans(sr, same, form, q, pd, f, env);
    } else {
      PairMeans(sr, same, form, q, pd, f, env);
    }
  }

  lemma NotDots(sr: Syntax, form: Form, level: nat, st: PVars, seen: bool)
    requires form.FPair? && CompilePatList(Init(sr), form, level, st, seen).Some?
    ensures !IsEllipsis(Init(sr), form.car)
  {
  }

  lemma PairMeans(sr: Syntax, same: (Ident, Ident) -> bool, form: Form, q: Pat, pd: Pat, f: Form,
      env: map<Ident, Binding>)
    requires form.FPair? && !(form.cdr.FPair? && SyntaxRules.Dots(sr, false, form.cdr.car)) && !q.PRep?
    requires |SyntaxRules.Variables(sr, form.car)| == PvCount(q) && |SyntaxRules.Variables(sr, form.cdr)| == PvCount(pd)
    requires forall f', env' :: Means(sr, same, form.car, q, f', env')
    requires forall f', env' :: Means(sr, same, form.cdr, pd, f', env')
    ensures Means(sr, same, form, PPair(q, pd), f, env)
  {
    hide SyntaxRules.Dots;
    if f.FPair? {
      assert Means(sr, same, form.car, q, f.car, env) && Means(sr, same, form.cdr, pd, f.cdr, env);
      var ba, bd := MatchSpec(same, q, f.car), MatchSpec(same, pd, f.cdr);
      if ba.Some? && bd.Some? {
        AgreeParts(SyntaxRules.Variables(sr, form.cdr), bd.value, SyntaxRules.Variables(sr, form.car), ba.value, env);
      }
    }
  }

  lemma RepeatedMeans(sr: Syntax, same: (Ident, Ident) -> bool, form: Form, q: Pat, pd: Pat, f: Form,
      env: map<Ident, Binding>)
    requires form.FPair? && form.cdr.FPair? && SyntaxRules.Dots(sr, false, form.cdr.car)
    requires PatPairs(pd) == CountPairs(form.cdr.cdr)
    requires |SyntaxRules.Variables(sr, form.car)| == PvCount(q)
    requires |SyntaxRules.Variables(sr, form.cdr.cdr)| == PvCount(pd)
    requires forall f', env' :: Means(sr, same, form.car, q, f', env')
    requires forall f', env' :: Means(sr, same, form.cdr.cdr, pd, f', env')
    ensures Means(sr, same, form, PPair(PRep(q, PvCount(q)), pd), f, env)
  {
    hide SyntaxRules.Dots, Means, Rel, MatchSpec;
    var p, vars := PPair(PRep(q, PvCount(q)), pd), SyntaxRules.Variables(sr, form);
    if SyntaxRules.Matches(sr, same, form, f, env) {
      var es, r := Unfold(sr, same, form, f, env);
      RepeatedGives(sr, same, form, q, pd, f, env, es, r);
    }
    if MatchSpec(same, p, f).Some? && Agree(vars, MatchSpec(same, p, f).value, env) {
      RepeatedHolds(sr, same, form, q, pd, f, env);
    }
    MeansIs(sr, same, form, p, f, env);
  }

  lemma MeansIs(sr: Syntax, same: (Ident, Ident) -> bool, form: Form, p: Pat, f: Form, env: map<Ident, Binding>)
    ensures Means(sr, same, form, p, f, env) <==>
      (SyntaxRules.Matches(sr, same, form, f, env) <==>
       MatchSpec(same, p, f).Some? && Agree(SyntaxRules.Variables(sr, form), MatchSpec(same, p, f).value, env))
  {
  }

  ghost predicate Unfolded(sr: Syntax, same: (Ident, Ident) -> bool, form: Form, f: Form, env: map<Ident, Binding>,
      es: seq<Form>, r: Form)
    requires form.FPair? && form.cdr.FPair?
  {
    f == Prepend(es, r) && CountPairs(r) == CountPairs(form.cdr.cdr) &&
    (forall x :: x in SyntaxRules.Names(sr, form.car) ==> x in env && env[x].Many? && |env[x].items| == |es|) &&
    (forall k :: 0 <= k < |es| ==> SyntaxRules.Matches(sr, same, form.car, es[k], SyntaxRules.Row(env, k))) &&
    SyntaxRules.Matches(sr, same, form.cdr.cdr, r, env)
  }

  lemma Unfold(sr: Syntax, same: (Ident, Ident) -> bool, form: Form, f: Form, env: map<Ident, Binding>)
      returns (es: seq<Form>, r: Form)
    requires form.FPair? && form.cdr.FPair? && SyntaxRules.Dots(sr, false, form.cdr.car)
    requires SyntaxRules.Matches(sr, same, form, f, env)
    ensures Unfolded(sr, same, form, f, env, es, r)
  {
    hide SyntaxRules.Dots;
    es, r :|
      f == Prepend(es, r) && CountPairs(r) == CountPairs(form.cdr.cdr) &&
      (forall x :: x in SyntaxRules.Names(sr, form.car) ==> x in env && env[x].Many? && |env[x].items| == |es|) &&
      (forall k :: 0 <= k < |es| ==> SyntaxRules.Matches(sr, same, form.car, es[k], SyntaxRules.Row(env, k))) &&
      SyntaxRules.Matches(sr, same, form.cdr.cdr, r, env);
  }

  lemma Fold(sr: Syntax, same: (Ident, Ident) -> bool, form: Form, f: Form, env: map<Ident, Binding>, es: seq<Form>,
      r: Form)
    requires form.FPair? && form.cdr.FPair? && SyntaxRules.Dots(sr, false, form.cdr.car)
    requires Unfolded(sr, same, form, f, env, es, r)
    ensures SyntaxRules.Matches(sr, same, form, f, env)
  {
    hide SyntaxRules.Dots;
  }

  lemma RepeatedGives(sr: Syntax, same: (Ident, Ident) -> bool, form: Form, q: Pat, pd: Pat, f: Form,
      env: map<Ident, Binding>, es: seq<Form>, r: Form)
    requires form.FPair? && form.cdr.FPair? && SyntaxRules.Dots(sr, false, form.cdr.car)
    requires PatPairs(pd) == CountPairs(form.cdr.cdr) && Unfolded(sr, same, form, f, env, es, r)
    requires |SyntaxRules.Variables(sr, form.car)| == PvCount(q)
    requires |SyntaxRules.Variables(sr, form.cdr.cdr)| == PvCount(pd)
    requires forall f', env' :: Means(sr, same, form.car, q, f', env')
    requires forall f', env' :: Means(sr, same, form.cdr.cdr, pd, f', env')
    ensures
      var p := PPair(PRep(q, PvCount(q)), pd);
      MatchSpec(same, p, f).Some? && Agree(SyntaxRules.Variables(sr, form), MatchSpec(same, p, f).value, env)
  {
    hide SyntaxRules.Dots, Rel, MatchSpec, SyntaxRules.Matches;
    var p, w := PPair(PRep(q, PvCount(q)), pd), PvCount(q);
    var va, vr := SyntaxRules.Variables(sr, form.car), SyntaxRules.Variables(sr, form.cdr.cdr);
    NoVariables(sr, form.cdr);
    forall k | 0 <= k < |es|
      ensures MatchSpec(same, q, es[k]).Some? && Agree(va, MatchSpec(same, q, es[k]).value, SyntaxRules.Row(env, k))
    {
      assert Means(sr, same, form.car, q, es[k], SyntaxRules.Row(env, k));
    }
    var rows := seq(|es|, k requires 0 <= k < |es| => MatchSpec(same, q, es[k]).value);
    assert Means(sr, same, form.cdr.cdr, pd, r, env);
    var bt := MatchSpec(same, pd, r).value;
    forall k | 0 <= k < |es| ensures Rel(same, q, es[k], rows[k]) && |rows[k]| == w {
      MatchIsRelation(same, q, es[k], rows[k]);
    }
    MatchIsRelation(same, pd, r, bt);
    RelOf(same, q, pd, f, es, r, rows, bt);
    MatchIsRelation(same, p, f, bt + Transpose(rows, w));
    forall i | 0 <= i < |va| && va[i].Some? ensures env[va[i].value] == Column(rows, i) {
      var x := va[i].value;
      assert x in SyntaxRules.Names(sr, form.car);
      forall k | 0 <= k < |es| ensures env[x].items[k] == rows[k][i] {
        assert Agree(va, rows[k], SyntaxRules.Row(env, k));
      }
      assert env[x].items == Column(rows, i).items;
    }
    AgreeParts(vr, bt, va, Transpose(rows, w), env);
  }

  lemma RelOf(same: (Ident, Ident) -> bool, q: Pat, pd: Pat, f: Form, es: seq<Form>, r: Form,
      rows: seq<seq<Binding>>, bt: seq<Binding>)
    requires f == Prepend(es, r) && CountPairs(r) == PatPairs(pd) && |rows| == |es| && Rel(same, pd, r, bt)
    requires forall k :: 0 <= k < |es| ==> |rows[k]| == PvCount(q) && Rel(same, q, es[k], rows[k])
    ensures Rel(same, PPair(PRep(q, PvCount(q)), pd), f, bt + Transpose(rows, PvCount(q)))
  {
    assert Split(f, es, r, pd) && RelRows(same, q, es, rows);
  }

  lemma RepeatedHolds(sr: Syntax, same: (Ident, Ident) -> bool, form: Form, q: Pat, pd: Pat, f: Form,
      env: map<Ident, Binding>)
    requires form.FPair? && form.cdr.FPair? && SyntaxRules.Dots(sr, false, form.cdr.car)
    requires PatPairs(pd) == CountPairs(form.cdr.cdr)
    requires |SyntaxRules.Variables(sr, form.car)| == PvCount(q)
    requires |SyntaxRules.Variables(sr, form.cdr.cdr)| == PvCount(pd)
    requires forall f', env' :: Means(sr, same, form.car, q, f', env')
    requires forall f', env' :: Means(sr, same, form.cdr.cdr, pd, f', env')
    requires
      var p := PPair(PRep(q, PvCount(q)), pd);
      MatchSpec(same, p, f).Some? && Agree(SyntaxRules.Variables(sr, form), MatchSpec(same, p, f).value, env)
    ensures SyntaxRules.Matches(sr, same, form, f, env)
  {
    hide SyntaxRules.Dots, MatchSpec, SyntaxRules.Matches, Rel, Agree, Transpose;
    var p, w := PPair(PRep(q, PvCount(q)), pd), PvCount(q);
    var bs := MatchSpec(same, p, f).value;
    var es, r, rows, bt := RelatedParts(same, q, pd, f, bs);
    var va, vr := SyntaxRules.Variables(sr, form.car), SyntaxRules.Variables(sr, form.cdr.cdr);
    NoVariables(sr, form.cdr);
    AgreeParts(vr, bt, va, Transpose(rows, w), env);
    assert Means(sr, same, form.cdr.cdr, pd, r, env);
    forall x | x in SyntaxRules.Names(sr, form.car) ensures x in env && env[x].Many? && |env[x].items| == |es| {
      var i :| 0 <= i < |va| && va[i] == Some(x);
      ColumnBound(va, rows, env, i);
    }
    forall k | 0 <= k < |es| ensures SyntaxRules.Matches(sr, same, form.car, es[k], SyntaxRules.Row(env, k)) {
      RowAgrees(va, rows, env, k);
      assert Means(sr, same, form.car, q, es[k], SyntaxRules.Row(env, k));
    }
    Fold(sr, same, form, f, env, es, r);
  }

  lemma RelatedParts(same: (Ident, Ident) -> bool, q: Pat, pd: Pat, f: Form, bs: seq<Binding>)
      returns (es: seq<Form>, r: Form, rows: seq<seq<Binding>>, bt: seq<Binding>)
    requires MatchSpec(same, PPair(PRep(q, PvCount(q)), pd), f) == Some(bs)
    ensures f == Prepend(es, r) && CountPairs(r) == PatPairs(pd) && MatchSpec(same, pd, r) == Some(bt)
    ensures |rows| == |es| && forall k :: 0 <= k < |es| ==>
      |rows[k]| == PvCount(q) && MatchSpec(same, q, es[k]) == Some(rows[k])
    ensures bs == bt + Transpose(rows, PvCount(q)) && |bt| == PvCount(pd)
  {
    hide MatchSpec;
    MatchIsRelation(same, PPair(PRep(q, PvCount(q)), pd), f, bs);
    es, r, rows, bt :|
      Split(f, es, r, pd) && RelRows(same, q, es, rows) && Rel(same, pd, r, bt) &&
      bs == bt + Transpose(rows, PvCount(q));
    MatchIsRelation(same, pd, r, bt);
    forall k | 0 <= k < |es| ensures MatchSpec(same, q, es[k]) == Some(rows[k]) {
      MatchIsRelation(same, q, es[k], rows[k]);
    }
  }

  lemma ColumnBound(va: seq<Option<Ident>>, rows: seq<seq<Binding>>, env: map<Ident, Binding>, i: nat)
    requires i < |va| && va[i].Some? && forall k :: 0 <= k < |rows| ==> |rows[k]| == |va|
    requires Agree(va, Transpose(rows, |va|), env)
    ensures va[i].value in env && env[va[i].value] == Column(rows, i)
  {
  }

  lemma RowAgrees(va: seq<Option<Ident>>, rows: seq<seq<Binding>>, env: map<Ident, Binding>, k: nat)
    requires k < |rows| && (forall j :: 0 <= j < |rows| ==> |rows[j]| == |va|) && Agree(va, Transpose(rows, |va|), env)
    ensures Agree(va, rows[k], SyntaxRules.Row(env, k))
  {
    hide Transpose;
    forall i | 0 <= i < |va| && va[i].Some?
      ensures va[i].value in SyntaxRules.Row(env, k) && SyntaxRules.Row(env, k)[va[i].value] == rows[k][i]
    {
      ColumnBound(va, rows, env, i);
    }
  }

  /* ---- Whole patterns ---- */

  lemma {:induction false} AssocIs<T>(vars: seq<Option<Ident>>, vals: seq<T>)
    requires |vars| == |vals| && SyntaxRules.Once(vars)
    ensures forall i :: 0 <= i < |vars| && vars[i].Some? ==>
      vars[i].value in SyntaxRules.Assoc(vars, vals) && SyntaxRules.Assoc(vars, vals)[vars[i].value] == vals[i]
    ensures SyntaxRules.Assoc(vars, vals).Keys == set v | v in vars && v.Some? :: v.value
  {
    if vars != [] {
      var rest := vars[1..];
      assert vars == [vars[0]] + rest;
      OnceParts([vars[0]], rest);
      AssocIs(rest, vals[1..]);
      forall i | 0 < i < |vars| && vars[i].Some?
        ensures vars[i].value in SyntaxRules.Assoc(vars, vals) &&
          SyntaxRules.Assoc(vars, vals)[vars[i].value] == vals[i]
      {
        assert vars[i] == rest[i - 1];
      }
    }
  }

  lemma AssocAgrees(vars: seq<Option<Ident>>, bs: seq<Binding>)
    requires |vars| == |bs| && SyntaxRules.Once(vars)
    ensures Agree(vars, bs, SyntaxRules.Assoc(vars, bs))
    ensures SyntaxRules.Assoc(vars, bs).Keys == set v | v in vars && v.Some? :: v.value
  {
    AssocIs(vars, bs);
  }

  lemma AgreeOnce(vars: seq<Option<Ident>>, bs: seq<Binding>, env: map<Ident, Binding>)
    requires Agree(vars, bs, env) && SyntaxRules.Once(vars) && env.Keys == set v | v in vars && v.Some? :: v.value
    ensures env == SyntaxRules.Assoc(vars, bs)
  {
    AssocIs(vars, bs);
    forall x | x in env ensures env[x] == SyntaxRules.Assoc(vars, bs)[x] {
      var i :| 0 <= i < |vars| && vars[i] == Some(x);
    }
  }

  /** The form matches with exactly the variables of the pattern bound. */
  ghost predicate Binds(sr: Syntax, same: (Ident, Ident) -> bool, pattern: Form, f: Form, env: map<Ident, Binding>) {
    env.Keys == SyntaxRules.Names(sr, pattern) && SyntaxRules.Matches(sr, same, pattern, f, env)
  }

  /** A pattern compiles exactly if it is one in which no variable occurs twice, and the
      table has its variables. */
  lemma Accepted(sr: Syntax, pattern: Form)
    requires WfForm(pattern)
    ensures
      var r := WholePattern(Init(sr), pattern);
      (r.Some? <==> SyntaxRules.Pattern(sr, pattern) && SyntaxRules.Once(SyntaxRules.Variables(sr, pattern))) &&
      (r.Some? ==>
        (r.value.1.names == SyntaxRules.Variables(sr, pattern) && PvCount(r.value.0) == |r.value.1.names| &&
         r.value.1.levels == SyntaxRules.Depths(sr, pattern, 0)))
  {
    hide SyntaxRules.Dots;
    DotsIs(sr, pattern);
    if SyntaxRules.Dots(sr, false, pattern) {
      DotsNoPattern(sr, pattern);
    } else {
      PatternEnters(sr, pattern, 0, PVars([], []));
      assert SyntaxRules.Variables(sr, pattern) + [] == SyntaxRules.Variables(sr, pattern);
      assert SyntaxRules.Depths(sr, pattern, 0) + [] == SyntaxRules.Depths(sr, pattern, 0);
      if CompilePat(Init(sr), pattern, 0, PVars([], [])).Some? { Sizes(sr, pattern, 0, PVars([], [])); }
    }
  }

  /** The compiled pattern matches exactly the forms that the pattern matches, a literal
      only what is the same, and its bindings are those of the variables. */
  lemma CompiledPatternMeans(sr: Syntax, same: (Ident, Ident) -> bool, pattern: Form, f: Form)
    requires WfForm(pattern) && WholePattern(Init(sr), pattern).Some?
    ensures
      var (p, pv) := WholePattern(Init(sr), pattern).value;
      var bs := MatchSpec(same, p, f);
      (bs.Some? <==> exists env :: Binds(sr, same, pattern, f, env)) &&
      (bs.Some? ==>
        (|pv.names| == |bs.value| &&
         forall env :: Binds(sr, same, pattern, f, env) <==> env == SyntaxRules.Assoc(pv.names, bs.value)))
  {
    hide SyntaxRules.Dots, SyntaxRules.Matches, MatchSpec, CompilePat, Agree;
    var (p, pv) := WholePattern(Init(sr), pattern).value;
    Accepted(sr, pattern);
    DotsIs(sr, pattern);
    forall env ensures Means(sr, same, pattern, p, f, env) {
      PatternMeans(sr, same, pattern, 0, PVars([], []), f, env);
    }
    var bs := MatchSpec(same, p, f);
    if bs.Some? {
      var env0 := SyntaxRules.Assoc(pv.names, bs.value);
      AssocAgrees(pv.names, bs.value);
      assert Means(sr, same, pattern, p, f, env0);
      assert Binds(sr, same, pattern, f, env0);
      forall env | Binds(sr, same, pattern, f, env) ensures env == env0 {
        assert Means(sr, same, pattern, p, f, env);
        AgreeOnce(pv.names, bs.value, env);
      }
    } else if env :| Binds(sr, same, pattern, f, env) {
      assert Means(sr, same, pattern, p, f, env);
    }
  }
}
