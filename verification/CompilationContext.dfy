/** compile_rec of src/macro.c, which keeps the pattern variables met and their
    number in the context as it goes.  It is proved against the functions of
    Compiler.  A syntax error is None. */
module CompilationContexts {
  import opened Forms
  import opened Patterns
  import opened Templates
  import opened Compiler

  function PairPats(ps: seq<Pat>, last: Pat): Pat {
    if ps == [] then last else PPair(ps[0], PairPats(ps[1..], last))
  }

  function PairTmpls(ts: seq<Tmpl>, last: Tmpl): Tmpl {
    if ts == [] then last else TPair(ts[0], PairTmpls(ts[1..], last))
  }

  lemma {:induction false} PairPatsSnoc(ps: seq<Pat>, p: Pat, last: Pat)
    ensures PairPats(ps + [p], last) == PairPats(ps, PPair(p, last))
  {
    if ps == [] {
      assert [p][1..] == [];
    } else {
      assert (ps + [p])[1..] == ps[1..] + [p];
      PairPatsSnoc(ps[1..], p, last);
    }
  }

  lemma {:induction false} PairTmplsSnoc(ts: seq<Tmpl>, t: Tmpl, last: Tmpl)
    ensures PairTmpls(ts + [t], last) == PairTmpls(ts, TPair(t, last))
  {
    if ts == [] {
      assert [t][1..] == [];
    } else {
      assert (ts + [t])[1..] == ts[1..] + [t];
      PairTmplsSnoc(ts[1..], t, last);
    }
  }

  /** The compiled elements in front of the rest. */
  function PatAfter(q: seq<Pat>, r: Option<(Pat, PVars)>): Option<(Pat, PVars)> {
    if r.None? then None else Some((PairPats(q, r.value.0), r.value.1))
  }

  function TmplAfter(q: seq<Tmpl>, n: nat, r: Option<(Tmpl, nat)>): Option<(Tmpl, nat)> {
    if r.None? then None else Some((PairTmpls(q, r.value.0), n + r.value.1))
  }

  /** One more element of a list pattern. */
  lemma PatStep(cx: Context, rest: Form, level: nat, st: PVars, seen: bool, q: seq<Pat>)
    requires rest.FPair? && !IsEllipsis(cx, rest.car)
    ensures
      var rep := rest.cdr.FPair? && IsEllipsis(cx, rest.cdr.car);
      var a := CompilePat(cx, rest.car, if rep then level + 1 else level, st);
      var whole := PatAfter(q, CompilePatList(cx, rest, level, st, seen));
      if a.None? || (rep && seen) then whole.None?
      else
        var p := if rep then PRep(a.value.0, NewVars(st, a.value.1)) else a.value.0;
        whole == PatAfter(q + [p],
          CompilePatRest(cx, if rep then rest.cdr.cdr else rest.cdr, level, a.value.1, seen || rep))
  {
    hide IsEllipsis;
    var rep := rest.cdr.FPair? && IsEllipsis(cx, rest.cdr.car);
    var a := CompilePat(cx, rest.car, if rep then level + 1 else level, st);
    if a.Some? && !(rep && seen) {
      var p := if rep then PRep(a.value.0, NewVars(st, a.value.1)) else a.value.0;
      var d := CompilePatRest(cx, if rep then rest.cdr.cdr else rest.cdr, level, a.value.1, seen || rep);
      if d.Some? { PairPatsSnoc(q, p, d.value.0); }
    }
  }

  lemma TmplStep(cx: Context, rest: Form, level: nat, pv: PVars, q: seq<Tmpl>, n: nat)
    requires rest.FPair? && !IsEllipsis(cx, rest.car)
    ensures
      var rep := rest.cdr.FPair? && IsEllipsis(cx, rest.cdr.car);
      var a := CompileTmpl(cx, rest.car, if rep then level + 1 else level, pv);
      var whole := TmplAfter(q, n, CompileTmplList(cx, rest, level, pv));
      if a.None? || (rep && a.value.1 == 0) then whole.None?
      else
        var t := if rep then TRep(a.value.0) else a.value.0;
        whole == TmplAfter(q + [t], n + a.value.1,
          CompileTmplRest(cx, if rep then rest.cdr.cdr else rest.cdr, level, pv))
  {
    hide IsEllipsis;
    var rep := rest.cdr.FPair? && IsEllipsis(cx, rest.cdr.car);
    var a := CompileTmpl(cx, rest.car, if rep then level + 1 else level, pv);
    if a.Some? && !(rep && a.value.1 == 0) {
      var t := if rep then TRep(a.value.0) else a.value.0;
      var d := CompileTmplRest(cx, if rep then rest.cdr.cdr else rest.cdr, level, pv);
      if d.Some? { PairTmplsSnoc(q, t, d.value.0); }
    }
  }

  class CompilationContext {
    var cx: Context
    var pvars: PVars
    var pvlen: nat

    /** init_compilation_context. */
    constructor (ellipsis: Ident, literals: seq<Ident>)
      ensures cx == InitContext(ellipsis, literals) && pvars == PVars([], []) && pvlen == 0
    {
      var i := 0;
      var escaped := false;
      while i < |literals|
        invariant i <= |literals| && (escaped <==> exists k :: 0 <= k < i && Root(literals[k]) == Root(ellipsis))
      {
        if Root(literals[i]) == Root(ellipsis) { escaped := true; }
        i := i + 1;
      }
      cx := Context(if escaped then None else Some(Root(ellipsis)), literals);
      pvars, pvlen := PVars([], []), 0;
    }

    /** The pattern compiled, with its variables entered and counted. */
    ghost predicate PatDone(r: Option<Pat>, cx0: Context, pv0: PVars, n0: nat, spec: Option<(Pat, PVars)>)
      reads this
    {
      cx == cx0 &&
      if r.None? then spec.None?
      else spec == Some((r.value, pvars)) && |pvars.names| >= |pv0.names| && pvlen == n0 + |pvars.names| - |pv0.names|
    }

    method CompilePattern(form: Form, level: nat) returns (r: Option<Pat>)
      modifies this`pvars, this`pvlen
      ensures PatDone(r, old(cx), old(pvars), old(pvlen), CompilePat(cx, form, level, old(pvars)))
      decreases form, 1
    {
      match form {
        case FPair(_, _) => r := CompilePatternList(form, level);
        case FVec(items) =>
          if items.FNil? { return Some(PVec(PNil)); }
          if !items.FPair? { return None; }
          var ok := EllipsisAtEnd(items);
          if !ok { return None; }
          var list := CompilePatternList(items, level);
          r := if list.None? then None else Some(PVec(list.value));
        case FId(id) =>
          if id in cx.literals { return Some(PId(id)); }
          var name := if Root(id) == UNDERSCORE then None else Some(id);
          if name.Some? && name in pvars.names { return None; }
          pvars := PVars([name] + pvars.names, [level] + pvars.levels);
          pvlen := pvlen + 1;
          r := Some(PVar);
        case FNil => r := Some(PNil);
        case FAtom(v) => r := Some(PAtom(v));
      }
    }

    /** The count of ellipses in a vector pattern: at most one, at the end. */
    method EllipsisAtEnd(items: Form) returns (ok: bool)
      ensures ok <==> EllipsisLast(cx, items)
    {
      var rest := items;
      while rest.FPair?
        invariant EllipsisLast(cx, items) == EllipsisLast(cx, rest)
        decreases rest
      {
        if IsEllipsis(cx, rest.car) && !rest.cdr.FNil? { return false; }
        rest := rest.cdr;
      }
      return true;
    }

    method CompilePatternList(form: Form, level: nat) returns (r: Option<Pat>)
      requires form.FPair?
      modifies this`pvars, this`pvlen
      ensures PatDone(r, old(cx), old(pvars), old(pvlen), CompilePatList(cx, form, level, old(pvars), false))
      decreases form, 0
    {
      hide IsEllipsis, CompilePat, CompilePatList;
      ghost var whole := CompilePatList(cx, form, level, pvars, false);
      var rest, q: seq<Pat>, seen := form, [], false;
      while rest.FPair?
        invariant cx == old(cx) && whole == CompilePatList(cx, form, level, old(pvars), false)
        invariant (rest == form || rest < form) && (rest != form || rest.FPair?)
        invariant |pvars.names| >= |old(pvars).names| && pvlen == old(pvlen) + |pvars.names| - |old(pvars).names|
        invariant whole == PatAfter(q, if rest.FPair? then CompilePatList(cx, rest, level, pvars, seen)
          else CompilePatRest(cx, rest, level, pvars, seen))
        decreases rest
      {
        if IsEllipsis(cx, rest.car) {
          EllipsisFirst(cx, rest, level, pvars, seen);
          return None;
        }
        PatStep(cx, rest, level, pvars, seen, q);
        if rest.cdr.FPair? && IsEllipsis(cx, rest.cdr.car) {
          var before := pvlen;
          var subpat := CompilePattern(rest.car, level + 1);
          if subpat.None? || seen { return None; }
          seen := true;
          q := q + [PRep(subpat.value, pvlen - before)];
          rest := rest.cdr.cdr;
        } else {
          var p := CompilePattern(rest.car, level);
          if p.None? { return None; }
          q := q + [p.value];
          rest := rest.cdr;
        }
        RestIs(cx, rest, level, pvars, seen);
      }
      RestEnds(cx, rest, level, pvars, seen);
      if rest.FNil? { return Some(PairPats(q, PNil)); }
      if IsEllipsis(cx, rest) { return None; }
      var last := CompilePattern(rest, level);
      if last.None? { return None; }
      return Some(PairPats(q, last.value));
    }

    /** The template compiled; pvlen counts the variables that control a repetition
        at the level of the template. */
    ghost predicate TmplDone(r: Option<Tmpl>, n0: nat, spec: Option<(Tmpl, nat)>)
      reads this
    {
      if r.None? then spec.None? else pvlen >= n0 && spec == Some((r.value, pvlen - n0))
    }

    method CompileTemplate(form: Form, level: nat) returns (r: Option<Tmpl>)
      modifies this`cx, this`pvlen
      ensures cx == old(cx) || r.None?
      ensures TmplDone(r, old(pvlen), CompileTmpl(old(cx), form, level, pvars))
      decreases form, 1
    {
      match form {
        case FPair(a, d) =>
          if IsEllipsis(cx, a) && d.FPair? && d.cdr.FNil? {
            var ellipsis := cx.ellipsis;
            cx := cx.(ellipsis := None);
            r := CompileTemplate(d.car, level);
            cx := cx.(ellipsis := ellipsis);
            return;
          }
          r := CompileTemplateList(form, level);
        case FVec(items) =>
          if items.FNil? { return Some(TVec(TNil)); }
          if !items.FPair? { return None; }
          var list := CompileTemplateList(items, level);
          r := if list.None? then None else Some(TVec(list.value));
        case FId(id) =>
          var index := FindIndex(id);
          if index < 0 || index >= |pvars.levels| { return Some(TId(id)); }
          var pvlevel := pvars.levels[index];
          if level == pvlevel { pvlen := pvlen + 1; }
          r := if level < pvlevel then None else Some(TVar(index, pvlevel));
        case FNil => r := Some(TNil);
        case FAtom(v) => r := Some(TAtom(v));
      }
    }

    /** list_find_index. */
    method FindIndex(id: Ident) returns (index: int)
      ensures index == Index(pvars.names, id)
    {
      index := 0;
      var names := pvars.names;
      while names != []
        invariant index >= 0 && Index(pvars.names, id) == if Index(names, id) < 0 then -1 else index + Index(names, id)
        decreases |names|
      {
        if names[0] == Some(id) { return; }
        names := names[1..];
        index := index + 1;
      }
      index := -1;
    }

    method CompileTemplateList(form: Form, level: nat) returns (r: Option<Tmpl>)
      requires form.FPair?
      modifies this`cx, this`pvlen
      ensures cx == old(cx) || r.None?
      ensures TmplDone(r, old(pvlen), CompileTmplList(old(cx), form, level, pvars))
      decreases form, 0
    {
      hide IsEllipsis, CompileTmpl, CompileTmplList;
      var rest, q: seq<Tmpl> := form, [];
      ghost var whole := CompileTmplList(cx, form, level, pvars);
      while rest.FPair?
        invariant cx == old(cx) && pvlen >= old(pvlen) && whole == CompileTmplList(cx, form, level, pvars)
        invariant (rest == form || rest < form) && (rest != form || rest.FPair?)
        invariant whole == TmplAfter(q, pvlen - old(pvlen),
          if rest.FPair? then CompileTmplList(cx, rest, level, pvars) else CompileTmplRest(cx, rest, level, pvars))
        decreases rest
      {
        if IsEllipsis(cx, rest.car) {
          EllipsisFirstTmpl(cx, rest, level, pvars);
          return None;
        }
        TmplStep(cx, rest, level, pvars, q, pvlen - old(pvlen));
        if rest.cdr.FPair? && IsEllipsis(cx, rest.cdr.car) {
          var before := pvlen;
          var sub := CompileTemplate(rest.car, level + 1);
          if sub.None? || pvlen == before { return None; }
          q := q + [TRep(sub.value)];
          rest := rest.cdr.cdr;
        } else {
          var t := CompileTemplate(rest.car, level);
          if t.None? { return None; }
          q := q + [t.value];
          rest := rest.cdr;
        }
        RestIsTmpl(cx, rest, level, pvars);
      }
      RestEndsTmpl(cx, rest, level, pvars);
      if rest.FNil? { return Some(PairTmpls(q, TNil)); }
      if IsEllipsis(cx, rest) { return None; }
      var last := CompileTemplate(rest, level);
      if last.None? { return None; }
      return Some(PairTmpls(q, last.value));
    }

    /** A rule of syntax-rules, compiled with an empty table of variables. */
    method CompileOne(pattern: Form, template: Form) returns (r: Option<Rule>)
      modifies this
      ensures r == CompileRule(old(cx), pattern, template)
    {
      pvars, pvlen := PVars([], []), 0;
      if IsEllipsis(cx, pattern) { return None; }
      var p := CompilePattern(pattern, 0);
      if p.None? || IsEllipsis(cx, template) { return None; }
      var t := CompileTemplate(template, 0);
      r := if t.None? then None else Some(Rule(p.value, t.value));
    }
  }

  lemma EllipsisFirst(cx: Context, rest: Form, level: nat, st: PVars, seen: bool)
    requires rest.FPair? && IsEllipsis(cx, rest.car)
    ensures CompilePatList(cx, rest, level, st, seen).None?
  {
  }

  lemma EllipsisFirstTmpl(cx: Context, rest: Form, level: nat, pv: PVars)
    requires rest.FPair? && IsEllipsis(cx, rest.car)
    ensures CompileTmplList(cx, rest, level, pv).None?
  {
  }

  lemma RestIs(cx: Context, rest: Form, level: nat, st: PVars, seen: bool)
    ensures rest.FPair? ==> CompilePatRest(cx, rest, level, st, seen) == CompilePatList(cx, rest, level, st, seen)
  {
  }

  lemma RestIsTmpl(cx: Context, rest: Form, level: nat, pv: PVars)
    ensures rest.FPair? ==> CompileTmplRest(cx, rest, level, pv) == CompileTmplList(cx, rest, level, pv)
  {
  }

  lemma RestEnds(cx: Context, rest: Form, level: nat, st: PVars, seen: bool)
    requires !rest.FPair?
    ensures CompilePatRest(cx, rest, level, st, seen) ==
      if rest.FNil? then Some((PNil, st)) else if IsEllipsis(cx, rest) then None else CompilePat(cx, rest, level, st)
  {
  }

  lemma RestEndsTmpl(cx: Context, rest: Form, level: nat, pv: PVars)
    requires !rest.FPair?
    ensures CompileTmplRest(cx, rest, level, pv) ==
      if rest.FNil? then Some((TNil, 0)) else if IsEllipsis(cx, rest) then None else CompileTmpl(cx, rest, level, pv)
  {
  }
}
