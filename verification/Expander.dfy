/** expand_hygienic_macro (src/macro.c): matching, transcribing and wrapping
    together. */
module Expander {
  import opened Forms
  import opened Patterns
  import opened Templates
  import opened Compiler
  import opened Nesting
  import opened PairHeap
  import opened Matcher
  import opened BindingLists
  import opened Transcriber
  import Environments

  type Env = Environments.Env

  /** scm_identifierequalp of a pattern literal, in the environment of the
      definition, and an identifier of the use. */
  function Compare(depth: nat, env: Env): (Ident, Ident) -> Verdict
    requires depth <= |env.frames|
  {
    (x: Ident, y: Ident) => Environments.IdentifierEqual(x, depth, y, env)
  }

  /** The identifier is inserted by the template. */
  ghost predicate Inserts(t: Tmpl, ss: seq<State>, d: nat, x: Ident) {
    match t
    case TId(y) => x == y
    case TVec(items) => Inserts(items, ss, d, x)
    case TPair(a, r) =>
      Inserts(r, ss, d, x) ||
      (if a.TRep? then exists k :: 0 <= k < Times(a.tmpl, ss, d) && Inserts(a.tmpl, Peel(ss, d, k), d + 1, x)
       else Inserts(a, ss, d, x))
    case _ => false
  }

  lemma {:induction false} PrependSame(a: seq<Form>, r: Form, b: seq<Form>, s: Form)
    requires |a| == |b| && Prepend(a, r) == Prepend(b, s)
    ensures a == b && r == s
  {
    if a != [] { PrependSame(a[1..], r, b[1..], s); }
  }

  /** Renaming an inserted identifier otherwise gives another form. */
  lemma {:induction false} RenamingMatters(t: Tmpl, ss: seq<State>, d: nat, x: Ident, ren: map<Ident, Ident>,
      ren': map<Ident, Ident>)
    requires Inserts(t, ss, d, x) && Renamed(ren, x) != Renamed(ren', x)
    ensures Inst(t, ss, d, ren) != Inst(t, ss, d, ren')
    decreases t
  {
    match t
    case TId(y) =>
    case TVec(items) => RenamingMatters(items, ss, d, x, ren, ren');
    case TPair(a, r) =>
      if a.TRep? {
        var n := Times(a.tmpl, ss, d);
        var es, es' := Repeat(a.tmpl, ss, d, ren, 0, n), Repeat(a.tmpl, ss, d, ren', 0, n);
        if Inst(t, ss, d, ren) == Inst(t, ss, d, ren') {
          PrependSame(es, Inst(r, ss, d, ren), es', Inst(r, ss, d, ren'));
        }
        if k :| 0 <= k < n && Inserts(a.tmpl, Peel(ss, d, k), d + 1, x) {
          RenamingMatters(a.tmpl, Peel(ss, d, k), d + 1, x, ren, ren');
          RepeatAt(a.tmpl, ss, d, ren, 0, n, k);
          RepeatAt(a.tmpl, ss, d, ren', 0, n, k);
        } else {
          RenamingMatters(r, ss, d, x, ren, ren');
        }
      } else if Inserts(a, ss, d, x) {
        RenamingMatters(a, ss, d, x, ren, ren');
      } else {
        RenamingMatters(r, ss, d, x, ren, ren');
      }
  }

  /** So what the transcriber inserts is renamed. */
  lemma InsertedIsRenamed(t: Tmpl, ss: seq<State>, x: Ident, fvars: map<Ident, Ident>, form: Form)
    requires Inserts(t, ss, 0, x)
    requires forall ren: map<Ident, Ident> :: Extends(fvars, ren) ==> form == Inst(t, ss, 0, ren)
    ensures x in fvars
  {
    if x !in fvars {
      var ren, ren' := fvars[x := Sym(0)], fvars[x := Sym(1)];
      assert Extends(fvars, ren) && Extends(fvars, ren');
      RenamingMatters(t, ss, 0, x, ren, ren');
    }
  }

  /** Identifiers made from now on have a stamp of at least `stamp`. */
  ghost predicate OlderThan(env: Env, stamp: nat) {
    forall i, id :: 0 <= i < |env.frames| && Environments.Binds(env.frames[i], id) && id.Far? ==> id.stamp < stamp
  }

  /** The qualifier of a macro that was defined at toplevel number `home`: set if
      it was defined outside all frames and is used at another toplevel. */
  function Qualifier(depth: nat, home: nat, env: Env): Option<nat> {
    if depth == 0 && home != env.top then Some(home) else None
  }

  /** What is inserted for an identifier of the template. */
  function Insert(id: Ident, def: Env, qualifier: Option<nat>, stamp: nat): Ident {
    if qualifier.Some? && id.Sym? then Qualify(id, qualifier.value, stamp)
    else Environments.Wrap(id, def, stamp)
  }

  /** The n-th identifier that an expansion makes. */
  function Inserter(def: Env, qualifier: Option<nat>, stamp: nat): (Ident, nat) -> Ident {
    (id: Ident, n: nat) => Insert(id, def, qualifier, stamp + n)
  }

  /** The identifier was made for `x` from this stamp on. */
  ghost predicate MadeFor(w: Ident, x: Ident, def: Env, qualifier: Option<nat>, stamp: nat) {
    exists s: nat :: s >= stamp && w == Insert(x, def, qualifier, s)
  }

  /** A macro use: the arguments, the depth of the environment of the definition,
      the number of its toplevel, and the environment of the use. */
  datatype Use = Use(args: Form, depth: nat, home: nat, env: Env) {
    predicate Ok() { depth <= |env.frames| }

    function Def(): Env requires Ok() { Environments.Lowest(env, depth) }

    function Verdict(rule: Rule): Verdict requires Ok() { Judge(Compare(depth, env), rule.pat, args) }

    /** Rule i is the first that is not refused. */
    ghost predicate Reaches(rules: seq<Rule>, i: nat)
      requires Ok()
    {
      i < |rules| && Verdict(rules[i]) != No && forall j :: 0 <= j < i ==> Verdict(rules[j]) == No
    }
  }

  datatype Outcome = Expanded(form: Form) | NoMatchingPattern | WrongContext

  /** The first rule that is not refused matches, and its template is instantiated
      with identifiers made for those it inserts, each of its own. */
  ghost predicate Expansion(rules: seq<Rule>, i: nat, bs: seq<Binding>, use: Use, stamp: nat, ren: map<Ident, Ident>,
                            form: Form)
    requires use.Ok()
  {
    use.Reaches(rules, i) && Rel(Agrees(Compare(use.depth, use.env)), rules[i].pat, use.args, bs) &&
    form == Inst(rules[i].tmpl, Lives(bs), 0, ren) &&
    (forall x :: Inserts(rules[i].tmpl, Lives(bs), 0, x) ==> x in ren) &&
    (forall x :: x in ren ==> MadeFor(ren[x], x, use.Def(), Qualifier(use.depth, use.home, use.env), stamp)) &&
    Apart(ren)
  }

  ghost predicate Apart(ren: map<Ident, Ident>) {
    forall x, y :: x in ren && y in ren && x != y && Environments.Unqualified(x) && Environments.Unqualified(y) ==>
      ren[x] != ren[y]
  }

  /** The rule came out of the compiler. */
  ghost predicate IsCompiled(rule: Rule) {
    exists cx: Context, pattern: Form, template: Form ::
      WfForm(pattern) && WfForm(template) && CompileRule(cx, pattern, template) == Some(rule)
  }

  /** No match of the rule makes the transcriber meet a variable past its end, where
      the source has an assertion. */
  ghost predicate Transcribable(rule: Rule, use: Use)
    requires use.Ok()
  {
    forall bs: seq<Binding> ::
      Rel(Agrees(Compare(use.depth, use.env)), rule.pat, use.args, bs) ==> !Runs(rule.tmpl, Lives(bs), 0).Fails?
  }

  /** A literal of the definition matches an identifier of the use that means the same:
      it is compared in the environment of the definition, the identifier in that of
      the use. */
  lemma LiteralMeans(use: Use, x: Ident, y: Ident)
    requires use.Ok()
    ensures
      var v := Compare(use.depth, use.env)(x, y);
      (v == Stray <==>
       Environments.Above(y, use.env, use.depth).None? && x != y &&
       (Environments.Strays(y, use.Def()) || Environments.Strays(x, use.Def()))) &&
      (v != Stray && (x == y ==> !Environments.Strays(x, use.Def())) ==>
       (Agrees(Compare(use.depth, use.env))(x, y) <==>
        Environments.Denotation(x, use.Def()) == Environments.Denotation(y, use.env)))
  {
    hide Environments.IdentifierEqual, Environments.Denotation, Environments.Strays;
    Environments.IdentifierEqualMeans(x, use.depth, y, use.env);
  }

  /** What the matcher says about a compiled rule. */
  lemma RuleMatches(rule: Rule, use: Use)
    requires use.Ok() && IsCompiled(rule)
    ensures Wf(rule.pat) && WfTmpl(rule.tmpl, 0)
    ensures
      var sub := MatchSpec(Agrees(Compare(use.depth, use.env)), rule.pat, use.args);
      (use.Verdict(rule) == Yes <==> sub.Some?) &&
      (sub.Some? ==>
        (Rel(Agrees(Compare(use.depth, use.env)), rule.pat, use.args, sub.value) &&
         Deep(rule.tmpl, Lives(sub.value), 0) &&
         (EqualLengths(rule.tmpl, Lives(sub.value), 0) ==> Transcribable(rule, use))))
    ensures Flat(rule.tmpl) ==> Transcribable(rule, use)
  {
    hide MatchSpec, Judge, Runs, EqualLengths, WfTmpl, Wf, CompileRule, Flat, Deep, AllLive;
    var cx: Context, pattern: Form, template: Form :|
      WfForm(pattern) && WfForm(template) && CompileRule(cx, pattern, template) == Some(rule);
    var cmp := Compare(use.depth, use.env);
    MatchFitsTemplate(Agrees(cmp), cx, pattern, template, use.args);
    JudgeIsMatch(cmp, rule.pat, use.args);
    var sub := MatchSpec(Agrees(cmp), rule.pat, use.args);
    if sub.Some? { MatchIsRelation(Agrees(cmp), rule.pat, use.args, sub.value); }
    if Flat(rule.tmpl) || (sub.Some? && EqualLengths(rule.tmpl, Lives(sub.value), 0)) {
      forall bs | Rel(Agrees(cmp), rule.pat, use.args, bs) ensures !Runs(rule.tmpl, Lives(bs), 0).Fails? {
        MatchIsRelation(Agrees(cmp), rule.pat, use.args, bs);
      }
    }
  }

  /** expand_hygienic_macro.  The first rule that is not refused decides: it is
      expanded if it matches, and it is an error if an identifier strayed.  The
      arguments are the object `args` in the heap of pairs. */
  method ExpandHygienicMacro(rules: seq<Rule>, use: Use, stamp: nat, cells: Heap, args: Obj, ghost frozen: set<nat>)
    returns (r: Outcome, ghost i: nat, ghost bs: seq<Binding>, ghost ren: map<Ident, Ident>)
    requires Represents(cells, frozen, args, use.args) && forall a :: a in frozen ==> a < |cells|
    requires use.Ok() && forall j :: 0 <= j < |rules| ==> IsCompiled(rules[j]) && Transcribable(rules[j], use)
    ensures r.NoMatchingPattern? <==> forall j :: 0 <= j < |rules| ==> use.Verdict(rules[j]) == No
    ensures r.WrongContext? <==> exists j :: 0 <= j < |rules| && use.Reaches(rules, j) && use.Verdict(rules[j]) == Stray
    ensures r.Expanded? ==>
      i < |rules| && use.Verdict(rules[i]) == Yes && Expansion(rules, i, bs, use, stamp, ren, r.form)
  {
    hide IsCompiled, MatchSpec, Judge, Rel, Runs, Inst, Inserts, Wf, WfTmpl, Represents, Deep, Lives, Flat;
    var def, qualifier := use.Def(), Qualifier(use.depth, use.home, use.env);
    var matcher := new MatchContext(Compare(use.depth, use.env), cells, frozen);
    var rest := 0;
    i, bs, ren := 0, [], map[];
    while rest < |rules|
      invariant rest <= |rules| && forall j :: 0 <= j < rest ==> use.Verdict(rules[j]) == No
      invariant matcher.Valid() && Represents(matcher.cells, matcher.frozen, args, use.args)
    {
      var rule := rules[rest];
      RuleMatches(rule, use);
      var verdict, sub := MatchAndRead(matcher, rule.pat, args, use.args);
      if verdict == Stray {
        assert use.Reaches(rules, rest);
        return WrongContext, i, bs, ren;
      }
      if verdict == Yes {
        var ctx := new TranscriptionContext(Inserter(def, qualifier, stamp));
        var form := ctx.Transcribe(rule.tmpl, sub);
        i, bs, ren := rest, sub, ctx.fvars;
        forall x | Inserts(rule.tmpl, Lives(bs), 0, x) ensures x in ren {
          InsertedIsRenamed(rule.tmpl, Lives(bs), x, ren, form);
        }
        AllMade(ren, ctx.order, def, qualifier, stamp);
        assert use.Reaches(rules, rest);
        OnlyOneReached(rules, use, rest);
        return Expanded(form), i, bs, ren;
      }
      rest := rest + 1;
    }
    r := NoMatchingPattern;
  }

  /** A macro with the literal 5, defined at depth 1, gets 5 from the template of a
      macro bound one let further in: an error, although both mean the same. */
  lemma WrongContextThoughSame()
    ensures
      var y, rule := Far(0, Sym(5), 2), Rule(PPair(PId(Sym(5)), PNil), TNil);
      var env := Environments.Env([Environments.Frame([], None), Environments.Frame([], None)], 0,
        [Environments.Global]);
      var use := Use(FPair(FId(y), FNil), 1, 0, env);
      use.Verdict(rule) == Stray && Environments.Denotation(y, env) == Environments.Denotation(Sym(5), use.Def())
  {
    Environments.StrayThoughSame();
  }

  lemma OnlyOneReached(rules: seq<Rule>, use: Use, i: nat)
    requires use.Ok() && use.Reaches(rules, i)
    ensures forall j :: 0 <= j < |rules| && use.Reaches(rules, j) ==> j == i
  {
  }

  lemma AllMade(ren: map<Ident, Ident>, order: seq<Ident>, def: Env, qualifier: Option<nat>, stamp: nat)
    requires Numbered(ren, order, Inserter(def, qualifier, stamp))
    ensures (forall x :: x in ren ==> MadeFor(ren[x], x, def, qualifier, stamp)) && Apart(ren)
  {
    hide Insert;
    var wrap := Inserter(def, qualifier, stamp);
    forall x | x in ren ensures MadeFor(ren[x], x, def, qualifier, stamp) {
      var n := Nth(ren, order, wrap, x);
      assert ren[x] == Insert(x, def, qualifier, stamp + n);
    }
    forall x, y | x in ren && y in ren && x != y && Environments.Unqualified(x) && Environments.Unqualified(y)
      ensures ren[x] != ren[y]
    {
      var m := Nth(ren, order, wrap, x);
      var n := Nth(ren, order, wrap, y);
      InsertStamp(x, def, qualifier, stamp + m);
      InsertStamp(y, def, qualifier, stamp + n);
    }
  }

  lemma Nth(ren: map<Ident, Ident>, order: seq<Ident>, wrap: (Ident, nat) -> Ident, x: Ident) returns (n: nat)
    requires Numbered(ren, order, wrap) && x in ren
    ensures n < |order| && order[n] == x && ren[x] == wrap(x, n)
  {
    n :| 0 <= n < |order| && order[n] == x;
    assert ren[order[n]] == wrap(order[n], n);
  }

  lemma InsertStamp(x: Ident, def: Env, qualifier: Option<nat>, stamp: nat)
    requires Environments.Unqualified(x)
    ensures Insert(x, def, qualifier, stamp).Far? && Insert(x, def, qualifier, stamp).stamp == stamp
  {
  }

  /** Where an inserted identifier is resolved: a symbol of a macro defined outside
      all frames at the toplevel of the definition. */
  function Origin(x: Ident, use: Use): Env
    requires use.Ok()
  {
    if use.depth == 0 && x.Sym? then Environments.Env([], use.home, use.env.tops) else use.Def()
  }

  /** The identifier that an expansion inserts for x means, around the expansion and
      under any further frames, what x means at its origin, exactly if no frame above
      the definition binds it; the frames of the use do not, unless x is qualified
      and so inserted itself. */
  lemma InsertedMeans(rules: seq<Rule>, i: nat, bs: seq<Binding>, use: Use, stamp: nat, ren: map<Ident, Ident>,
      form: Form, x: Ident, news: seq<Environments.Frame>)
    requires use.Ok() && Expansion(rules, i, bs, use, stamp, ren, form) && x in ren
    requires OlderThan(use.env, stamp) && Environments.WfEnv(use.Def()) && Environments.IdOk(x, use.Def())
    ensures
      var out := Environments.Extend(news, use.env);
      (Environments.Denotation(ren[x], out) == Environments.Denotation(x, Origin(x, use)) <==>
       Environments.Above(ren[x], out, use.depth).None?) &&
      Environments.Home(ren[x], out) == Environments.Home(x, Origin(x, use))
    ensures Environments.Unqualified(x) ==>
      (Environments.Above(ren[x], Environments.Extend(news, use.env), use.depth).None? <==>
       forall k :: 0 <= k < |news| ==> !Environments.Binds(news[k], ren[x]))
    ensures !Environments.Unqualified(x) ==> ren[x] == x
  {
    hide Environments.WfEnv, Environments.IdOk, Environments.Denotation, Environments.Home, Insert, Rel, Inst, Judge;
    assert MadeFor(ren[x], x, use.Def(), Qualifier(use.depth, use.home, use.env), stamp);
    var s: nat :|
      s >= stamp && ren[x] == Insert(x, use.Def(), Qualifier(use.depth, use.home, use.env), s);
    InsertMeans(x, use, stamp, s, news);
  }

  /** The frames of an extension, divided at the definition. */
  lemma DividedFrames(news: seq<Environments.Frame>, env: Env, depth: nat)
    requires depth <= |env.frames|
    ensures
      var above := news + env.frames[..|env.frames| - depth];
      Environments.Extend(above, Environments.Lowest(env, depth)) == Environments.Extend(news, env)
  {
    var n := |env.frames| - depth;
    assert env.frames == env.frames[..n] + env.frames[n..];
    assert news + env.frames[..n] + env.frames[n..] == news + env.frames;
  }

  lemma AboveBinds(w: Ident, news: seq<Environments.Frame>, env: Env, depth: nat)
    requires depth <= |env.frames|
    ensures
      var above := news + env.frames[..|env.frames| - depth];
      Environments.Above(w, Environments.Extend(news, env), depth).None? <==>
      forall k :: 0 <= k < |above| ==> !Environments.Binds(above[k], w)
  {
    hide Environments.Binds;
    var above, out := news + env.frames[..|env.frames| - depth], Environments.Extend(news, env);
    Environments.InFirstBinds(w, out.frames, |above|);
    assert forall k :: 0 <= k < |above| ==> out.frames[k] == above[k];
  }

  lemma BoundIsAbove(w: Ident, news: seq<Environments.Frame>, env: Env, depth: nat, k: nat)
    requires depth <= |env.frames| && k < |news| + |env.frames| - depth
    requires Environments.Binds((news + env.frames[..|env.frames| - depth])[k], w)
    ensures Environments.Above(w, Environments.Extend(news, env), depth).Some?
  {
    hide Environments.Binds;
    AboveBinds(w, news, env, depth);
  }

  lemma InsertMeans(x: Ident, use: Use, stamp: nat, s: nat, news: seq<Environments.Frame>)
    requires use.Ok() && OlderThan(use.env, stamp) && s >= stamp
    requires Environments.WfEnv(use.Def()) && Environments.IdOk(x, use.Def())
    ensures
      var w := Insert(x, use.Def(), Qualifier(use.depth, use.home, use.env), s);
      var out := Environments.Extend(news, use.env);
      (Environments.Denotation(w, out) == Environments.Denotation(x, Origin(x, use)) <==>
       Environments.Above(w, out, use.depth).None?) &&
      Environments.Home(w, out) == Environments.Home(x, Origin(x, use)) &&
      (Environments.Unqualified(x) ==>
        (Environments.Above(w, out, use.depth).None? <==>
         forall k :: 0 <= k < |news| ==> !Environments.Binds(news[k], w))) &&
      (!Environments.Unqualified(x) ==> w == x)
  {
    hide OlderThan, Environments.WfEnv, Environments.IdOk, Environments.Denotation, Environments.Binds;
    hide Environments.Above;
    var env, def, qualifier := use.env, use.Def(), Qualifier(use.depth, use.home, use.env);
    var n, w := |env.frames| - use.depth, Insert(x, def, qualifier, s);
    if Environments.Unqualified(x) { NewToFrames(x, use, stamp, s); }
    var all := news + env.frames[..n];
    DividedFrames(news, env, use.depth);
    AboveBinds(w, news, env, use.depth);
    assert forall k :: 0 <= k < |news| ==> all[k] == news[k];
    assert forall k :: |news| <= k < |all| ==> all[k] == env.frames[k - |news|];
    if qualifier.Some? && x.Sym? {
      assert Environments.Extend(news, env).frames == all;
      Environments.QualifyKeepsMeaning(x, use.home, s, Environments.Extend(news, env));
    } else {
      assert forall k :: 0 <= k < use.depth ==> def.frames[k] == env.frames[n + k];
      Environments.WrapKeepsMeaning(x, def, s, all);
    }
  }

  lemma NewToFrames(x: Ident, use: Use, stamp: nat, s: nat)
    requires use.Ok() && OlderThan(use.env, stamp) && Environments.Unqualified(x) && s >= stamp
    ensures
      var w := Insert(x, use.Def(), Qualifier(use.depth, use.home, use.env), s);
      forall k :: 0 <= k < |use.env.frames| ==> !Environments.Binds(use.env.frames[k], w)
  {
    InsertStamp(x, use.Def(), Qualifier(use.depth, use.home, use.env), s);
  }

  /** The environment in which the macro was defined. */
  function Defined(use: Use): Env
    requires use.Ok()
  {
    if use.depth == 0 then Environments.Env([], use.home, use.env.tops) else use.Def()
  }

  /** Not an identifier that another macro captured outside all frames, in a macro
      used at another toplevel: only symbols are qualified. */
  predicate Belongs(x: Ident, use: Use) {
    use.depth > 0 || use.home == use.env.top || x.Sym? || x.env < 0
  }

  /** Hygiene.  The identifier that an expansion inserts for x belongs, wherever the
      expansion is used and whatever is bound around it, to the toplevel where x
      belonged when the macro was defined, exactly if `Belongs` holds.  It means what
      x meant there (or else at the toplevel of the use) exactly if no frame above the
      definition binds the very identifier inserted.  For an unqualified x that can
      only be a frame inside the expansion; a qualified x is inserted itself, and
      any frame between the definition and the use that binds it captures it. */
  lemma Hygiene(rules: seq<Rule>, i: nat, bs: seq<Binding>, use: Use, stamp: nat, ren: map<Ident, Ident>, form: Form,
      x: Ident, news: seq<Environments.Frame>)
    requires use.Ok() && Expansion(rules, i, bs, use, stamp, ren, form) && Inserts(rules[i].tmpl, Lives(bs), 0, x)
    requires OlderThan(use.env, stamp) && Environments.WfEnv(use.Def()) && Environments.IdOk(x, use.Def())
    ensures x in ren
    ensures
      var out := Environments.Extend(news, use.env);
      (Environments.Home(ren[x], out) == Environments.Home(x, Defined(use)) <==> Belongs(x, use)) &&
      (Environments.Denotation(ren[x], out) ==
         Environments.Denotation(x, if Belongs(x, use) then Defined(use) else use.Def()) <==>
       Environments.Above(ren[x], out, use.depth).None?)
    ensures Environments.Unqualified(x) ==>
      (Environments.Above(ren[x], Environments.Extend(news, use.env), use.depth).None? <==>
       forall k :: 0 <= k < |news| ==> !Environments.Binds(news[k], ren[x]))
    ensures !Environments.Unqualified(x) ==> ren[x] == x
  {
    InsertedMeans(rules, i, bs, use, stamp, ren, form, x, news);
    if use.depth == 0 { assert use.Def().frames == []; }
  }

  /** For a qualified identifier this needs no assumption about the environment. */
  lemma QualifiedMeans(rules: seq<Rule>, i: nat, bs: seq<Binding>, use: Use, stamp: nat, ren: map<Ident, Ident>,
      form: Form, x: Ident, news: seq<Environments.Frame>)
    requires use.Ok() && Expansion(rules, i, bs, use, stamp, ren, form) && x in ren && !Environments.Unqualified(x)
    ensures
      var out := Environments.Extend(news, use.env);
      Environments.Denotation(ren[x], out) == Environments.Denotation(x, Defined(use)) <==>
      Environments.Above(x, out, use.depth).None?
  {
    hide Environments.Binds, Environments.Above;
    var env, def := use.env, use.Def();
    assert MadeFor(ren[x], x, def, Qualifier(use.depth, use.home, env), stamp);
    var all := news + env.frames[..|env.frames| - use.depth];
    DividedFrames(news, env, use.depth);
    AboveBinds(x, news, env, use.depth);
    if use.depth == 0 { assert def.frames == []; }
    assert ren[x] == x && Environments.Extend(all, def) == Environments.Extend(news, env);
    if forall k :: 0 <= k < |all| ==> !Environments.Binds(all[k], x) {
      Environments.SkipFrames(x, all, def);
    } else {
      var k :| 0 <= k < |all| && Environments.Binds(all[k], x);
      BoundIsAbove(x, news, env, use.depth, k);
      Environments.BoundAbove(x, all, def, x, Defined(use));
    }
  }

  /** A library macro binds a variable, qualified since the macro is used at the REPL,
      around a local macro that inserts it, and binds it again around the use of that:
      the local macro gets the inner variable. */
  lemma QualifiedCaptured()
    ensures
      var x := Far(0, Sym(5), -2);
      var frame, none := Environments.Frame([x], None), Environments.Frame([], None);
      var env := Environments.Env([frame, none, frame], 0, [Environments.Global, Environments.Module(map[])]);
      var use, rules, ren := Use(FNil, 1, 0, env), [Rule(PNil, TId(x))], map[x := x];
      Expansion(rules, 0, [], use, 1, ren, FId(x)) && Inserts(rules[0].tmpl, Lives([]), 0, x) && OlderThan(env, 1) &&
      Environments.WfEnv(use.Def()) && Environments.IdOk(x, use.Def()) && Belongs(x, use) &&
      Environments.Denotation(ren[x], env) == Environments.At(Environments.Slot(3, 0)) &&
      Environments.Denotation(x, Defined(use)) == Environments.At(Environments.Slot(1, 0))
  {
    var x := Far(0, Sym(5), -2);
    var frame, none := Environments.Frame([x], None), Environments.Frame([], None);
    var env := Environments.Env([frame, none, frame], 0, [Environments.Global, Environments.Module(map[])]);
    var use, rules, ren := Use(FNil, 1, 0, env), [Rule(PNil, TId(x))], map[x := x];
    var def := use.Def();
    assert def.frames == [frame];
    assert MadeFor(x, x, def, Qualifier(1, 0, env), 1) by {
      assert x == Insert(x, def, Qualifier(1, 0, env), 1);
    }
    assert use.Verdict(rules[0]) == Yes && use.Reaches(rules, 0);
    assert Rel(Agrees(Compare(1, env)), PNil, FNil, []);
    InnerVariable();
  }

  lemma InnerVariable()
    ensures
      var x := Far(0, Sym(5), -2);
      var frame, none := Environments.Frame([x], None), Environments.Frame([], None);
      Environments.InFrames(x, [frame, none, frame]) == Some(Environments.Slot(3, 0)) &&
      Environments.InFrames(x, [frame]) == Some(Environments.Slot(1, 0))
  {
    var x := Far(0, Sym(5), -2);
    assert Environments.FramePos(x, [x], None, 0) == Some(0);
  }

  /** An identifier captured outside all frames of a library that binds it, in a
      macro of the library used at the REPL: it is looked up at the REPL. */
  lemma CapturedAtUse(stamp: nat)
    ensures
      var x, library := Far(0, Sym(5), 0), Environments.Module(map[Sym(5) := 7]);
      var env := Environments.Env([], 0, [Environments.Global, library]);
      var use := Use(FNil, 0, 1, env);
      var ren, rules := map[x := Insert(x, use.Def(), Qualifier(0, 1, env), stamp)], [Rule(PNil, TId(x))];
      Expansion(rules, 0, [], use, stamp, ren, FId(ren[x])) &&
      Environments.Denotation(ren[x], env) == Environments.TopVar(Sym(5)) &&
      Environments.Denotation(x, Defined(use)) == Environments.At(Environments.Location(7))
  {
    var x, library := Far(0, Sym(5), 0), Environments.Module(map[Sym(5) := 7]);
    var env := Environments.Env([], 0, [Environments.Global, library]);
    var use := Use(FNil, 0, 1, env);
    var ren, rules := map[x := Insert(x, use.Def(), Qualifier(0, 1, env), stamp)], [Rule(PNil, TId(x))];
    assert Environments.Lowest(env, 0).frames == [] == Environments.Lowest(Defined(use), 0).frames;
    assert ren[x] == Far(stamp, Sym(5), 0);
    assert MadeFor(ren[x], x, use.Def(), Qualifier(0, 1, env), stamp);
    assert use.Verdict(rules[0]) == Yes;
    assert use.Reaches(rules, 0);
    assert Root(Sym(5)) == Sym(5) && Root(ren[x]) == Sym(5);
    assert Environments.InToplevel(Sym(5), Environments.Global) == Environments.Missing;
    assert Environments.InFar(ren[x], env) == Environments.Missing;
    assert Environments.Denotation(x, Defined(use)) == Environments.At(Environments.Location(7));
    assert Rel(Agrees(Compare(0, env)), PNil, FNil, []);
  }
}
