/** A macro defined by syntax-rules means what section 4.3.2 of R7RS says: which rules
    are accepted, which uses match, and what they expand to. */
module RuleMeaning {
  import opened Forms
  import opened Patterns
  import opened Templates
  import opened Compiler
  import opened Nesting
  import opened PatternMeaning
  import opened TemplateMeaning
  import SyntaxRules
  import Expander

  type Rules = SyntaxRules.Syntax

  /** With equal lengths, or without nested ellipses, every ellipsis ends with the
      shortest variable. */
  lemma {:induction false} EqualZips(t: Tmpl, ss: seq<State>, d: nat)
    requires Item(t, d) && Deep(t, ss, d) && AllLive(t, ss) && EqualLengths(t, ss, d)
    ensures Zips(t, ss, d)
    decreases t
  {
    EqualLengthsRun(t, ss, d);
    ItemParts(t, d);
    match t
    case TPair(a, r) => EqualZips(a, ss, d); EqualZips(r, ss, d);
    case TVec(items) => EqualZips(items, ss, d);
    case TRep(q) =>
      var n := Times(q, ss, d);
      assert Deep(q, ss, d);
      forall k | 0 <= k < n ensures Zips(q, Peel(ss, d, k), d + 1) {
        PeelDeep(q, ss, d, k);
        PeelLive(q, ss, d, k, n);
        var v :| v in Vars(q) && v.1 > d;
        assert k < Templates.Size(Of(ss, v.0));
        EqualZips(q, Peel(ss, d, k), d + 1);
      }
    case _ =>
  }

  lemma {:induction false} PlainZips(t: Tmpl, ss: seq<State>, d: nat)
    requires Plain(t)
    ensures Zips(t, ss, d)
  {
    match t
    case TPair(a, r) => PlainZips(a, ss, d); PlainZips(r, ss, d);
    case TVec(items) => PlainZips(items, ss, d);
    case _ =>
  }

  lemma {:induction false} FlatZips(t: Tmpl, ss: seq<State>)
    requires WfTmpl(t, 0) && Flat(t) && Deep(t, ss, 0) && AllLive(t, ss)
    ensures Zips(t, ss, 0)
    decreases t
  {
    ItemParts(t, 0);
    match t
    case TPair(a, r) =>
      if a.TRep? {
        assert Vars(a) == Vars(a.tmpl);
        PlainLevels(a.tmpl, 1);
        PlainTimes(a.tmpl, ss, 0);
        forall k | 0 <= k < Times(a.tmpl, ss, 0) ensures Zips(a.tmpl, Peel(ss, 0, k), 1) {
          PlainZips(a.tmpl, Peel(ss, 0, k), 1);
        }
      } else {
        FlatZips(a, ss);
      }
      FlatZips(r, ss);
    case TVec(items) => FlatZips(items, ss);
    case _ =>
  }

  /* ---- Which rules are accepted ---- */

  /** The number of ellipses over each variable of the pattern. */
  ghost function Levels(sr: Rules, pattern: Form): map<Ident, nat>
    requires SyntaxRules.Once(SyntaxRules.Variables(sr, pattern))
  {
    DepthsSize(sr, pattern, 0);
    SyntaxRules.Assoc(SyntaxRules.Variables(sr, pattern), SyntaxRules.Depths(sr, pattern, 0))
  }

  lemma {:induction false} DepthsSize(sr: Rules, p: Form, d: nat)
    ensures |SyntaxRules.Depths(sr, p, d)| == |SyntaxRules.Variables(sr, p)|
    decreases p
  {
    match p
    case FPair(a, r) =>
      if r.FPair? && SyntaxRules.Dots(sr, false, r.car) {
        DepthsSize(sr, r.cdr, d);
        DepthsSize(sr, a, d + 1);
        assert SyntaxRules.Variables(sr, r) == SyntaxRules.Variables(sr, r.cdr) + [];
      } else {
        DepthsSize(sr, r, d);
        DepthsSize(sr, a, d);
      }
    case FVec(items) => DepthsSize(sr, items, d);
    case _ =>
  }

  lemma TableOf(sr: Rules, pattern: Form, pv: PVars)
    requires SyntaxRules.Once(SyntaxRules.Variables(sr, pattern))
    requires pv.names == SyntaxRules.Variables(sr, pattern) && pv.levels == SyntaxRules.Depths(sr, pattern, 0)
    ensures TableIs(pv, Levels(sr, pattern))
  {
    DepthsSize(sr, pattern, 0);
    AssocIs(pv.names, pv.levels);
    var levels := Levels(sr, pattern);
    forall x | x in levels
      ensures 0 <= Index(pv.names, x) < |pv.levels| && levels[x] == pv.levels[Index(pv.names, x)]
    {
      IndexIs(pv.names, x);
    }
  }

  /** A rule compiles exactly if its pattern is one, without a variable twice, and its
      template is one for the levels of the pattern. */
  lemma RuleAccepted(sr: Rules, pattern: Form, template: Form)
    requires WfForm(pattern) && WfForm(template)
    ensures CompileRule(Init(sr), pattern, template).Some? <==>
      SyntaxRules.Pattern(sr, pattern) && SyntaxRules.Once(SyntaxRules.Variables(sr, pattern)) &&
      !SyntaxRules.Dots(sr, false, template) &&
      SyntaxRules.Template(sr, false, template, 0, Levels(sr, pattern))
  {
    hide SyntaxRules.Dots, SyntaxRules.Template, SyntaxRules.Pattern, CompilePat, CompileTmpl, SyntaxRules.Once;
    Accepted(sr, pattern);
    var p := WholePattern(Init(sr), pattern);
    if p.Some? {
      TableOf(sr, pattern, p.value.1);
      TemplateMeaning.DotsIs(Init(sr), sr, false, template);
      TemplateAccepted(Init(sr), sr, false, template, 0, p.value.1, Levels(sr, pattern));
    }
  }

  /* ---- What a rule does ---- */

  lemma {:induction false} VariablesUndotted(sr: Rules, p: Form)
    ensures Undotted(sr, SyntaxRules.Variables(sr, p))
  {
    match p
    case FPair(a, d) => VariablesUndotted(sr, a); VariablesUndotted(sr, d);
    case FVec(items) => VariablesUndotted(sr, items);
    case _ =>
  }

  /** The bindings of a match are those of the environment. */
  lemma BindingsReady(t: Tmpl, pv: PVars, bs: seq<Binding>)
    requires WfTmpl(t, 0) && SyntaxRules.Once(pv.names) && |pv.names| == |bs| && Deep(t, Lives(bs), 0)
    requires Runs(t, Lives(bs), 0).Done? && Zips(t, Lives(bs), 0)
    requires forall v :: v in Vars(t) ==> v.0 < |pv.names| && pv.names[v.0].Some?
    ensures Ready(t, pv.names, Lives(bs), 0, SyntaxRules.Assoc(pv.names, bs))
  {
    hide Runs, Zips, WfTmpl, Deep;
    AssocIs(pv.names, bs);
    WfItem(t);
  }

  /** A compiled rule matches exactly the forms that its pattern matches as written, and
      then the variables are bound in one way; the instance of its template is the only
      instance of the template as written, if the lengths under each ellipsis are equal
      or no ellipsis is under another, or whenever every ellipsis ends with its shortest
      variable. */
  lemma RuleMeans(sr: Rules, same: (Ident, Ident) -> bool, pattern: Form, template: Form, f: Form)
    requires WfForm(pattern) && WfForm(template) && CompileRule(Init(sr), pattern, template).Some?
    ensures
      var rule := CompileRule(Init(sr), pattern, template).value;
      var bs := MatchSpec(same, rule.pat, f);
      (bs.Some? <==> exists env :: Binds(sr, same, pattern, f, env)) &&
      (bs.Some? && (EqualLengths(rule.tmpl, Lives(bs.value), 0) || Flat(rule.tmpl)) ==>
         Zips(rule.tmpl, Lives(bs.value), 0))
    ensures
      var rule := CompileRule(Init(sr), pattern, template).value;
      var bs := MatchSpec(same, rule.pat, f);
      bs.Some? && Runs(rule.tmpl, Lives(bs.value), 0).Done? && Zips(rule.tmpl, Lives(bs.value), 0) ==>
        forall env, ren: map<Ident, Ident>, out :: Binds(sr, same, pattern, f, env) ==>
          (SyntaxRules.Instance(sr, false, template, env, ren, out) <==>
           out == Inst(rule.tmpl, Lives(bs.value), 0, ren))
  {
    hide SyntaxRules.Dots, SyntaxRules.Instance, CompilePat, CompileTmpl, MatchSpec, Runs, Zips, Flat, EqualLengths;
    hide Binds, WfTmpl, Deep, AllLive, Undotted, SyntaxRules.Once, Like;
    var rule := CompileRule(Init(sr), pattern, template).value;
    var (p, pv) := WholePattern(Init(sr), pattern).value;
    CompiledPatternMeans(sr, same, pattern, f);
    Accepted(sr, pattern);
    MatchFitsTemplate(same, Init(sr), pattern, template, f);
    var bs := MatchSpec(same, rule.pat, f);
    if bs.Some? {
      var ss := Lives(bs.value);
      WfItem(rule.tmpl);
      if EqualLengths(rule.tmpl, ss, 0) { EqualZips(rule.tmpl, ss, 0); }
      if Flat(rule.tmpl) { FlatZips(rule.tmpl, ss); }
      if Runs(rule.tmpl, ss, 0).Done? && Zips(rule.tmpl, ss, 0) {
        DepthsSize(sr, pattern, 0);
        VariablesUndotted(sr, pattern);
        InitLike(sr);
        TemplateVars(Init(sr), sr, false, template, 0, pv);
        BindingsReady(rule.tmpl, pv, bs.value);
        forall env, ren: map<Ident, Ident>, out | Binds(sr, same, pattern, f, env)
          ensures SyntaxRules.Instance(sr, false, template, env, ren, out) <==> out == Inst(rule.tmpl, ss, 0, ren)
        {
          InstanceMeans(Init(sr), sr, false, template, 0, pv, ss, env, ren, out);
        }
      }
    }
  }

  lemma InitLike(sr: Rules)
    ensures Like(Init(sr), sr, false)
  {
  }

  /** So an expansion by a rule is an instance of its template as written, for the only
      way in which the arguments match its pattern as written: literals of the definition
      only identifiers that mean the same, and what is inserted renamed. */
  lemma ExpansionMeans(sr: Rules, patterns: seq<Form>, templates: seq<Form>, rules: seq<Rule>, i: nat,
      bs: seq<Binding>, use: Expander.Use, stamp: nat, ren: map<Ident, Ident>, form: Form)
    requires use.Ok() && |patterns| == |templates| == |rules| && i < |rules|
    requires forall j :: 0 <= j < |rules| ==>
      WfForm(patterns[j]) && WfForm(templates[j]) && CompileRule(Init(sr), patterns[j], templates[j]) == Some(rules[j])
    requires Expander.Expansion(rules, i, bs, use, stamp, ren, form)
    requires Runs(rules[i].tmpl, Lives(bs), 0).Done? && Zips(rules[i].tmpl, Lives(bs), 0)
    ensures
      var same := Agrees(Expander.Compare(use.depth, use.env));
      exists env :: Binds(sr, same, patterns[i], use.args, env) &&
        forall out :: SyntaxRules.Instance(sr, false, templates[i], env, ren, out) <==> out == form
  {
    hide Binds, SyntaxRules.Instance, Runs, Zips, Rel, MatchSpec, Inst, CompileRule;
    var same := Agrees(Expander.Compare(use.depth, use.env));
    MatchIsRelation(same, rules[i].pat, use.args, bs);
    RuleMeans(sr, same, patterns[i], templates[i], use.args);
    var env :| Binds(sr, same, patterns[i], use.args, env);
    assert forall out :: SyntaxRules.Instance(sr, false, templates[i], env, ren, out) <==> out == form;
  }
}
