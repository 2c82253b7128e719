/** syntax-rules as section 4.3.2 of R7RS describes it, on patterns and templates as
    they are written: which forms match, what the variables then stand for, and what a
    template is instantiated to.  Nothing here is compiled. */
module SyntaxRules {
  import opened Forms
  import opened Patterns

  /** The ellipsis and the literals of a syntax-rules form. */
  datatype Syntax = Syntax(ellipsis: Ident, literals: seq<Ident>)

  const UNDERSCORE := Sym(0)

  /** The ellipsis, unless it is escaped or one of the literals. */
  predicate Dots(sr: Syntax, escaped: bool, f: Form) {
    f.FId? && Root(f.id) == Root(sr.ellipsis) && !escaped &&
    forall i :: 0 <= i < |sr.literals| ==> Root(sr.literals[i]) != Root(sr.ellipsis)
  }

  /** The identifiers that are neither ellipsis nor literal, the last first; None for an
      underscore. */
  function Variables(sr: Syntax, p: Form): seq<Option<Ident>> {
    match p
    case FPair(a, d) => Variables(sr, d) + Variables(sr, a)
    case FVec(items) => Variables(sr, items)
    case FId(x) =>
      if Dots(sr, false, p) || x in sr.literals then []
      else if Root(x) == UNDERSCORE then [None] else [Some(x)]
    case _ => []
  }

  /** The number of ellipses over each of them, with d around the pattern. */
  function Depths(sr: Syntax, p: Form, d: nat): seq<nat> {
    match p
    case FPair(a, r) =>
      if r.FPair? && Dots(sr, false, r.car) then Depths(sr, r.cdr, d) + Depths(sr, a, d + 1)
      else Depths(sr, r, d) + Depths(sr, a, d)
    case FVec(items) => Depths(sr, items, d)
    case FId(x) => if Dots(sr, false, p) || x in sr.literals then [] else [d]
    case _ => []
  }

  /** What each variable is given. */
  function Assoc<T>(vars: seq<Option<Ident>>, vals: seq<T>): map<Ident, T>
    requires |vars| == |vals|
  {
    if vars == [] then map[]
    else
      var rest := Assoc(vars[1..], vals[1..]);
      if vars[0].Some? then rest[vars[0].value := vals[0]] else rest
  }

  function Names(sr: Syntax, p: Form): set<Ident> {
    set v | v in Variables(sr, p) && v.Some? :: v.value
  }

  /** What the variables stand for in repetition k. */
  function Row(env: map<Ident, Binding>, k: nat): map<Ident, Binding> {
    map x | x in env :: if env[x].Many? && k < |env[x].items| then env[x].items[k] else env[x]
  }

  /* ---- Patterns ---- */

  /** The form matches the pattern with the variables bound as in `env`. */
  ghost predicate Matches(sr: Syntax, same: (Ident, Ident) -> bool, p: Form, f: Form, env: map<Ident, Binding>)
    decreases p
  {
    match p
    case FNil => f.FNil?
    case FAtom(v) => f == FAtom(v)
    case FVec(items) => f.FVec? && Matches(sr, same, items, f.items, env)
    case FId(x) =>
      if x in sr.literals then f.FId? && same(x, f.id)
      else Root(x) == UNDERSCORE || (x in env && env[x] == One(f))
    case FPair(a, d) =>
      if d.FPair? && Dots(sr, false, d.car) then
        exists es: seq<Form>, r: Form ::
          f == Prepend(es, r) && CountPairs(r) == CountPairs(d.cdr) &&
          (forall x :: x in Names(sr, a) ==> x in env && env[x].Many? && |env[x].items| == |es|) &&
          (forall k :: 0 <= k < |es| ==> Matches(sr, same, a, es[k], Row(env, k))) &&
          Matches(sr, same, d.cdr, r, env)
      else f.FPair? && Matches(sr, same, a, f.car, env) && Matches(sr, same, d, f.cdr, env)
  }

  /** The elements of a list and what follows the last pair. */
  function Elements(f: Form): seq<Form> {
    if f.FPair? then [f.car] + Elements(f.cdr) else []
  }

  function End(f: Form): Form {
    if f.FPair? then End(f.cdr) else f
  }

  /** A pattern: in a list one ellipsis at most, after an element; in a vector only at
      the end. */
  ghost predicate Pattern(sr: Syntax, p: Form)
    decreases p, 2
  {
    match p
    case FPair(_, _) => PatternList(sr, p)
    case FVec(items) =>
      (items.FPair? ==> PatternList(sr, items)) &&
      forall i :: 0 <= i < |Elements(items)| - 1 ==> !Dots(sr, false, Elements(items)[i])
    case _ => !Dots(sr, false, p)
  }

  ghost predicate PatternList(sr: Syntax, p: Form)
    requires p.FPair?
    decreases p, 1
  {
    var es := Elements(p);
    !Dots(sr, false, es[0]) && !Dots(sr, false, End(p)) &&
    (forall i, j :: 0 <= i < j < |es| && Dots(sr, false, es[i]) ==> !Dots(sr, false, es[j])) && Parts(sr, p)
  }

  /** Each element that is no ellipsis is a pattern, and so is the end. */
  ghost predicate Parts(sr: Syntax, p: Form)
    decreases p, if p.FPair? then 0 else 3
  {
    if p.FPair? then (Dots(sr, false, p.car) || Pattern(sr, p.car)) && Parts(sr, p.cdr) else Pattern(sr, p)
  }

  /** No variable twice. */
  ghost predicate Once(vars: seq<Option<Ident>>) {
    forall i, j :: 0 <= i < j < |vars| && vars[i].Some? ==> vars[i] != vars[j]
  }

  /* ---- Templates ---- */

  function Identifiers(t: Form): set<Ident> {
    match t
    case FPair(a, d) => Identifiers(a) + Identifiers(d)
    case FVec(items) => Identifiers(items)
    case FId(x) => {x}
    case _ => {}
  }

  /** A subtemplate is repeated n times: no variable of it that is still to be repeated
      has fewer, and one has as many. */
  ghost predicate Repeats(t: Form, env: map<Ident, Binding>, n: nat) {
    (forall x :: x in Identifiers(t) && x in env && env[x].Many? ==> n <= |env[x].items|) &&
    exists x :: x in Identifiers(t) && x in env && env[x].Many? && n == |env[x].items|
  }

  /** `out` is an instance of the template: a variable stands for its form wherever it
      occurs, an element before an ellipsis for one instance a repetition, and any other
      identifier for itself renamed. */
  ghost predicate Instance(sr: Syntax, escaped: bool, t: Form, env: map<Ident, Binding>, ren: map<Ident, Ident>,
                           out: Form)
    decreases t, 1
  {
    match t
    case FNil => out.FNil?
    case FAtom(v) => out == FAtom(v)
    case FId(x) =>
      if x in env then env[x] == One(out) else out == FId(if x in ren then ren[x] else x)
    case FVec(items) => out.FVec? && InstanceList(sr, escaped, items, env, ren, out.items)
    case FPair(a, d) =>
      if Dots(sr, escaped, a) && d.FPair? && d.cdr.FNil? then Instance(sr, true, d.car, env, ren, out)
      else InstanceList(sr, escaped, t, env, ren, out)
  }

  ghost predicate InstanceList(sr: Syntax, escaped: bool, t: Form, env: map<Ident, Binding>, ren: map<Ident, Ident>,
                               out: Form)
    decreases t, if t.FPair? then 0 else 2
  {
    if !t.FPair? then Instance(sr, escaped, t, env, ren, out)
    else if t.cdr.FPair? && Dots(sr, escaped, t.cdr.car) then
      exists es: seq<Form>, r: Form ::
        out == Prepend(es, r) && Repeats(t.car, env, |es|) &&
        (forall k :: 0 <= k < |es| ==> Instance(sr, escaped, t.car, Row(env, k), ren, es[k])) &&
        InstanceList(sr, escaped, t.cdr.cdr, env, ren, r)
    else
      out.FPair? && Instance(sr, escaped, t.car, env, ren, out.car) &&
      InstanceList(sr, escaped, t.cdr, env, ren, out.cdr)
  }

  /** A template under d ellipses, where variable x was under levels[x] in the pattern: a
      variable under as many at least, and before an ellipsis one that is under exactly
      as many somewhere. */
  ghost predicate Template(sr: Syntax, escaped: bool, t: Form, d: nat, levels: map<Ident, nat>)
    decreases t, 1
  {
    match t
    case FId(x) => x in levels ==> levels[x] <= d
    case FVec(items) => TemplateList(sr, escaped, items, d, levels)
    case FPair(a, r) =>
      if Dots(sr, escaped, a) && r.FPair? && r.cdr.FNil? then Template(sr, true, r.car, d, levels)
      else !Dots(sr, escaped, a) && TemplateList(sr, escaped, t, d, levels)
    case _ => true
  }

  ghost predicate TemplateList(sr: Syntax, escaped: bool, t: Form, d: nat, levels: map<Ident, nat>)
    decreases t, if t.FPair? then 0 else 2
  {
    if !t.FPair? then !Dots(sr, escaped, t) && Template(sr, escaped, t, d, levels)
    else if Dots(sr, escaped, t.car) then false
    else if t.cdr.FPair? && Dots(sr, escaped, t.cdr.car) then
      Template(sr, escaped, t.car, d + 1, levels) && Controls(sr, escaped, t.car, d + 1, levels) &&
      TemplateList(sr, escaped, t.cdr.cdr, d, levels)
    else Template(sr, escaped, t.car, d, levels) && TemplateList(sr, escaped, t.cdr, d, levels)
  }

  /** Some variable is under exactly as many ellipses as in the pattern. */
  ghost predicate Controls(sr: Syntax, escaped: bool, t: Form, d: nat, levels: map<Ident, nat>)
    decreases t, 1
  {
    match t
    case FId(x) => x in levels && levels[x] == d
    case FVec(items) => ControlsList(sr, escaped, items, d, levels)
    case FPair(a, r) =>
      if Dots(sr, escaped, a) && r.FPair? && r.cdr.FNil? then Controls(sr, true, r.car, d, levels)
      else ControlsList(sr, escaped, t, d, levels)
    case _ => false
  }

  ghost predicate ControlsList(sr: Syntax, escaped: bool, t: Form, d: nat, levels: map<Ident, nat>)
    decreases t, if t.FPair? then 0 else 2
  {
    if !t.FPair? then Controls(sr, escaped, t, d, levels)
    else if t.cdr.FPair? && Dots(sr, escaped, t.cdr.car) then
      Controls(sr, escaped, t.car, d + 1, levels) || ControlsList(sr, escaped, t.cdr.cdr, d, levels)
    else Controls(sr, escaped, t.car, d, levels) || ControlsList(sr, escaped, t.cdr, d, levels)
  }
}
