/** What dynamic-wind, call/cc, escapes, handlers, parameterize and guard are for,
    without any thunks: every active call has a context of its own, the handlers and
    the parameters it sees, and leaving the call means seeing the context around it
    again.  The machine that installs and removes handlers and swaps parameter values
    as it enters and leaves dynamic extents is proved to show the same in every run. */
module DynamicContexts {
  import opened Forms
  import opened DynamicExtent
  import opened Continuations

  datatype Context = Context(handlers: seq<nat>, params: map<nat, int>)

  /** An active call: its context, the winds it is inside of, innermost first, and its
      number if it is a call/cc. */
  datatype Level = Level(context: Context, winds: seq<nat>, mark: Option<nat>)

  /** The active calls, innermost first, the context at the start, how many call/cc
      and winds there have been, the handlers called, and what was entered and left. */
  datatype Machine = Machine(levels: seq<Level>, base: Context, marks: nat, made: nat, called: seq<nat>,
    log: seq<Event>)
  {
    function Now(): Context { if levels == [] then base else levels[0].context }

    function Winds(): seq<nat> { if levels == [] then [] else levels[0].winds }

    /** A call in a context of its own. */
    function Entered(context: Context): Machine {
      this.(levels := [Level(context, [made] + Winds(), None)] + levels, made := made + 1, log := log + [Before(made)])
    }

    /** Everything around level i, seen again. */
    function Back(rest: seq<Level>): Machine {
      var around := if rest == [] then [] else rest[0].winds;
      this.(levels := rest, log := log + Lefts(Inner(Winds(), around)))
    }

    /** A call in the context inside of the outermost n winds. */
    function Outside(n: nat): Machine {
      var out := if n <= |Winds()| then Winds()[|Winds()| - n..] else Winds();
      this.(levels := [Level(InnerContext(levels, base, n), out, None)] + levels,
            log := log + Lefts(Inner(Winds(), out)))
    }
  }

  /** The winds of `from` that are not around in `to`. */
  function Inner(from: seq<nat>, to: seq<nat>): seq<nat> {
    if |from| <= |to| then [] else from[..|from| - |to|]
  }

  /** Left from the innermost, entered from the outermost. */
  function Lefts(winds: seq<nat>): seq<Event> {
    if winds == [] then [] else [After(winds[0])] + Lefts(winds[1..])
  }

  function Entries(winds: seq<nat>): seq<Event> {
    if winds == [] then [] else Entries(winds[1..]) + [Before(winds[0])]
  }

  /** The value that a parameterize gives a parameter. */
  function Given(binds: seq<Bind>, p: nat): Option<int> {
    if binds == [] then None else if binds[0].param == p then Some(binds[0].value) else Given(binds[1..], p)
  }

  function Rebound(params: map<nat, int>, binds: seq<Bind>): map<nat, int> {
    map p | p in params :: if Given(binds, p).Some? then Given(binds, p).value else params[p]
  }

  /** What is around call/cc number c. */
  function Around(levels: seq<Level>, c: nat): seq<Level> {
    if levels == [] then [] else if levels[0].mark == Some(c) then levels[1..] else Around(levels[1..], c)
  }

  predicate Marked(levels: seq<Level>, c: nat) {
    levels != [] && (levels[0].mark == Some(c) || Marked(levels[1..], c))
  }

  /** The context inside of exactly n winds. */
  function InnerContext(levels: seq<Level>, base: Context, n: nat): Context {
    if levels == [] then base
    else if |levels[0].winds| == n then levels[0].context else InnerContext(levels[1..], base, n)
  }

  function Next(m: Machine, op: Op): Machine {
    match op
    case DynamicWind => m.Entered(m.Now())
    case WithHandler(h) => m.Entered(m.Now().(handlers := [h] + m.Now().handlers))
    case Raise =>
      var hs := m.Now().handlers;
      if hs == [] then m else m.Entered(m.Now().(handlers := hs[1..])).(called := m.called + [hs[0]])
    case Parameterize(binds) => m.Entered(m.Now().(params := Rebound(m.Now().params, binds)))
    case WindReturn => if m.levels == [] then m else m.Back(m.levels[1..])
    case CallCC => m.(levels := [Level(m.Now(), m.Winds(), Some(m.marks))] + m.levels, marks := m.marks + 1)
    case CallCCReturn => if m.levels == [] then m else m.(levels := m.levels[1..])
    case Escape(c) => if Marked(m.levels, c) then m.Back(Around(m.levels, c)) else m
    case GuardExit(guard) => m.Outside(|guard|)
    case GuardReenter =>
      if m.levels == [] then m else
      var back := m.(levels := m.levels[1..]);
      back.(log := m.log + Entries(Inner(back.Winds(), m.Winds())))
  }

  function Begin(base: Base): Machine {
    Machine([], Context(base.handlers, base.params), 0, 0, [], [])
  }

  function Later(m: Machine, ops: seq<Op>): Machine
    decreases |ops|
  {
    if ops == [] then m else Later(Next(m, ops[0]), ops[1..])
  }

  /* ---- The machine of the code shows the same ---- */

  function Ids(ext: seq<Frame>): seq<nat> { seq(|ext|, i requires 0 <= i < |ext| => ext[i].id) }

  function ContextOf(ext: seq<Frame>, base: Base): Context {
    Context(HandlersAt(ext, base), ParamsAt(ext, base))
  }

  /** Each active call of the C stack has its level. */
  ghost predicate LevelsAre(levels: seq<Level>, control: seq<Item>, base: Base) {
    if control == [] then levels == []
    else
      levels != [] && LevelsAre(levels[1..], control[1..], base) &&
      levels[0].context == ContextOf(ExtOf(control), base) && levels[0].winds == Ids(ExtOf(control)) &&
      levels[0].mark == if control[0].Calling? then Some(control[0].c) else None
  }

  ghost predicate Shows(m: Machine, s: State, base: Base) {
    LevelsAre(m.levels, s.control, base) && m.base == Context(base.handlers, base.params) &&
    m.marks == |s.conts| && m.made == s.next && m.called == s.called && m.log == s.dyn.log
  }

  lemma Top(m: Machine, s: State, base: Base)
    requires Shows(m, s, base) && Inv(s, base)
    ensures m.Now() == ContextOf(s.ext, base) == Context(s.dyn.handlers, s.dyn.params) && m.Winds() == Ids(s.ext)
  {
    HandlersFollow(s, base);
  }

  lemma EnteredShows(m: Machine, s: State, action: Action, context: Context, base: Base)
    requires Shows(m, s, base) && Inv(s, base) && Fits(s, action, base)
    requires context == ContextOf([Frame(s.next, action)] + s.ext, base)
    ensures Shows(m.Entered(context), Enter(s, action), base)
  {
    hide Inv, Consistent, Fits, RunBefore;
    var f := Frame(s.next, action);
    Top(m, s, base);
    EnterKeeps(s, action, base);
    EnterLog(s, action, base);
    Pushed(Winding(f), s.control, base, s.dyn);
    ExtIs(s, base);
    var m' := m.Entered(context);
    assert m'.levels[1..] == m.levels;
    assert Ids([f] + s.ext) == [s.next] + Ids(s.ext);
  }

  lemma ExtIs(s: State, base: Base)
    requires Inv(s, base)
    ensures s.ext == ExtOf(s.control)
  {
  }

  lemma EnterLog(s: State, action: Action, base: Base)
    requires Inv(s, base) && Fits(s, action, base)
    ensures Enter(s, action).dyn.log == s.dyn.log + [Before(s.next)]
    ensures Enter(s, action).control == [Winding(Frame(s.next, action))] + s.control
    ensures Enter(s, action).conts == s.conts && Enter(s, action).next == s.next + 1
    ensures Enter(s, action).called == s.called
  {
    EnterKeeps(s, action, base);
  }

  lemma {:induction false} GivenIs(binds: seq<Bind>, p: nat)
    requires DynamicExtent.Apart(binds)
    ensures forall k :: 0 <= k < |binds| && binds[k].param == p ==> Given(binds, p) == Some(binds[k].value)
    ensures (forall k :: 0 <= k < |binds| ==> binds[k].param != p) ==> Given(binds, p).None?
  {
    if binds != [] {
      assert forall k :: 0 < k < |binds| ==> binds[k] == binds[1..][k - 1];
      GivenIs(binds[1..], p);
    }
  }

  lemma ReboundIs(binds: seq<Bind>, params: map<nat, int>)
    requires DynamicExtent.Apart(binds) && forall k :: 0 <= k < |binds| ==> binds[k].param in params
    ensures Bound(binds, params) == Rebound(params, binds)
  {
    BoundIs(binds, params);
    BoundKeys(binds, params);
    forall p | p in params ensures Bound(binds, params)[p] == Rebound(params, binds)[p] {
      GivenIs(binds, p);
      if k :| 0 <= k < |binds| && binds[k].param == p { }
    }
  }

  lemma ContextPushed(f: Frame, ext: seq<Frame>, base: Base)
    ensures
      var context := ContextOf(ext, base);
      ContextOf([f] + ext, base) ==
      match f.action
      case Plain => context
      case SetHandlers(next, _) => context.(handlers := next)
      case Swap(binds) => context.(params := Bound(binds, context.params))
  {
    assert ([f] + ext)[1..] == ext;
  }

  /** The four ways to enter a wind. */
  lemma WindShows(m: Machine, s: State, op: Op, base: Base)
    requires Shows(m, s, base) && Inv(s, base) && Possible(s, op)
    requires op.DynamicWind? || op.WithHandler? || op.Raise? || op.Parameterize?
    ensures Shows(Next(m, op), Step(s, op), base)
  {
    hide Shows, Inv, Bound, Rebound;
    Top(m, s, base);
    HandlersFollow(s, base);
    match op
    case DynamicWind =>
      ContextPushed(Frame(s.next, Plain), s.ext, base);
      EnteredShows(m, s, Plain, m.Now(), base);
    case WithHandler(h) =>
      var action := SetHandlers([h] + s.dyn.handlers, s.dyn.handlers);
      ContextPushed(Frame(s.next, action), s.ext, base);
      EnteredShows(m, s, action, m.Now().(handlers := [h] + m.Now().handlers), base);
    case Raise =>
      var action := SetHandlers(s.dyn.handlers[1..], s.dyn.handlers);
      ContextPushed(Frame(s.next, action), s.ext, base);
      EnteredShows(m, s, action, m.Now().(handlers := m.Now().handlers[1..]), base);
      var m' := m.Entered(m.Now().(handlers := m.Now().handlers[1..]));
      CalledToo(m', Enter(s, action), m, s, s.dyn.handlers[0], base);
    case Parameterize(binds) =>
      ContextPushed(Frame(s.next, Swap(binds)), s.ext, base);
      ReboundIs(binds, s.dyn.params);
      EnteredShows(m, s, Swap(binds), m.Now().(params := Rebound(m.Now().params, binds)), base);
  }

  lemma CalledToo(m': Machine, s': State, m: Machine, s: State, h: nat, base: Base)
    requires Shows(m', s', base) && m'.called == m.called && s'.called == s.called
    ensures Shows(m'.(called := m.called + [h]), s'.(called := s.called + [h]), base)
  {
  }

  lemma {:induction false} AroundIs(levels: seq<Level>, control: seq<Item>, base: Base, c: nat)
    requires LevelsAre(levels, control, base)
    ensures Marked(levels, c) <==> c in CallIds(control)
    ensures LevelsAre(Around(levels, c), Beneath(control, c), base)
  {
    if control != [] { AroundIs(levels[1..], control[1..], base, c); }
  }

  lemma {:induction false} LeftsAre(fs: seq<Frame>)
    ensures Lefts(Ids(fs)) == Afters(fs) && Entries(Ids(fs)) == Befores(fs)
  {
    if fs != [] {
      assert Ids(fs)[1..] == Ids(fs[1..]);
      LeftsAre(fs[1..]);
    }
  }

  lemma InnerIs(ext: seq<Frame>, dest: seq<Frame>)
    requires Suffix(dest, ext)
    ensures Inner(Ids(ext), Ids(dest)) == Ids(Above(ext, dest))
    ensures Ids(ext)[|ext| - |dest|..] == Ids(dest)
  {
    assert forall i :: 0 <= i < |dest| ==> ext[|ext| - |dest| + i] == dest[i];
  }

  lemma BackShows(m: Machine, s: State, rest: seq<Level>, s': State, base: Base)
    requires Shows(m, s, base) && Inv(s, base) && LevelsAre(rest, s'.control, base)
    requires Suffix(ExtOf(s'.control), s.ext) && s'.dyn.log == s.dyn.log + Afters(Above(s.ext, ExtOf(s'.control)))
    requires |s'.conts| == |s.conts| && s'.next == s.next && s'.called == s.called
    ensures Shows(m.Back(rest), s', base)
  {
    hide Inv;
    Top(m, s, base);
    InnerIs(s.ext, ExtOf(s'.control));
    LeftsAre(Above(s.ext, ExtOf(s'.control)));
  }

  lemma ReturnShows(m: Machine, s: State, base: Base)
    requires Shows(m, s, base) && Inv(s, base) && Possible(s, WindReturn)
    ensures Shows(Next(m, WindReturn), Step(s, WindReturn), base)
  {
    hide ContsMatch, Counted, Tidy, Ordered;
    var f, rest := s.control[0].f, s.control[1..];
    assert s.ext == [f] + ExtOf(rest);
    ExitFrame(f, ExtOf(rest), base, s.dyn);
    assert Above(s.ext, ExtOf(rest)) == [f] && Afters([f]) == [After(f.id)];
    assert Suffix(ExtOf(rest), s.ext);
    BackShows(m, s, m.levels[1..], Step(s, WindReturn), base);
  }

  lemma CallShows(m: Machine, s: State, base: Base)
    requires Shows(m, s, base) && Inv(s, base)
    ensures Shows(Next(m, CallCC), Step(s, CallCC), base)
  {
    Top(m, s, base);
    Pushed(Calling(|s.conts|), s.control, base, s.dyn);
    assert Next(m, CallCC).levels[1..] == m.levels;
  }

  lemma CallReturnShows(m: Machine, s: State, base: Base)
    requires Shows(m, s, base) && Inv(s, base) && Possible(s, CallCCReturn)
    ensures Shows(Next(m, CallCCReturn), Step(s, CallCCReturn), base)
  {
    UnwindSize(s.stack, s.conts, s.control[0].c);
  }

  lemma {:induction false} UnwindSize(stack: seq<nat>, conts: seq<Option<seq<Frame>>>, c: nat)
    ensures |Unwind(stack, conts, c).conts| == |conts|
    decreases |stack|
  {
    if stack != [] {
      UnwindSize(stack[1..], if stack[0] < |conts| then conts[stack[0] := None] else conts, c);
    }
  }

  lemma EscapeShows(m: Machine, s: State, c: nat, base: Base)
    requires Shows(m, s, base) && Inv(s, base) && Possible(s, Escape(c)) && Outward(s, Escape(c))
    ensures Shows(Next(m, Escape(c)), Step(s, Escape(c)), base)
  {
    hide Inv, Suffix, Escaped;
    AroundIs(m.levels, s.control, base, c);
    ActiveIsCallable(s.control, c);
    EscapeLands(s, c, base);
    EscapeRest(s, c);
    if s.conts[c].Some? { BackShows(m, s, Around(m.levels, c), Escaped(s, c), base); }
  }

  lemma EscapeRest(s: State, c: nat)
    requires c < |s.conts|
    ensures Escaped(s, c).next == s.next && Escaped(s, c).called == s.called
  {
  }

  /** The context inside of the winds of an extent around the current one. */
  lemma {:induction false} InsideIs(levels: seq<Level>, control: seq<Item>, base: Base, ext: seq<Frame>)
    requires LevelsAre(levels, control, base) && Ordered(control) && Suffix(ext, ExtOf(control))
    ensures InnerContext(levels, Context(base.handlers, base.params), |ext|) == ContextOf(ext, base)
  {
    hide HandlersAt, ParamsAt;
    if control == [] {
      BaseContext(base);
    } else {
      if |ExtOf(control)| == |ext| {
        assert ext == ExtOf(control);
      } else {
        SuffixBelow(ext, control);
        InsideIs(levels[1..], control[1..], base, ext);
      }
    }
  }

  lemma BaseContext(base: Base)
    ensures ContextOf([], base) == Context(base.handlers, base.params)
  {
  }

  /** An extent that is not that of the whole C stack is around that of its rest. */
  lemma SuffixBelow(ext: seq<Frame>, control: seq<Item>)
    requires control != [] && Ordered(control) && Suffix(ext, ExtOf(control)) && |ext| < |ExtOf(control)|
    ensures Suffix(ext, ExtOf(control[1..]))
  {
    match control[0] {
      case Winding(f) => assert ExtOf(control)[1..] == ExtOf(control[1..]);
      case Calling(_) =>
      case Clauses(dest, guard) => SuffixTrans(ext, guard, dest);
    }
  }

  /** What the guard's exit leaves. */
  lemma GuardExitIs(s: State, guard: seq<Frame>, base: Base)
    requires Inv(s, base) && Possible(s, GuardExit(guard))
    ensures
      var s' := Step(s, GuardExit(guard));
      Suffix(guard, s.ext) && s'.control == [Clauses(s.ext, guard)] + s.control && s'.conts == s.conts &&
      s'.next == s.next && s'.called == s.called && s'.dyn.log == s.dyn.log + Afters(Above(s.ext, guard))
  {
    hide Consistent, LeftOut, Counted, Touches, RunAfters, Tidy, ContsMatch;
    assert Suffix(guard, s.ext);
    ExitTo(s.ext, guard, base, s.dyn);
  }

  lemma OutsideIs(m: Machine, n: nat)
    requires n <= |m.Winds()|
    ensures
      var out := m.Winds()[|m.Winds()| - n..];
      var m' := m.Outside(n);
      m'.levels == [Level(InnerContext(m.levels, m.base, n), out, None)] + m.levels &&
      m'.log == m.log + Lefts(Inner(m.Winds(), out)) &&
      m'.base == m.base && m'.marks == m.marks && m'.made == m.made && m'.called == m.called
  {
    hide InnerContext, Lefts, Inner;
  }

  lemma LevelPushed(l: Level, levels: seq<Level>, i: Item, control: seq<Item>, base: Base)
    requires LevelsAre(levels, control, base) && (l.mark == if i.Calling? then Some(i.c) else None)
    requires l.context == ContextOf(ExtOf([i] + control), base) && l.winds == Ids(ExtOf([i] + control))
    ensures LevelsAre([l] + levels, [i] + control, base)
  {
    hide ExtOf, Ids, ContextOf;
    assert ([l] + levels)[1..] == levels && ([i] + control)[1..] == control;
  }

  lemma GuardLeftShows(m: Machine, s: State, s': State, guard: seq<Frame>, base: Base)
    requires Shows(m, s, base) && m.Winds() == Ids(s.ext)
    requires s.ext == ExtOf(s.control) && Ordered(s.control) && Suffix(guard, s.ext)
    requires s'.control == [Clauses(s.ext, guard)] + s.control && s'.conts == s.conts
    requires s'.next == s.next && s'.called == s.called && s'.dyn.log == s.dyn.log + Afters(Above(s.ext, guard))
    ensures Shows(m.Outside(|guard|), s', base)
  {
    hide Machine.Outside, LevelsAre, InnerContext, HandlersAt, ParamsAt, Ordered, Inner, Lefts, Afters, Above;
    InsideIs(m.levels, s.control, base, guard);
    InnerIs(s.ext, guard);
    LeftsAre(Above(s.ext, guard));
    OutsideIs(m, |guard|);
    LevelPushed(m.Outside(|guard|).levels[0], m.levels, Clauses(s.ext, guard), s.control, base);
  }

  lemma GuardExitShows(m: Machine, s: State, guard: seq<Frame>, base: Base)
    requires Shows(m, s, base) && Inv(s, base) && Possible(s, GuardExit(guard))
    ensures Shows(Next(m, GuardExit(guard)), Step(s, GuardExit(guard)), base)
  {
    hide Possible, Step, Shows, InnerContext, Inner, Lefts, Around, Marked, Rebound;
    GuardExitIs(s, guard, base);
    Top(m, s, base);
    GuardLeftShows(m, s, Step(s, GuardExit(guard)), guard, base);
  }

  lemma GuardBackShows(m: Machine, s: State, base: Base)
    requires Shows(m, s, base) && Inv(s, base) && Possible(s, GuardReenter)
    ensures Shows(Next(m, GuardReenter), Step(s, GuardReenter), base)
  {
    hide Consistent, LeftOut, Counted, Touches, RunBefores, Tidy, ContsMatch;
    var dest, guard, rest := s.control[0].dest, s.control[0].guard, s.control[1..];
    var fs := Above(dest, guard);
    Top(m, s, base);
    assert s.control == [s.control[0]] + rest;
    Pushed(s.control[0], rest, base, s.dyn);
    assert fs + guard == dest;
    OrderedDistinct(rest);
    CrossedIs(fs, guard);
    EnterFrames(fs, guard, base, s.dyn);
    InnerIs(dest, guard);
    LeftsAre(fs);
  }

  /** Every step shows the same as the step of the reference. */
  lemma StepShows(m: Machine, s: State, op: Op, base: Base)
    requires Shows(m, s, base) && Inv(s, base) && Possible(s, op) && Outward(s, op)
    ensures Shows(Next(m, op), Step(s, op), base)
  {
    hide Shows, Inv, Outward, Next, Step;
    match op
    case WindReturn => ReturnShows(m, s, base);
    case CallCC => CallShows(m, s, base);
    case CallCCReturn => CallReturnShows(m, s, base);
    case Escape(c) => EscapeShows(m, s, c, base);
    case GuardExit(guard) => GuardExitShows(m, s, guard, base);
    case GuardReenter => GuardBackShows(m, s, base);
    case _ => WindShows(m, s, op, base);
  }

  lemma {:induction false} RunShows(m: Machine, s: State, ops: seq<Op>, base: Base)
    requires Shows(m, s, base) && Inv(s, base) && Allowed(s, ops)
    ensures Shows(Later(m, ops), Run(s, ops), base)
    decreases |ops|
  {
    hide Shows, Inv, Next, Step;
    if ops != [] {
      StepShows(m, s, ops[0], base);
      StepKeeps(s, ops[0], base);
      RunShows(Next(m, ops[0]), Step(s, ops[0]), ops[1..], base);
    }
  }

  /** After every run the handlers and the parameter values are those of the context of
      the innermost active call, the handlers called are those innermost at each raise,
      and the same thunks have run in the same order. */
  lemma RunsAgree(ops: seq<Op>, base: Base)
    requires Allowed(Start(base), ops)
    ensures
      var s, m := Run(Start(base), ops), Later(Begin(base), ops);
      s.dyn.handlers == m.Now().handlers && s.dyn.params == m.Now().params && s.called == m.called &&
      s.dyn.log == m.log
  {
    assert Counted([], []);
    RunShows(Begin(base), Start(base), ops, base);
    RunKeeps(Start(base), ops, base);
    Top(Later(Begin(base), ops), Run(Start(base), ops), base);
  }
}
