/** Runs of dynamic-wind, call/cc, escapes, exception handlers, parameterize and
    guard (src/continuation.c, src/module-srfi34.c, src/r7rs.c), as a machine
    whose control stack is the C stack. */
module Continuations {
  import opened Forms
  import opened DynamicExtent

  /** What is active on the C stack, innermost first: a dynamic-wind whose thunk
      runs, a call/cc whose procedure runs, or the clauses of a guard, evaluated
      in the extent `guard` while the raise is suspended in the extent `dest`. */
  datatype Item = Winding(f: Frame) | Calling(c: nat) | Clauses(dest: seq<Frame>, guard: seq<Frame>)

  function ExtOf(control: seq<Item>): seq<Frame> {
    if control == [] then []
    else match control[0]
      case Winding(f) => [f] + ExtOf(control[1..])
      case Calling(_) => ExtOf(control[1..])
      case Clauses(_, guard) => guard
  }

  function StackOf(control: seq<Item>): seq<nat> {
    if control == [] then []
    else if control[0].Calling? then [control[0].c] + StackOf(control[1..])
    else StackOf(control[1..])
  }

  function FrameIds(control: seq<Item>): set<nat> {
    if control == [] then {}
    else if control[0].Winding? then {control[0].f.id} + FrameIds(control[1..])
    else FrameIds(control[1..])
  }

  function CallIds(control: seq<Item>): set<nat> {
    if control == [] then {}
    else if control[0].Calling? then {control[0].c} + CallIds(control[1..])
    else CallIds(control[1..])
  }

  /** What is active around call/cc number c. */
  function Beneath(control: seq<Item>, c: nat): seq<Item> {
    if control == [] then []
    else if control[0] == Calling(c) then control[1..]
    else Beneath(control[1..], c)
  }

  predicate Suffix(a: seq<Frame>, b: seq<Frame>) {
    |a| <= |b| && b[|b| - |a|..] == a
  }

  /** Frames and continuations are numbered in the order they are made, and the
      clauses of a guard run in an extent around that of the raise. */
  ghost predicate Ordered(control: seq<Item>) {
    control != [] ==>
      Ordered(control[1..]) &&
      match control[0]
      case Winding(f) => forall id :: id in FrameIds(control[1..]) ==> id < f.id
      case Calling(c) => forall c' :: c' in CallIds(control[1..]) ==> c' < c
      case Clauses(dest, guard) => dest == ExtOf(control[1..]) && Suffix(guard, dest)
  }

  /** The frames that a guard has left can be entered again. */
  ghost predicate Tidy(control: seq<Item>, base: Base, d: Dyn) {
    control != [] ==>
      Tidy(control[1..], base, d) &&
      (control[0].Clauses? ==>
        var dest, guard := control[0].dest, control[0].guard;
        |guard| <= |dest| && LeftOut(Above(dest, guard), guard, base, d))
  }

  /** l_current_dynamic_extent, the frames of the continuations made so far (None
      is INVALID_CONTINUATION_OPAQUE), l_continuation_stack, the C stack, the
      state of the wind thunks, the number of the next frame, and the handlers that
      raises have called. */
  datatype State = State(ext: seq<Frame>, conts: seq<Option<seq<Frame>>>, stack: seq<nat>, control: seq<Item>,
    dyn: Dyn, next: nat, called: seq<nat>)

  /** Every frame of the current extent was entered once more than left, every
      other one as often. */
  ghost predicate Counted(log: seq<Event>, ext: seq<Frame>) {
    forall id :: multiset(log)[Before(id)] == multiset(log)[After(id)] + (if id in IdSet(ext) then 1 else 0)
  }

  /** The value that a continuation should hold: the extent around its call/cc
      while that is active, afterwards nothing. */
  function Captured(control: seq<Item>, c: nat): Option<seq<Frame>> {
    if c in CallIds(control) then Some(ExtOf(Beneath(control, c))) else None
  }

  ghost predicate ContsMatch(conts: seq<Option<seq<Frame>>>, control: seq<Item>) {
    (forall c :: c in CallIds(control) ==> c < |conts|) &&
    forall c :: 0 <= c < |conts| ==> conts[c] == Captured(control, c)
  }

  ghost predicate Inv(s: State, base: Base) {
    s.ext == ExtOf(s.control) && s.stack == StackOf(s.control) && Ordered(s.control) &&
    (forall id :: id in FrameIds(s.control) ==> id < s.next) &&
    ContsMatch(s.conts, s.control) &&
    Consistent(s.ext, base, s.dyn) && Tidy(s.control, base, s.dyn) && Counted(s.dyn.log, s.ext)
  }

  /* ---- Steps ---- */

  datatype Op =
    | DynamicWind
    | WithHandler(handler: nat)
    | Raise
    | Parameterize(binds: seq<Bind>)
    | WindReturn
    | CallCC
    | CallCCReturn
    | Escape(c: nat)
    | GuardExit(guard: seq<Frame>)
    | GuardReenter

  /** Two extents are the same list when they start with the same cell. */
  predicate Same(a: seq<Frame>, b: seq<Frame>) {
    if a == [] || b == [] then a == b else a[0].id == b[0].id
  }

  /** How many frames are passed walking from `from` to `dest` or to the end. */
  function Crossed(from: seq<Frame>, dest: seq<Frame>): (n: nat)
    ensures n <= |from|
  {
    if from == [] || Same(from, dest) then 0 else 1 + Crossed(from[1..], dest)
  }

  /** The pairs of the bindings vector of a new parameterize. */
  function WithCells(id: nat, action: Action, d: Dyn): Dyn {
    if action.Swap?
    then d.(cells := d.cells + map k | 0 <= k < |action.binds| :: (id, k) := action.binds[k].value)
    else d
  }

  function Enter(s: State, action: Action): State {
    var f := Frame(s.next, action);
    s.(ext := [f] + s.ext, dyn := RunBefore(f, WithCells(f.id, action, s.dyn)),
       control := [Winding(f)] + s.control, next := s.next + 1)
  }

  datatype Unwound = Unwound(stack: seq<nat>, conts: seq<Option<seq<Frame>>>, found: bool)

  /** continuation_stack_unwind. */
  function Unwind(stack: seq<nat>, conts: seq<Option<seq<Frame>>>, c: nat): Unwound {
    if stack == [] then Unwound([], conts, false)
    else
      var conts' := if stack[0] < |conts| then conts[stack[0] := None] else conts;
      if stack[0] == c then Unwound(stack[1..], conts', true) else Unwind(stack[1..], conts', c)
  }

  /** Frame j of the extent is that of a handler; a guard keeps the extent around
      its handler to evaluate its clauses there. */
  predicate Installed(ext: seq<Frame>, j: nat)
    requires j < |ext|
  {
    ext[j].action.SetHandlers? && Installs(ext[j].action.next, ext[j].action.prev)
  }

  /** What the C stack and the callers of the primitives allow next. */
  ghost predicate Possible(s: State, op: Op) {
    match op
    case DynamicWind => true
    case WithHandler(_) => true
    case Raise => s.dyn.handlers != []
    case Parameterize(binds) => Apart(binds) && forall k :: 0 <= k < |binds| ==> binds[k].param in s.dyn.params
    case WindReturn => s.control != [] && s.control[0].Winding? && s.ext != []
    case CallCC => true
    case CallCCReturn => s.control != [] && s.control[0].Calling?
    case Escape(c) => c < |s.conts|
    case GuardExit(guard) => exists j :: 0 <= j < |s.ext| && Installed(s.ext, j) && guard == s.ext[j + 1..]
    case GuardReenter => s.control != [] && s.control[0].Clauses?
  }

  /** An escape does not go into an extent that a guard has left. */
  ghost predicate Outward(s: State, op: Op) {
    op.Escape? && op.c < |s.conts| && s.conts[op.c].Some? ==> Suffix(s.conts[op.c].value, s.ext)
  }

  function Step(s: State, op: Op): State
    requires Possible(s, op)
  {
    match op
    case DynamicWind => Enter(s, Plain)
    case WithHandler(h) => Enter(s, SetHandlers([h] + s.dyn.handlers, s.dyn.handlers))
    case Raise =>
      var s' := Enter(s, SetHandlers(s.dyn.handlers[1..], s.dyn.handlers));
      s'.(called := s'.called + [s.dyn.handlers[0]])
    case Parameterize(binds) => Enter(s, Swap(binds))
    case WindReturn =>
      s.(ext := s.ext[1..], dyn := RunAfter(s.control[0].f, s.dyn), control := s.control[1..])
    case CallCC =>
      var c := |s.conts|;
      s.(conts := s.conts + [Some(s.ext)], stack := [c] + s.stack, control := [Calling(c)] + s.control)
    case CallCCReturn =>
      var u := Unwind(s.stack, s.conts, s.control[0].c);
      s.(stack := u.stack, conts := u.conts, control := s.control[1..])
    case Escape(c) => Escaped(s, c)
    case GuardExit(guard) => GuardLeft(s, guard)
    case GuardReenter => GuardBack(s)
  }

  /** scm_call_continuation up to the return from the call/cc. */
  function Escaped(s: State, c: nat): State
    requires c < |s.conts|
  {
    if s.conts[c].None? then s
    else
      var dest, u := s.conts[c].value, Unwind(s.stack, s.conts, c);
      if !u.found then s.(stack := u.stack, conts := u.conts)
      else
        var n := Crossed(s.ext, dest);
        var exited := RunAfters(s.ext[..n], s.dyn);
        var entered := RunBefores(dest[..Crossed(dest, s.ext[n..])], exited);
        State(s.ext[n..], u.conts, u.stack, Beneath(s.control, c), entered, s.next, s.called)
  }

  /** guard_handler_body before the clauses, and after them when none matched. */
  function GuardLeft(s: State, guard: seq<Frame>): State {
    var n := Crossed(s.ext, guard);
    s.(ext := s.ext[n..], dyn := RunAfters(s.ext[..n], s.dyn), control := [Clauses(s.ext, guard)] + s.control)
  }

  function GuardBack(s: State): State
    requires s.control != [] && s.control[0].Clauses?
  {
    var dest := s.control[0].dest;
    s.(ext := dest, dyn := RunBefores(dest[..Crossed(dest, s.ext)], s.dyn), control := s.control[1..])
  }

  /* ---- Lemmas about the control stack ---- */

  lemma SuffixIds(a: seq<Frame>, b: seq<Frame>)
    requires Suffix(a, b)
    ensures IdSet(a) <= IdSet(b)
  {
    forall i | 0 <= i < |a| ensures a[i].id in IdSet(b) { assert a[i] == b[|b| - |a| + i]; }
  }

  lemma {:induction false} ExtIds(control: seq<Item>)
    requires Ordered(control)
    ensures IdSet(ExtOf(control)) <= FrameIds(control)
  {
    if control != [] {
      ExtIds(control[1..]);
      match control[0]
      case Winding(f) =>
        assert ExtOf(control)[1..] == ExtOf(control[1..]);
        IdsOfRest(ExtOf(control));
      case Calling(_) =>
      case Clauses(dest, guard) =>
        SuffixIds(guard, dest);
    }
  }

  /** Walking from an extent to a list cell further down passes what is above. */
  lemma {:induction false} CrossedIs(fs: seq<Frame>, dest: seq<Frame>)
    requires forall i, j :: 0 <= i < j < |fs + dest| ==> (fs + dest)[i].id != (fs + dest)[j].id
    ensures Crossed(fs + dest, dest) == |fs|
  {
    if fs == [] {
      assert fs + dest == dest;
    } else {
      assert (fs + dest)[1..] == fs[1..] + dest;
      if dest != [] { assert (fs + dest)[|fs|] == dest[0] && (fs + dest)[0] == fs[0]; }
      CrossedIs(fs[1..], dest);
    }
  }

  lemma {:induction false} NestedDistinct(ext: seq<Frame>, base: Base, d: Dyn)
    requires Nested(ext, base, d)
    ensures forall i, j :: 0 <= i < j < |ext| ==> ext[j].id < ext[i].id
  {
    if ext != [] {
      NestedDistinct(ext[1..], base, d);
      forall i, j | 0 <= i < j < |ext| ensures ext[j].id < ext[i].id {
        if i > 0 { assert ext[i] == ext[1..][i - 1] && ext[j] == ext[1..][j - 1]; }
      }
    }
  }

  ghost predicate Distinct(ext: seq<Frame>) {
    forall i, j :: 0 <= i < j < |ext| ==> ext[j].id < ext[i].id
  }

  lemma {:induction false} OrderedDistinct(control: seq<Item>)
    requires Ordered(control)
    ensures Distinct(ExtOf(control))
  {
    if control != [] {
      OrderedDistinct(control[1..]);
      match control[0]
      case Winding(f) =>
        ExtIds(control[1..]);
        var ext, rest := ExtOf(control), ExtOf(control[1..]);
        assert ext[1..] == rest;
        forall i, j | 0 <= i < j < |ext| ensures ext[j].id < ext[i].id {
          assert ext[j] == rest[j - 1] && rest[j - 1].id in IdSet(rest);
          if i > 0 { assert ext[i] == rest[i - 1]; }
        }
      case Calling(_) =>
      case Clauses(dest, guard) =>
        forall i, j | 0 <= i < j < |guard| ensures guard[j].id < guard[i].id {
          assert guard[i] == dest[|dest| - |guard| + i] && guard[j] == dest[|dest| - |guard| + j];
        }
    }
  }

  /** The part of the extent `ext` that `dest` does not share. */
  function Above(ext: seq<Frame>, dest: seq<Frame>): seq<Frame>
    requires |dest| <= |ext|
  {
    ext[..|ext| - |dest|]
  }

  lemma AboveIds(ext: seq<Frame>, dest: seq<Frame>)
    requires Suffix(dest, ext)
    ensures IdSet(Above(ext, dest)) <= IdSet(ext)
    ensures Distinct(ext) ==> IdSet(Above(ext, dest)) !! IdSet(dest)
  {
    var fs := Above(ext, dest);
    forall i | 0 <= i < |fs| ensures fs[i].id in IdSet(ext) { assert fs[i] == ext[i]; }
    if Distinct(ext) {
      forall i, j | 0 <= i < |fs| && 0 <= j < |dest| ensures fs[i].id != dest[j].id {
        assert ext[i] == fs[i] && ext[|fs| + j] == dest[j];
      }
    }
  }

  /** Frames that a guard has left are not touched by what happens to those of
      the current extent. */
  lemma {:induction false} TidyKept(control: seq<Item>, base: Base, d: Dyn, d': Dyn, ids: set<nat>)
    requires Tidy(control, base, d) && Ordered(control) && Touches(d, d', ids)
    requires forall id :: id in ids && id in FrameIds(control) ==> id in IdSet(ExtOf(control))
    ensures Tidy(control, base, d')
  {
    hide Touches, LeftOut;
    if control != [] {
      var rest := control[1..];
      match control[0]
      case Winding(f) =>
        assert ExtOf(control)[1..] == ExtOf(rest);
        IdsOfRest(ExtOf(control));
        TidyKept(rest, base, d, d', ids);
      case Calling(_) =>
        TidyKept(rest, base, d, d', ids);
      case Clauses(dest, guard) =>
        SuffixIds(guard, dest);
        TidyKept(rest, base, d, d', ids);
        OrderedDistinct(rest);
        ExtIds(rest);
        AboveIds(dest, guard);
        LeftOutKept(Above(dest, guard), guard, base, d, d', ids);
    }
  }

  lemma {:induction false} BeneathKeeps(control: seq<Item>, base: Base, d: Dyn, c: nat)
    requires Ordered(control) && Tidy(control, base, d) && c in CallIds(control)
    ensures Ordered(Beneath(control, c)) && Tidy(Beneath(control, c), base, d)
    ensures FrameIds(Beneath(control, c)) <= FrameIds(control) && CallIds(Beneath(control, c)) <= CallIds(control)
    ensures |Beneath(control, c)| < |control|
    ensures forall id ::
      id in IdSet(ExtOf(control)) && id in FrameIds(Beneath(control, c)) ==> id in IdSet(ExtOf(Beneath(control, c)))
  {
    var rest := control[1..];
    if control[0] == Calling(c) {
      ExtIds(rest);
    } else {
      BeneathKeeps(rest, base, d, c);
      match control[0]
      case Winding(f) =>
        assert ExtOf(control)[1..] == ExtOf(rest);
        IdsOfRest(ExtOf(control));
      case Calling(_) =>
      case Clauses(dest, guard) =>
        SuffixIds(guard, dest);
    }
  }

  lemma {:induction false} UnwindIs(control: seq<Item>, conts: seq<Option<seq<Frame>>>, c: nat)
    requires Ordered(control) && ContsMatch(conts, control) && c in CallIds(control)
    ensures
      var u := Unwind(StackOf(control), conts, c);
      u.found && u.stack == StackOf(Beneath(control, c)) && ContsMatch(u.conts, Beneath(control, c)) &&
        |u.conts| == |conts|
  {
    var rest := control[1..];
    if control[0].Calling? {
      var x := control[0].c;
      var conts' := conts[x := None];
      assert StackOf(control)[1..] == StackOf(rest);
      assert ContsMatch(conts', rest);
      if x != c { UnwindIs(rest, conts', c); }
    } else {
      assert forall k :: k in CallIds(rest) ==> Captured(control, k) == Captured(rest, k);
      assert ContsMatch(conts, rest);
      UnwindIs(rest, conts, c);
    }
  }

  /* ---- Every step keeps the invariant ---- */

  lemma CountedPush(log: seq<Event>, ext: seq<Frame>, f: Frame)
    requires Counted(log, ext) && f.id !in IdSet(ext)
    ensures Counted(log + [Before(f.id)], [f] + ext)
  {
    assert ([f] + ext)[1..] == ext;
    IdsOfRest([f] + ext);
  }

  lemma CountedPop(log: seq<Event>, ext: seq<Frame>, f: Frame)
    requires Counted(log, [f] + ext) && f.id !in IdSet(ext)
    ensures Counted(log + [After(f.id)], ext)
  {
    assert ([f] + ext)[1..] == ext;
    IdsOfRest([f] + ext);
  }

  lemma DistinctRest(f: Frame, rest: seq<Frame>)
    requires Distinct([f] + rest)
    ensures Distinct(rest) && f.id !in IdSet(rest)
  {
    forall i | 0 <= i < |rest| ensures rest[i].id < f.id {
      assert ([f] + rest)[i + 1] == rest[i] && ([f] + rest)[0] == f;
    }
    forall i, j | 0 <= i < j < |rest| ensures rest[j].id < rest[i].id {
      assert ([f] + rest)[i + 1] == rest[i] && ([f] + rest)[j + 1] == rest[j];
    }
  }

  lemma {:induction false} CountedExit(log: seq<Event>, fs: seq<Frame>, rest: seq<Frame>)
    requires Counted(log, fs + rest) && Distinct(fs + rest)
    ensures Counted(log + Afters(fs), rest)
    decreases fs
  {
    hide Counted, Distinct;
    if fs == [] {
      assert fs + rest == rest && log + Afters(fs) == log;
    } else {
      var around := fs[1..] + rest;
      assert fs + rest == [fs[0]] + around;
      DistinctRest(fs[0], around);
      CountedPop(log, around, fs[0]);
      CountedExit(log + [After(fs[0].id)], fs[1..], rest);
      assert log + [After(fs[0].id)] + Afters(fs[1..]) == log + Afters(fs);
    }
  }

  lemma {:induction false} CountedEnter(log: seq<Event>, fs: seq<Frame>, rest: seq<Frame>)
    requires Counted(log, rest) && Distinct(fs + rest)
    ensures Counted(log + Befores(fs), fs + rest)
    decreases fs
  {
    hide Counted, Distinct;
    if fs == [] {
      assert fs + rest == rest && log + Befores(fs) == log;
    } else {
      var around := fs[1..] + rest;
      assert fs + rest == [fs[0]] + around;
      DistinctRest(fs[0], around);
      CountedEnter(log, fs[1..], rest);
      CountedPush(log + Befores(fs[1..]), around, fs[0]);
      assert log + Befores(fs[1..]) + [Before(fs[0].id)] == log + Befores(fs);
    }
  }

  /** What one more item changes. */
  lemma Pushed(item: Item, rest: seq<Item>, base: Base, d: Dyn)
    ensures
      var control := [item] + rest;
      control[1..] == rest &&
      ExtOf(control) ==
        (if item.Winding? then [item.f] + ExtOf(rest) else if item.Calling? then ExtOf(rest) else item.guard) &&
      StackOf(control) == (if item.Calling? then [item.c] + StackOf(rest) else StackOf(rest)) &&
      FrameIds(control) == (if item.Winding? then {item.f.id} + FrameIds(rest) else FrameIds(rest)) &&
      CallIds(control) == (if item.Calling? then {item.c} + CallIds(rest) else CallIds(rest)) &&
      Tidy(control, base, d) == (Tidy(rest, base, d) &&
        (item.Clauses? ==> |item.guard| <= |item.dest| && LeftOut(Above(item.dest, item.guard), item.guard, base, d)))
  {
    assert ([item] + rest)[1..] == rest;
  }

  /** Only call/cc and its return concern the continuations. */
  lemma ContsUnmoved(conts: seq<Option<seq<Frame>>>, control: seq<Item>)
    requires control != [] && !control[0].Calling?
    ensures ContsMatch(conts, control) <==> ContsMatch(conts, control[1..])
    ensures StackOf(control) == StackOf(control[1..])
  {
    var rest := control[1..];
    assert CallIds(control) == CallIds(rest);
    forall c: nat ensures Captured(control, c) == Captured(rest, c) {
      assert control[0] != Calling(c) && Beneath(control, c) == Beneath(rest, c);
    }
  }

  /** The action fits the current extent. */
  ghost predicate Fits(s: State, action: Action, base: Base) {
    MadeOn(Frame(s.next, action), s.ext, base)
  }

  lemma EnterKeeps(s: State, action: Action, base: Base)
    requires Inv(s, base) && Fits(s, action, base)
    ensures Inv(Enter(s, action), base)
    ensures Enter(s, action).dyn.log == s.dyn.log + [Before(s.next)]
  {
    hide ContsMatch, Consistent, Counted, Touches, LeftOut;
    var f, s' := Frame(s.next, action), Enter(s, action);
    var d := WithCells(f.id, action, s.dyn);
    Pushed(Winding(f), s.control, base, s'.dyn);
    ExtIds(s.control);
    forall i | 0 <= i < |s.ext| ensures s.ext[i].id < s.next { assert s.ext[i].id in IdSet(s.ext); }
    CellsMade(f, s.dyn);
    WithCellsConsistent(s.ext, base, s.dyn, d, f.id);
    EnterFrame(f, s.ext, base, d);
    TidyKept(s.control, base, s.dyn, d, {f.id});
    TidyKept(s.control, base, d, s'.dyn, {f.id});
    CountedPush(s.dyn.log, s.ext, f);
    ContsUnmoved(s.conts, s'.control);
  }

  lemma CellsMade(f: Frame, d: Dyn)
    ensures Touches(d, WithCells(f.id, f.action, d), {f.id}) && Outside(f, WithCells(f.id, f.action, d))
  {
  }

  lemma WithCellsConsistent(ext: seq<Frame>, base: Base, d: Dyn, d': Dyn, id: nat)
    requires Consistent(ext, base, d) && Touches(d, d', {id}) && id !in IdSet(ext)
    requires d'.handlers == d.handlers && d'.params == d.params
    ensures Consistent(ext, base, d')
  {
    NestedKept(ext, base, d, d', {id});
  }

  lemma WindReturnKeeps(s: State, base: Base)
    requires Inv(s, base) && Possible(s, WindReturn)
    ensures Inv(Step(s, WindReturn), base)
  {
    hide ContsMatch, Consistent, Counted;
    var f, s', rest := s.control[0].f, Step(s, WindReturn), s.control[1..];
    assert s.control == [s.control[0]] + rest;
    Pushed(s.control[0], rest, base, s.dyn);
    assert s.ext == [f] + ExtOf(rest) && s.ext[1..] == ExtOf(rest);
    ExtIds(rest);
    ExitFrame(f, ExtOf(rest), base, s.dyn);
    TidyKept(rest, base, s.dyn, s'.dyn, {f.id});
    CountedPop(s.dyn.log, s'.ext, f);
    ContsUnmoved(s.conts, s.control);
  }

  lemma CallCCKeeps(s: State, base: Base)
    requires Inv(s, base)
    ensures Inv(Step(s, CallCC), base)
  {
    hide Consistent, Counted;
    var s', n := Step(s, CallCC), |s.conts|;
    Pushed(Calling(n), s.control, base, s.dyn);
    assert Ordered(s'.control);
    forall c | 0 <= c < |s'.conts| ensures s'.conts[c] == Captured(s'.control, c) {
      if c < n {
        assert s.conts[c] == Captured(s.control, c) && s'.control[0] != Calling(c);
        assert Beneath(s'.control, c) == Beneath(s.control, c);
      } else {
        assert s'.control[0] == Calling(c) && Beneath(s'.control, c) == s.control;
      }
    }
  }

  lemma CallCCReturnKeeps(s: State, base: Base)
    requires Inv(s, base) && Possible(s, CallCCReturn)
    ensures Inv(Step(s, CallCCReturn), base)
  {
    hide Consistent, Counted, ContsMatch;
    var c, rest := s.control[0].c, s.control[1..];
    assert s.control == [Calling(c)] + rest;
    Pushed(Calling(c), rest, base, s.dyn);
    assert Beneath(s.control, c) == rest;
    UnwindIs(s.control, s.conts, c);
  }

  /** Leaving for an extent around the current one: what runs and what is left. */
  lemma ExitTo(ext: seq<Frame>, dest: seq<Frame>, base: Base, d: Dyn)
    requires Consistent(ext, base, d) && Suffix(dest, ext) && Counted(d.log, ext)
    ensures
      var n := Crossed(ext, dest);
      var d' := RunAfters(ext[..n], d);
      n == |ext| - |dest| && ext[..n] == Above(ext, dest) && ext[n..] == dest &&
      Consistent(dest, base, d') && LeftOut(ext[..n], dest, base, d') && Counted(d'.log, dest) &&
      d'.log == d.log + Afters(Above(ext, dest)) && Touches(d, d', IdSet(Above(ext, dest))) &&
      IdSet(Above(ext, dest)) !! IdSet(dest)
  {
    hide Consistent, LeftOut, Counted, Touches, RunAfters;
    var fs := Above(ext, dest);
    assert fs + dest == ext;
    ConsistentDistinct(ext, base, d);
    CrossedIs(fs, dest);
    ExitFrames(fs, dest, base, d);
    CountedExit(d.log, fs, dest);
    AboveIds(ext, dest);
  }

  lemma ConsistentDistinct(ext: seq<Frame>, base: Base, d: Dyn)
    requires Consistent(ext, base, d)
    ensures Distinct(ext)
  {
    NestedDistinct(ext, base, d);
  }

  lemma EscapeKeeps(s: State, base: Base, c: nat)
    requires Inv(s, base) && Possible(s, Escape(c)) && Outward(s, Escape(c))
    ensures Inv(Escaped(s, c), base)
  {
    hide Consistent, Counted, LeftOut, Touches;
    if s.conts[c].Some? {
      var dest, below := s.conts[c].value, Beneath(s.control, c);
      var s' := Escaped(s, c);
      UnwindIs(s.control, s.conts, c);
      ExitTo(s.ext, dest, base, s.dyn);
      NoneToEnter(dest);
      BeneathKeeps(s.control, base, s.dyn, c);
      var d' := RunAfters(s.ext[..Crossed(s.ext, dest)], s.dyn);
      assert s'.dyn == d';
      AboveIds(s.ext, dest);
      TidyKept(below, base, s.dyn, d', IdSet(Above(s.ext, dest)));
    }
  }

  lemma NoneToEnter(dest: seq<Frame>)
    ensures Crossed(dest, dest) == 0
    ensures forall d: Dyn :: RunBefores(dest[..0], d) == d
  {
  }

  lemma GuardExitKeeps(s: State, base: Base, guard: seq<Frame>)
    requires Inv(s, base) && Possible(s, GuardExit(guard))
    ensures Inv(GuardLeft(s, guard), base)
  {
    hide ContsMatch, Consistent, Counted, LeftOut, Touches;
    var s' := GuardLeft(s, guard);
    ExitTo(s.ext, guard, base, s.dyn);
    Pushed(Clauses(s.ext, guard), s.control, base, s'.dyn);
    AboveIds(s.ext, guard);
    TidyKept(s.control, base, s.dyn, s'.dyn, IdSet(Above(s.ext, guard)));
    ContsUnmoved(s.conts, s'.control);
  }

  lemma GuardReenterKeeps(s: State, base: Base)
    requires Inv(s, base) && Possible(s, GuardReenter)
    ensures Inv(GuardBack(s), base)
  {
    hide ContsMatch, Consistent, Counted, LeftOut, Touches;
    var dest, guard, rest := s.control[0].dest, s.control[0].guard, s.control[1..];
    var fs, s' := Above(dest, guard), GuardBack(s);
    assert s.control == [s.control[0]] + rest;
    Pushed(s.control[0], rest, base, s.dyn);
    assert fs + guard == dest;
    OrderedDistinct(rest);
    CrossedIs(fs, guard);
    EnterFrames(fs, guard, base, s.dyn);
    CountedEnter(s.dyn.log, fs, guard);
    AboveIds(dest, guard);
    TidyKept(rest, base, s.dyn, s'.dyn, IdSet(fs));
    ContsUnmoved(s.conts, s.control);
  }

  lemma CalledApart(s: State, called: seq<nat>, base: Base)
    requires Inv(s, base)
    ensures Inv(s.(called := called), base)
  {
  }

  lemma StepKeeps(s: State, op: Op, base: Base)
    requires Inv(s, base) && Possible(s, op) && Outward(s, op)
    ensures Inv(Step(s, op), base)
  {
    hide Inv;
    match op
    case DynamicWind => assert Fits(s, Plain, base); EnterKeeps(s, Plain, base);
    case WithHandler(h) =>
      HandlersFollow(s, base);
      EnterKeeps(s, SetHandlers([h] + s.dyn.handlers, s.dyn.handlers), base);
    case Raise =>
      HandlersFollow(s, base);
      EnterKeeps(s, SetHandlers(s.dyn.handlers[1..], s.dyn.handlers), base);
      CalledApart(Enter(s, SetHandlers(s.dyn.handlers[1..], s.dyn.handlers)), s.called + [s.dyn.handlers[0]], base);
    case Parameterize(binds) =>
      HandlersFollow(s, base);
      EnterKeeps(s, Swap(binds), base);
    case WindReturn => WindReturnKeeps(s, base);
    case CallCC => CallCCKeeps(s, base);
    case CallCCReturn => CallCCReturnKeeps(s, base);
    case Escape(c) => EscapeKeeps(s, base, c);
    case GuardExit(guard) => GuardExitKeeps(s, base, guard);
    case GuardReenter => GuardReenterKeeps(s, base);
  }

  /** "corrupted dynamic extent" is never reported. */
  lemma ReturnPossible(s: State, base: Base)
    requires Inv(s, base) && s.control != [] && s.control[0].Winding?
    ensures Possible(s, WindReturn) && s.ext[0] == s.control[0].f
  {
  }

  lemma HandlersFollow(s: State, base: Base)
    requires Inv(s, base)
    ensures s.dyn.handlers == HandlersAt(s.ext, base) && s.dyn.params == ParamsAt(s.ext, base)
  {
  }

  /** Every handler that is installed has its frame in the extent. */
  lemma {:induction false} HandlerFrame(ext: seq<Frame>, base: Base, d: Dyn, i: nat) returns (j: nat)
    requires Nested(ext, base, d) && i + |base.handlers| < |HandlersAt(ext, base)|
    ensures j < |ext| && Installed(ext, j)
    ensures ext[j].action == SetHandlers(HandlersAt(ext, base)[i..], HandlersAt(ext, base)[i + 1..])
  {
    var rest, hs := ext[1..], HandlersAt(ext, base);
    if !ext[0].action.SetHandlers? {
      j := HandlerFrame(rest, base, d, i);
      j := j + 1;
    } else if Uninstalls(hs, ext[0].action.prev) {
      j := HandlerFrame(rest, base, d, i + 1);
      j := j + 1;
    } else if i > 0 {
      assert hs[i..] == ext[0].action.prev[i - 1..] && hs[i + 1..] == ext[0].action.prev[i..];
      j := HandlerFrame(rest, base, d, i - 1);
      j := j + 1;
    } else {
      assert hs[0..] == hs;
      j := 0;
    }
  }

  /** When a handler is called that a guard installed, its frame is in the extent,
      so the guard can leave for the extent around it. */
  lemma GuardReached(s: State, base: Base) returns (j: nat)
    requires Inv(s, base) && |s.dyn.handlers| > |base.handlers|
    ensures j < |s.ext| && s.ext[j].action == SetHandlers(s.dyn.handlers, s.dyn.handlers[1..])
    ensures Possible(s, Raise) && Possible(Step(Step(s, Raise), CallCC), GuardExit(s.ext[j + 1..]))
  {
    var hs := s.dyn.handlers;
    j := HandlerFrame(s.ext, base, s.dyn, 0);
    assert hs[0..] == hs;
    var s2 := Step(Step(s, Raise), CallCC);
    assert s2.ext[j + 1] == s.ext[j] && s2.ext[j + 2..] == s.ext[j + 1..];
    assert Installed(s2.ext, j + 1);
  }

  /* ---- Runs ---- */

  function Start(base: Base): State {
    State([], [], [], [], Dyn(base.handlers, base.params, map[], []), 0, [])
  }

  ghost predicate Allowed(s: State, ops: seq<Op>)
    decreases ops
  {
    ops != [] ==> Possible(s, ops[0]) && Outward(s, ops[0]) && Allowed(Step(s, ops[0]), ops[1..])
  }

  ghost function Run(s: State, ops: seq<Op>): State
    requires Allowed(s, ops)
    decreases ops
  {
    if ops == [] then s else Run(Step(s, ops[0]), ops[1..])
  }

  lemma {:induction false} RunKeeps(s: State, ops: seq<Op>, base: Base)
    requires Inv(s, base) && Allowed(s, ops)
    ensures Inv(Run(s, ops), base)
    decreases ops
  {
    if ops != [] {
      StepKeeps(s, ops[0], base);
      RunKeeps(Step(s, ops[0]), ops[1..], base);
    }
  }

  /** After every run from the start, the handlers are those of the innermost
      handler frame and every parameter has its innermost binding; each frame of
      the extent was entered once more than left, every other as often. */
  lemma RunFollowsExtent(ops: seq<Op>, base: Base)
    requires Allowed(Start(base), ops)
    ensures
      var s := Run(Start(base), ops);
      s.dyn.handlers == HandlersAt(s.ext, base) && s.dyn.params == ParamsAt(s.ext, base) &&
      Counted(s.dyn.log, s.ext) && Distinct(s.ext)
  {
    assert Counted([], []);
    RunKeeps(Start(base), ops, base);
    OrderedDistinct(Run(Start(base), ops).control);
  }

  /* ---- Escapes ---- */

  predicate Unguarded(control: seq<Item>) {
    forall i :: 0 <= i < |control| ==> !control[i].Clauses?
  }

  lemma SuffixTrans(a: seq<Frame>, b: seq<Frame>, c: seq<Frame>)
    requires Suffix(a, b) && Suffix(b, c)
    ensures Suffix(a, c)
  {
    assert c[|c| - |a|..] == c[|c| - |b|..][|b| - |a|..];
  }

  lemma {:induction false} BeneathSuffix(control: seq<Item>, c: nat)
    requires Unguarded(control) && c in CallIds(control)
    ensures Unguarded(Beneath(control, c)) && Suffix(ExtOf(Beneath(control, c)), ExtOf(control))
  {
    var rest := control[1..];
    assert forall i :: 0 <= i < |rest| ==> rest[i] == control[i + 1];
    if control[0] != Calling(c) {
      BeneathSuffix(rest, c);
      if control[0].Winding? {
        assert ExtOf(control)[1..] == ExtOf(rest);
        assert Suffix(ExtOf(rest), ExtOf(control));
        SuffixTrans(ExtOf(Beneath(control, c)), ExtOf(rest), ExtOf(control));
      }
    }
  }

  /** While no guard runs its clauses, the extent of each stacked continuation is a
      suffix of those above it and of the current extent. */
  lemma {:induction false} StackedSuffixes(control: seq<Item>, i: nat, j: nat)
    requires Ordered(control) && Unguarded(control) && i < j < |StackOf(control)|
    ensures
      var a, b := StackOf(control)[i], StackOf(control)[j];
      a in CallIds(control) && b in CallIds(control) &&
      Suffix(ExtOf(Beneath(control, b)), ExtOf(Beneath(control, a))) &&
      Suffix(ExtOf(Beneath(control, a)), ExtOf(control))
  {
    hide Suffix;
    var rest, a, b := control[1..], StackOf(control)[i], StackOf(control)[j];
    assert forall k :: 0 <= k < |rest| ==> rest[k] == control[k + 1];
    StackCalls(control, i);
    StackCalls(control, j);
    BeneathSuffix(control, a);
    if control[0].Calling? {
      StackCalls(rest, j - 1);
      assert Beneath(control, b) == Beneath(rest, b);
      if i == 0 {
        BeneathSuffix(rest, b);
      } else {
        StackCalls(rest, i - 1);
        assert Beneath(control, a) == Beneath(rest, a);
        StackedSuffixes(rest, i - 1, j - 1);
      }
    } else {
      StackedSuffixes(rest, i, j);
    }
  }

  lemma {:induction false} StackCalls(control: seq<Item>, i: nat)
    requires i < |StackOf(control)|
    ensures StackOf(control)[i] in CallIds(control)
  {
    if control[0].Calling? {
      if i > 0 { StackCalls(control[1..], i - 1); }
    } else {
      StackCalls(control[1..], i);
    }
  }

  /** In a run without guards every escape goes outward. */
  lemma UnguardedOutward(s: State, op: Op, base: Base)
    requires Inv(s, base) && Unguarded(s.control) && Possible(s, op)
    ensures Outward(s, op)
    ensures !op.GuardExit? ==> Unguarded(Step(s, op).control)
  {
    if op.Escape? && s.conts[op.c].Some? { BeneathSuffix(s.control, op.c); }
  }

  /** Such a run needs no condition on its escapes. */
  ghost predicate PossibleAll(s: State, ops: seq<Op>)
    decreases ops
  {
    ops != [] ==> Possible(s, ops[0]) && !ops[0].GuardExit? && PossibleAll(Step(s, ops[0]), ops[1..])
  }

  lemma {:induction false} UnguardedRun(s: State, ops: seq<Op>, base: Base)
    requires Inv(s, base) && Unguarded(s.control) && PossibleAll(s, ops)
    ensures Allowed(s, ops) && Unguarded(Run(s, ops).control)
    decreases ops
  {
    if ops != [] {
      UnguardedOutward(s, ops[0], base);
      StepKeeps(s, ops[0], base);
      UnguardedRun(Step(s, ops[0]), ops[1..], base);
    }
  }

  /** In every run without a guard, handlers and parameters follow the extent, and
      a stacked continuation can be called: its extent is around the current one. */
  lemma UnguardedFollows(ops: seq<Op>, base: Base)
    requires PossibleAll(Start(base), ops)
    ensures Allowed(Start(base), ops)
    ensures
      var s := Run(Start(base), ops);
      s.dyn.handlers == HandlersAt(s.ext, base) && s.dyn.params == ParamsAt(s.ext, base) &&
      Counted(s.dyn.log, s.ext) && Distinct(s.ext) &&
      forall c :: 0 <= c < |s.conts| && s.conts[c].Some? ==> Suffix(s.conts[c].value, s.ext)
  {
    assert Counted([], []);
    UnguardedRun(Start(base), ops, base);
    RunFollowsExtent(ops, base);
    RunKeeps(Start(base), ops, base);
    var s := Run(Start(base), ops);
    forall c | 0 <= c < |s.conts| && s.conts[c].Some? ensures Suffix(s.conts[c].value, s.ext) {
      BeneathSuffix(s.control, c);
    }
  }

  /** A continuation holds a frame exactly while its call/cc is active. */
  lemma {:induction false} ActiveIsCallable(control: seq<Item>, c: nat)
    ensures c in CallIds(control) <==> exists i :: 0 <= i < |control| && control[i] == Calling(c)
  {
    if control != [] {
      ActiveIsCallable(control[1..], c);
      if i :| 0 <= i < |control| && control[i] == Calling(c) {
        assert i > 0 ==> control[1..][i - 1] == Calling(c);
      }
      if i :| 0 <= i < |control[1..]| && control[1..][i] == Calling(c) { assert control[i + 1] == Calling(c); }
      if control[0] == Calling(c) { assert control[0] == Calling(c); }
    }
  }

  /** Calling a continuation: it is expired exactly when its call/cc is no longer
      active, and then nothing happens.  Otherwise the escape runs the after
      thunk of each crossed frame once, innermost first, and no before thunk,
      lands in the extent of the call/cc, and expires that continuation and those
      made within. */
  lemma EscapeLands(s: State, c: nat, base: Base)
    requires Inv(s, base) && Possible(s, Escape(c)) && Outward(s, Escape(c))
    ensures s.conts[c].Some? <==> exists i :: 0 <= i < |s.control| && s.control[i] == Calling(c)
    ensures s.conts[c].None? ==> Escaped(s, c) == s
    ensures s.conts[c].Some? ==>
      var s', dest, below := Escaped(s, c), s.conts[c].value, Beneath(s.control, c);
      s'.ext == dest && Suffix(dest, s.ext) && dest == ExtOf(below) &&
      s'.dyn.log == s.dyn.log + Afters(Above(s.ext, dest)) && Distinct(s.ext) &&
      s'.control == below && s'.stack == StackOf(below) && |s'.conts| == |s.conts| &&
      forall k :: 0 <= k < |s.conts| ==> s'.conts[k] == if k in CallIds(below) then s.conts[k] else None
  {
    hide Consistent, Counted, LeftOut, Touches, Tidy, ContsMatch, Captured;
    ActiveIsCallable(s.control, c);
    ContsAre(s.conts, s.control);
    if s.conts[c].Some? {
      UnwindIs(s.control, s.conts, c);
      ExitTo(s.ext, s.conts[c].value, base, s.dyn);
      NoneToEnter(s.conts[c].value);
      OrderedDistinct(s.control);
      Expired(s.control, s.conts, Unwind(s.stack, s.conts, c).conts, c);
    }
  }

  lemma ContsAre(conts: seq<Option<seq<Frame>>>, control: seq<Item>)
    requires ContsMatch(conts, control)
    ensures forall c :: 0 <= c < |conts| ==>
      conts[c] == if c in CallIds(control) then Some(ExtOf(Beneath(control, c))) else None
  {
  }

  lemma Expired(control: seq<Item>, conts: seq<Option<seq<Frame>>>, conts': seq<Option<seq<Frame>>>, c: nat)
    requires Ordered(control) && c in CallIds(control) && |conts| == |conts'|
    requires ContsMatch(conts, control) && ContsMatch(conts', Beneath(control, c))
    ensures forall k :: 0 <= k < |conts| ==> conts'[k] == if k in CallIds(Beneath(control, c)) then conts[k] else None
  {
    forall k | k in CallIds(Beneath(control, c)) ensures Captured(control, k) == Captured(Beneath(control, c), k) {
      BeneathTwice(control, c, k);
    }
  }

  lemma {:induction false} BeneathTwice(control: seq<Item>, c: nat, k: nat)
    requires Ordered(control) && c in CallIds(control) && k in CallIds(Beneath(control, c))
    ensures k in CallIds(control) && Beneath(Beneath(control, c), k) == Beneath(control, k)
  {
    if control[0] != Calling(c) { BeneathTwice(control[1..], c, k); }
  }

  /* ---- Guards ---- */

  /** Equal C stacks: the extent, the stack, the handlers, the parameters and the
      pairs of active frames are the same, whatever happened in between. */
  lemma ControlDetermines(s: State, t: State, base: Base)
    requires Inv(s, base) && Inv(t, base) && s.control == t.control
    ensures s.ext == t.ext && s.stack == t.stack && s.dyn.handlers == t.dyn.handlers && s.dyn.params == t.dyn.params
    ensures forall c :: 0 <= c < |s.conts| && c < |t.conts| ==> s.conts[c] == t.conts[c]
    ensures forall c :: c in s.dyn.cells && CellOf(s.ext, c) ==> c in t.dyn.cells && t.dyn.cells[c] == s.dyn.cells[c]
  {
    forall c | c in s.dyn.cells && CellOf(s.ext, c) ensures c in t.dyn.cells && t.dyn.cells[c] == s.dyn.cells[c] {
      CellDetermined(s.ext, base, s.dyn, t.dyn, c);
    }
  }

  /** One of the pairs of a parameterize frame of the extent. */
  ghost predicate CellOf(ext: seq<Frame>, c: (nat, nat)) {
    exists i :: 0 <= i < |ext| && ext[i].id == c.0 && ext[i].action.Swap? && c.1 < |ext[i].action.binds|
  }

  lemma {:induction false} CellDetermined(ext: seq<Frame>, base: Base, d: Dyn, d': Dyn, c: (nat, nat))
    requires Nested(ext, base, d) && Nested(ext, base, d') && c in d.cells && CellOf(ext, c)
    ensures c in d'.cells && d'.cells[c] == d.cells[c]
  {
    var i :| 0 <= i < |ext| && ext[i].id == c.0 && ext[i].action.Swap? && c.1 < |ext[i].action.binds|;
    if i > 0 {
      assert ext[1..][i - 1] == ext[i];
      CellDetermined(ext[1..], base, d, d', c);
    } else {
      assert c == (ext[0].id, c.1);
    }
  }

  /** A guard with no matching clause: whatever its clauses did, entering the
      extent of the raise again restores extent, handlers, parameters and the
      continuations there were. */
  lemma GuardRestores(s: State, guard: seq<Frame>, ops: seq<Op>, base: Base)
    requires Inv(s, base) && Possible(s, GuardExit(guard)) && Allowed(GuardLeft(s, guard), ops)
    requires Run(GuardLeft(s, guard), ops).control == GuardLeft(s, guard).control
    ensures
      var s1 := GuardLeft(s, guard);
      var s2 := GuardBack(Run(s1, ops));
      s1.ext == guard && s1.dyn.handlers == HandlersAt(guard, base) && s1.dyn.params == ParamsAt(guard, base) &&
      s2.ext == s.ext && s2.stack == s.stack && s2.control == s.control &&
      s2.dyn.handlers == s.dyn.handlers && s2.dyn.params == s.dyn.params &&
      (forall c :: 0 <= c < |s.conts| && c < |s2.conts| ==> s2.conts[c] == s.conts[c]) &&
      forall c :: c in s.dyn.cells && CellOf(s.ext, c) ==> c in s2.dyn.cells && s2.dyn.cells[c] == s.dyn.cells[c]
  {
    hide Run, Allowed, Inv, Suffix;
    var s1 := GuardLeft(s, guard);
    GuardLeftIs(s, guard, base);
    HandlersFollow(s1, base);
    RunKeeps(s1, ops, base);
    GuardReenterKeeps(Run(s1, ops), base);
    ControlDetermines(s, GuardBack(Run(s1, ops)), base);
  }

  lemma GuardLeftIs(s: State, guard: seq<Frame>, base: Base)
    requires Inv(s, base) && Possible(s, GuardExit(guard))
    ensures
      var s1 := GuardLeft(s, guard);
      Inv(s1, base) && s1.ext == guard && s1.control == [Clauses(s.ext, guard)] + s.control &&
        s1.control[1..] == s.control
  {
    hide Consistent, LeftOut, Counted, Touches, RunAfters, Tidy, ContsMatch;
    GuardExitKeeps(s, base, guard);
    ExitTo(s.ext, guard, base, s.dyn);
  }

  /* ---- The primitives ---- */

  class Primitives {
    var currentDynamicExtent: seq<Frame>
    var frames: seq<Option<seq<Frame>>>
    var continuationStack: seq<nat>
    var dyn: Dyn
    var nextFrame: nat
    var calledHandlers: seq<nat>
    ghost var control: seq<Item>

    ghost function View(): State
      reads this
    {
      State(currentDynamicExtent, frames, continuationStack, control, dyn, nextFrame, calledHandlers)
    }

    constructor (handlers: seq<nat>, params: map<nat, int>)
      ensures View() == Start(Base(handlers, params))
    {
      currentDynamicExtent, frames, continuationStack := [], [], [];
      dyn := Dyn(handlers, params, map[], []);
      nextFrame, control, calledHandlers := 0, [], [];
    }

    method EnterDynamicExtent(dest: seq<Frame>)
      modifies this`dyn
      ensures dyn == RunBefores(dest[..Crossed(dest, currentDynamicExtent)], old(dyn))
    {
      var retpath, unwound := [], dest;
      ghost var n := Crossed(dest, currentDynamicExtent);
      while unwound != [] && !Same(unwound, currentDynamicExtent)
        invariant |retpath| <= n && unwound == dest[|retpath|..]
        invariant |retpath| + Crossed(unwound, currentDynamicExtent) == n
        invariant forall k :: 0 <= k < |retpath| ==> retpath[k] == dest[|retpath| - 1 - k]
        invariant dyn == old(dyn)
        decreases |unwound|
      {
        retpath := [unwound[0]] + retpath;
        unwound := unwound[1..];
      }
      ghost var fs := dest[..n];
      var i := 0;
      while i < |retpath|
        invariant i <= n == |retpath| == |fs|
        invariant forall k :: 0 <= k < n ==> retpath[k] == fs[n - 1 - k]
        invariant dyn == RunBefores(fs[n - i..], old(dyn))
      {
        assert fs[n - i - 1..][1..] == fs[n - i..];
        dyn := RunBefore(retpath[i], dyn);
        i := i + 1;
      }
      assert fs[0..] == fs;
    }

    method ExitDynamicExtent(dest: seq<Frame>)
      modifies this`currentDynamicExtent, this`dyn
      ensures currentDynamicExtent == old(currentDynamicExtent)[Crossed(old(currentDynamicExtent), dest)..]
      ensures dyn == RunAfters(old(currentDynamicExtent)[..Crossed(old(currentDynamicExtent), dest)], old(dyn))
    {
      ghost var n, i := Crossed(currentDynamicExtent, dest), 0;
      ghost var ext := currentDynamicExtent;
      while currentDynamicExtent != [] && !Same(currentDynamicExtent, dest)
        invariant i <= n <= |ext| && currentDynamicExtent == ext[i..]
        invariant i + Crossed(currentDynamicExtent, dest) == n
        invariant RunAfters(ext[i..n], dyn) == RunAfters(ext[..n], old(dyn))
        decreases |currentDynamicExtent|
      {
        var frame := currentDynamicExtent[0];
        currentDynamicExtent := currentDynamicExtent[1..];
        assert ext[i..n][1..] == ext[i + 1..n];
        dyn := RunAfter(frame, dyn);
        i := i + 1;
      }
    }

    method ContinuationStackUnwind(dest: nat) returns (found: bool)
      modifies this`continuationStack, this`frames
      ensures
        var u := Unwind(old(continuationStack), old(frames), dest);
        found == u.found && continuationStack == u.stack && frames == u.conts
    {
      found := false;
      while continuationStack != [] && !found
        invariant var u := Unwind(old(continuationStack), old(frames), dest);
          if found then u == Unwound(continuationStack, frames, true)
          else u == Unwind(continuationStack, frames, dest)
        decreases |continuationStack|
      {
        var cont := continuationStack[0];
        continuationStack := continuationStack[1..];
        if cont < |frames| { frames := frames[cont := None]; }
        found := cont == dest;
      }
    }

    /** scm_dynamic_wind up to the call of the thunk. */
    method Wind(action: Action)
      modifies this
      ensures View() == Enter(old(View()), action)
    {
      var f := Frame(nextFrame, action);
      dyn := RunBefore(f, WithCells(nextFrame, action, dyn));
      currentDynamicExtent := [f] + currentDynamicExtent;
      nextFrame := nextFrame + 1;
      control := [Winding(f)] + control;
    }

    /** The rest of it; `f` is the frame of this call. */
    method WindReturn(f: Frame) returns (corrupted: bool)
      requires control != [] && control[0] == Winding(f)
      modifies this
      ensures corrupted <==> old(currentDynamicExtent) == []
      ensures View() == if corrupted then old(View()) else Step(old(View()), Op.WindReturn)
    {
      corrupted := currentDynamicExtent == [];
      if corrupted { return; }
      currentDynamicExtent := currentDynamicExtent[1..];
      dyn := RunAfter(f, dyn);
      control := control[1..];
    }

    method WithExceptionHandler(handler: nat)
      modifies this
      ensures View() == Step(old(View()), Op.WithHandler(handler)) && dyn.handlers == [handler] + old(dyn.handlers)
    {
      Wind(SetHandlers([handler] + dyn.handlers, dyn.handlers));
    }

    /** scm_s_parameterize up to its body: the values are already evaluated. */
    method Parameterize(binds: seq<Bind>) returns (ok: bool)
      modifies this
      ensures ok <==> forall k :: 0 <= k < |binds| ==> binds[k].param in old(dyn.params)
      ensures View() == if ok then Enter(old(View()), Swap(binds)) else old(View())
    {
      var i := 0;
      while i < |binds| && binds[i].param in dyn.params
        invariant i <= |binds| && View() == old(View())
        invariant forall k :: 0 <= k < i ==> binds[k].param in dyn.params
      {
        i := i + 1;
      }
      ok := i == |binds|;
      if ok { Wind(Swap(binds)); }
    }

    /** raise_internal, with the call of the innermost handler among the outer ones. */
    method RaiseInternal() returns (fatal: bool)
      modifies this
      ensures fatal <==> old(dyn.handlers) == []
      ensures if fatal then View() == old(View()) else View() == Step(old(View()), Op.Raise)
      ensures !fatal ==>
        dyn.handlers == old(dyn.handlers)[1..] && calledHandlers == old(calledHandlers) + [old(dyn.handlers)[0]]
    {
      fatal := dyn.handlers == [];
      if !fatal {
        var handler := dyn.handlers[0];
        Wind(SetHandlers(dyn.handlers[1..], dyn.handlers));
        calledHandlers := calledHandlers + [handler];
      }
    }

    /** scm_call_with_current_continuation up to the call of the procedure. */
    method CallCC() returns (c: nat)
      modifies this
      ensures c == old(|frames|) && View() == Step(old(View()), Op.CallCC)
    {
      c := |frames|;
      frames := frames + [Some(currentDynamicExtent)];
      continuationStack := [c] + continuationStack;
      control := [Calling(c)] + control;
    }

    method CallCCReturn(c: nat)
      requires Possible(View(), Op.CallCCReturn) && control[0] == Calling(c)
      modifies this
      ensures View() == Step(old(View()), Op.CallCCReturn)
    {
      var _ := ContinuationStackUnwind(c);
      control := control[1..];
    }

    /** scm_call_continuation, and the return from call/cc that it jumps to. */
    method CallContinuation(c: nat) returns (expired: bool)
      requires c < |frames|
      modifies this
      ensures View() == Escaped(old(View()), c)
      ensures expired <==> old(frames)[c].None? || !Unwind(old(continuationStack), old(frames), c).found
    {
      expired := frames[c].None?;
      if !expired {
        var dest := frames[c].value;
        var found := ContinuationStackUnwind(c);
        expired := !found;
        if found {
          ExitDynamicExtent(dest);
          control := Beneath(control, c);
          EnterDynamicExtent(dest);
        }
      }
    }

    /** guard_handler_body before the clauses. */
    method GuardExit(guard: seq<Frame>) returns (raiseDynExt: seq<Frame>)
      modifies this
      ensures raiseDynExt == old(currentDynamicExtent) && View() == GuardLeft(old(View()), guard)
    {
      raiseDynExt := currentDynamicExtent;
      ExitDynamicExtent(guard);
      control := [Clauses(raiseDynExt, guard)] + control;
    }

    /** And after them when none matched. */
    method GuardReenter(raiseDynExt: seq<Frame>)
      requires Possible(View(), Op.GuardReenter) && control[0].dest == raiseDynExt
      modifies this
      ensures View() == GuardBack(old(View()))
    {
      EnterDynamicExtent(raiseDynExt);
      currentDynamicExtent := raiseDynExt;
      control := control[1..];
    }
  }
}
