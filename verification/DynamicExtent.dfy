/** Dynamic extents and escape-only continuations (src/continuation.c), and what
    rides on them: exception handlers (src/module-srfi34.c) and parameter values
    (parameterize in src/r7rs.c). */
module DynamicExtent {
  datatype Bind = Bind(param: nat, value: int)

  /** What the before and after thunks of a wind do. */
  datatype Action =
    | Plain
    | SetHandlers(next: seq<nat>, prev: seq<nat>)
    | Swap(binds: seq<Bind>)

  /** A frame of the dynamic extent; `id` identifies the list cell that holds it. */
  datatype Frame = Frame(id: nat, action: Action)

  datatype Event = Before(id: nat) | After(id: nat)

  /** The state that wind thunks act on.  Cell (f, k) is the k-th pair of the
      bindings vector of frame f. */
  datatype Dyn = Dyn(handlers: seq<nat>, params: map<nat, int>, cells: map<(nat, nat), int>, log: seq<Event>)

  /** swap_parameter_values, from the k-th binding on. */
  function SwapFrom(f: nat, binds: seq<Bind>, k: nat, d: Dyn): Dyn
    decreases |binds| - k
  {
    if k >= |binds| then d
    else
      var p := binds[k].param;
      var d' := if p in d.params && (f, k) in d.cells
        then d.(params := d.params[p := d.cells[(f, k)]], cells := d.cells[(f, k) := d.params[p]]) else d;
      SwapFrom(f, binds, k + 1, d')
  }

  function RunBefore(f: Frame, d0: Dyn): Dyn {
    var d := d0.(log := d0.log + [Before(f.id)]);
    match f.action
    case Plain => d
    case SetHandlers(next, _) => d.(handlers := next)
    case Swap(binds) => SwapFrom(f.id, binds, 0, d)
  }

  function RunAfter(f: Frame, d0: Dyn): Dyn {
    var d := d0.(log := d0.log + [After(f.id)]);
    match f.action
    case Plain => d
    case SetHandlers(_, prev) => d.(handlers := prev)
    case Swap(binds) => SwapFrom(f.id, binds, 0, d)
  }

  /** exit_dynamic_extent: innermost first. */
  function RunAfters(fs: seq<Frame>, d: Dyn): Dyn {
    if fs == [] then d else RunAfters(fs[1..], RunAfter(fs[0], d))
  }

  /** enter_dynamic_extent: outermost first. */
  function RunBefores(fs: seq<Frame>, d: Dyn): Dyn {
    if fs == [] then d else RunBefore(fs[0], RunBefores(fs[1..], d))
  }

  /* ---- Handlers and parameters as functions of the extent ---- */

  datatype Base = Base(handlers: seq<nat>, params: map<nat, int>)

  /** The handlers of the innermost handler frame, or the initial ones. */
  function HandlersAt(ext: seq<Frame>, base: Base): seq<nat> {
    if ext == [] then base.handlers
    else if ext[0].action.SetHandlers? then ext[0].action.next
    else HandlersAt(ext[1..], base)
  }

  function Bound(binds: seq<Bind>, params: map<nat, int>): map<nat, int> {
    if binds == [] then params
    else Bound(binds[..|binds| - 1], params)[binds[|binds| - 1].param := binds[|binds| - 1].value]
  }

  /** Each parameter has its innermost binding, or its initial value. */
  function ParamsAt(ext: seq<Frame>, base: Base): map<nat, int> {
    if ext == [] then base.params
    else if ext[0].action.Swap? then Bound(ext[0].action.binds, ParamsAt(ext[1..], base))
    else ParamsAt(ext[1..], base)
  }

  predicate Apart(binds: seq<Bind>) {
    forall i, j :: 0 <= i < j < |binds| ==> binds[i].param != binds[j].param
  }

  /** A handler was installed on `prev`, or the innermost handler of `prev` runs. */
  predicate Installs(next: seq<nat>, prev: seq<nat>) {
    next != [] && next[1..] == prev
  }

  predicate Uninstalls(next: seq<nat>, prev: seq<nat>) {
    prev != [] && prev[1..] == next
  }

  /** The frame was made on top of the extent `rest`. */
  ghost predicate MadeOn(f: Frame, rest: seq<Frame>, base: Base) {
    match f.action
    case Plain => true
    case SetHandlers(next, prev) => prev == HandlersAt(rest, base) && (Installs(next, prev) || Uninstalls(next, prev))
    case Swap(binds) => Apart(binds) && forall k :: 0 <= k < |binds| ==> binds[k].param in ParamsAt(rest, base)
  }

  /** The cells of the frame hold the values to bind. */
  ghost predicate Outside(f: Frame, d: Dyn) {
    f.action.Swap? ==> forall k :: 0 <= k < |f.action.binds| ==>
      (f.id, k) in d.cells && d.cells[(f.id, k)] == f.action.binds[k].value
  }

  /** They hold the values of the extent around the frame. */
  ghost predicate Inside(f: Frame, rest: seq<Frame>, base: Base, d: Dyn) {
    f.action.Swap? ==> forall k :: 0 <= k < |f.action.binds| ==>
      (f.id, k) in d.cells && f.action.binds[k].param in ParamsAt(rest, base) &&
      d.cells[(f.id, k)] == ParamsAt(rest, base)[f.action.binds[k].param]
  }


  /** In extent `ext` the handlers and the parameters are those of the extent. */
  ghost predicate Consistent(ext: seq<Frame>, base: Base, d: Dyn) {
    d.handlers == HandlersAt(ext, base) && d.params == ParamsAt(ext, base) && Nested(ext, base, d)
  }

  ghost predicate Nested(ext: seq<Frame>, base: Base, d: Dyn) {
    ext != [] ==>
      MadeOn(ext[0], ext[1..], base) && Inside(ext[0], ext[1..], base, d) && Nested(ext[1..], base, d) &&
      forall i :: 1 <= i < |ext| ==> ext[i].id < ext[0].id
  }

  /** What swapping does: every parameter gets the value of its cell and every
      cell that of its parameter. */
  lemma {:induction false} SwapFromIs(f: nat, binds: seq<Bind>, k: nat, d: Dyn)
    requires k <= |binds| && Apart(binds)
    requires forall j :: k <= j < |binds| ==> binds[j].param in d.params && (f, j) in d.cells
    ensures
      var d' := SwapFrom(f, binds, k, d);
      d'.handlers == d.handlers && d'.log == d.log && d'.params.Keys == d.params.Keys &&
        d'.cells.Keys == d.cells.Keys &&
      (forall j :: k <= j < |binds| ==>
        d'.params[binds[j].param] == d.cells[(f, j)] && d'.cells[(f, j)] == d.params[binds[j].param]) &&
      (forall p ::
        p in d.params && (forall j :: k <= j < |binds| ==> binds[j].param != p) ==> d'.params[p] == d.params[p]) &&
      (forall c :: c in d.cells && (c.0 != f || c.1 < k || c.1 >= |binds|) ==> d'.cells[c] == d.cells[c])
    decreases |binds| - k
  {
    if k < |binds| {
      var p := binds[k].param;
      var d1 := d.(params := d.params[p := d.cells[(f, k)]], cells := d.cells[(f, k) := d.params[p]]);
      SwapFromIs(f, binds, k + 1, d1);
    }
  }

  lemma {:induction false} BoundIs(binds: seq<Bind>, params: map<nat, int>)
    requires Apart(binds)
    ensures forall k ::
      0 <= k < |binds| ==>
        binds[k].param in Bound(binds, params) && Bound(binds, params)[binds[k].param] == binds[k].value
    ensures forall p :: p in params ==> p in Bound(binds, params)
    ensures forall p :: p in Bound(binds, params) && (forall k :: 0 <= k < |binds| ==> binds[k].param != p) ==>
      p in params && Bound(binds, params)[p] == params[p]
  {
    if binds != [] {
      var n := |binds| - 1;
      BoundIs(binds[..n], params);
      forall k | 0 <= k < n ensures Bound(binds, params)[binds[k].param] == binds[k].value {
        assert binds[..n][k] == binds[k];
      }
    }
  }

  /* ---- Entering and leaving frames ---- */

  /** Only cells of the frames in `ids` may differ. */
  ghost predicate Touches(d: Dyn, d': Dyn, ids: set<nat>) {
    forall c :: c in d.cells && c.0 !in ids ==> c in d'.cells && d'.cells[c] == d.cells[c]
  }

  function IdSet(ext: seq<Frame>): set<nat> { set i | 0 <= i < |ext| :: ext[i].id }

  lemma {:induction false} NestedKept(ext: seq<Frame>, base: Base, d: Dyn, d': Dyn, ids: set<nat>)
    requires Nested(ext, base, d) && Touches(d, d', ids) && ids !! IdSet(ext)
    ensures Nested(ext, base, d')
  {
    if ext != [] {
      assert ext[0].id in IdSet(ext);
      IdsOfRest(ext);
      NestedKept(ext[1..], base, d, d', ids);
    }
  }

  lemma IdsOfRest(ext: seq<Frame>)
    requires ext != []
    ensures IdSet(ext) == {ext[0].id} + IdSet(ext[1..])
  {
    forall i | 0 <= i < |ext| ensures ext[i].id in {ext[0].id} + IdSet(ext[1..]) {
      if i > 0 { assert ext[i] == ext[1..][i - 1]; }
    }
    forall i | 0 <= i < |ext[1..]| ensures ext[1..][i].id in IdSet(ext) { assert ext[1..][i] == ext[i + 1]; }
  }

  /** Every frame of `ext` is older than `id`. */
  ghost predicate Under(ext: seq<Frame>, id: nat) {
    forall i :: 0 <= i < |ext| ==> ext[i].id < id
  }

  /** Can the frame swap?  (A condition on its bindings only.) */
  ghost predicate Swappable(f: Frame, d: Dyn) {
    f.action.Swap? ==>
      (Apart(f.action.binds) &&
       forall k :: 0 <= k < |f.action.binds| ==> f.action.binds[k].param in d.params && (f.id, k) in d.cells)
  }

  lemma RunTouches(f: Frame, d: Dyn)
    requires Swappable(f, d)
    ensures Touches(d, RunBefore(f, d), {f.id}) && Touches(d, RunAfter(f, d), {f.id})
    ensures RunBefore(f, d).log == d.log + [Before(f.id)] && RunAfter(f, d).log == d.log + [After(f.id)]
    ensures f.action.Swap? ==> RunBefore(f, d).handlers == d.handlers && RunAfter(f, d).handlers == d.handlers
  {
    if f.action.Swap? {
      SwapFromIs(f.id, f.action.binds, 0, d.(log := d.log + [Before(f.id)]));
      SwapFromIs(f.id, f.action.binds, 0, d.(log := d.log + [After(f.id)]));
    }
  }

  /** Swapping in: the parameters take the values bound, the cells those around. */
  lemma SwapIn(f: nat, binds: seq<Bind>, params: map<nat, int>, d: Dyn)
    requires Apart(binds) && d.params == params
    requires forall k ::
      0 <= k < |binds| ==> binds[k].param in params && (f, k) in d.cells && d.cells[(f, k)] == binds[k].value
    ensures SwapFrom(f, binds, 0, d).params == Bound(binds, params)
    ensures forall k :: 0 <= k < |binds| ==>
      (f, k) in SwapFrom(f, binds, 0, d).cells && SwapFrom(f, binds, 0, d).cells[(f, k)] == params[binds[k].param]
  {
    SwapFromIs(f, binds, 0, d);
    BoundIs(binds, params);
    BoundKeys(binds, params);
    forall p | p in params ensures SwapFrom(f, binds, 0, d).params[p] == Bound(binds, params)[p] {
      if k :| 0 <= k < |binds| && binds[k].param == p { }
    }
  }

  /** Swapping out undoes it. */
  lemma SwapOut(f: nat, binds: seq<Bind>, params: map<nat, int>, d: Dyn)
    requires Apart(binds) && d.params == Bound(binds, params)
    requires forall k :: 0 <= k < |binds| ==>
      binds[k].param in params && (f, k) in d.cells && d.cells[(f, k)] == params[binds[k].param]
    ensures SwapFrom(f, binds, 0, d).params == params
    ensures forall k :: 0 <= k < |binds| ==>
      (f, k) in SwapFrom(f, binds, 0, d).cells && SwapFrom(f, binds, 0, d).cells[(f, k)] == binds[k].value
  {
    BoundIs(binds, params);
    BoundKeys(binds, params);
    SwapFromIs(f, binds, 0, d);
    forall p | p in params ensures SwapFrom(f, binds, 0, d).params[p] == params[p] {
      if k :| 0 <= k < |binds| && binds[k].param == p { }
    }
  }

  lemma {:induction false} BoundKeys(binds: seq<Bind>, params: map<nat, int>)
    requires forall k :: 0 <= k < |binds| ==> binds[k].param in params
    ensures Bound(binds, params).Keys == params.Keys
  {
    if binds != [] { BoundKeys(binds[..|binds| - 1], params); }
  }

  lemma EnterFrame(f: Frame, rest: seq<Frame>, base: Base, d: Dyn)
    requires Consistent(rest, base, d) && Outside(f, d) && MadeOn(f, rest, base) && Under(rest, f.id)
    ensures Consistent([f] + rest, base, RunBefore(f, d))
    ensures RunBefore(f, d).log == d.log + [Before(f.id)] && Touches(d, RunBefore(f, d), {f.id})
  {
    hide Bound, SwapFrom, Touches;
    var ext := [f] + rest;
    assert ext[1..] == rest;
    RunTouches(f, d);
    NestedKept(rest, base, d, RunBefore(f, d), {f.id});
    if f.action.Swap? { SwapIn(f.id, f.action.binds, ParamsAt(rest, base), d.(log := d.log + [Before(f.id)])); }
    assert forall i :: 1 <= i < |ext| ==> ext[i] == rest[i - 1];
  }

  lemma ExitFrame(f: Frame, rest: seq<Frame>, base: Base, d: Dyn)
    requires Consistent([f] + rest, base, d)
    ensures Consistent(rest, base, RunAfter(f, d)) && Outside(f, RunAfter(f, d)) && MadeOn(f, rest, base) &&
      Under(rest, f.id)
    ensures RunAfter(f, d).log == d.log + [After(f.id)] && Touches(d, RunAfter(f, d), {f.id})
  {
    hide Bound, SwapFrom, Touches;
    var ext := [f] + rest;
    assert ext[1..] == rest;
    assert forall i :: 0 <= i < |rest| ==> rest[i] == ext[i + 1];
    if f.action.Swap? {
      BoundKeys(f.action.binds, ParamsAt(rest, base));
      SwapOut(f.id, f.action.binds, ParamsAt(rest, base), d.(log := d.log + [After(f.id)]));
    }
    RunTouches(f, d);
    NestedKept(rest, base, d, RunAfter(f, d), {f.id});
  }

  function Afters(fs: seq<Frame>): seq<Event> {
    if fs == [] then [] else [After(fs[0].id)] + Afters(fs[1..])
  }

  function Befores(fs: seq<Frame>): seq<Event> {
    if fs == [] then [] else Befores(fs[1..]) + [Before(fs[0].id)]
  }

  /** The frames can be entered again on top of the extent `rest`. */
  ghost predicate LeftOut(fs: seq<Frame>, rest: seq<Frame>, base: Base, d: Dyn) {
    fs != [] ==>
      Outside(fs[0], d) && MadeOn(fs[0], fs[1..] + rest, base) && Under(fs[1..] + rest, fs[0].id) &&
      LeftOut(fs[1..], rest, base, d)
  }

  lemma {:induction false} LeftOutKept(fs: seq<Frame>, rest: seq<Frame>, base: Base, d: Dyn, d': Dyn, ids: set<nat>)
    requires LeftOut(fs, rest, base, d) && Touches(d, d', ids) && ids !! IdSet(fs)
    ensures LeftOut(fs, rest, base, d')
  {
    if fs != [] {
      IdsOfRest(fs);
      LeftOutKept(fs[1..], rest, base, d, d', ids);
    }
  }

  /** exit_dynamic_extent leaves the frames innermost first, each once, and the
      handlers and parameters are then those of the extent around them. */
  lemma {:induction false} ExitFrames(fs: seq<Frame>, rest: seq<Frame>, base: Base, d: Dyn)
    requires Consistent(fs + rest, base, d)
    ensures Consistent(rest, base, RunAfters(fs, d)) && LeftOut(fs, rest, base, RunAfters(fs, d))
    ensures RunAfters(fs, d).log == d.log + Afters(fs) && Touches(d, RunAfters(fs, d), IdSet(fs))
  {
    hide MadeOn, RunAfter;
    if fs == [] {
      assert fs + rest == rest;
    } else {
      var f, more, d1 := fs[0], fs[1..], RunAfter(fs[0], d);
      assert fs + rest == [f] + (more + rest);
      ExitFrame(f, more + rest, base, d);
      ExitFrames(more, rest, base, d1);
      forall i | 0 <= i < |more| ensures more[i].id < f.id { assert (more + rest)[i] == more[i]; }
      IdsOfRest(fs);
      OutsideKept(f, d1, RunAfters(more, d1), IdSet(more));
    }
  }

  lemma OutsideKept(f: Frame, d: Dyn, d': Dyn, ids: set<nat>)
    requires Outside(f, d) && Touches(d, d', ids) && f.id !in ids
    ensures Outside(f, d')
  {
  }

  /** enter_dynamic_extent enters them again, outermost first. */
  lemma {:induction false} EnterFrames(fs: seq<Frame>, rest: seq<Frame>, base: Base, d: Dyn)
    requires Consistent(rest, base, d) && LeftOut(fs, rest, base, d)
    ensures Consistent(fs + rest, base, RunBefores(fs, d))
    ensures RunBefores(fs, d).log == d.log + Befores(fs) && Touches(d, RunBefores(fs, d), IdSet(fs))
  {
    if fs == [] {
      assert fs + rest == rest;
    } else {
      var f, more := fs[0], fs[1..];
      EnterFrames(more, rest, base, d);
      var d1 := RunBefores(more, d);
      forall i | 0 <= i < |more| ensures more[i].id < f.id { assert (more + rest)[i] == more[i]; }
      IdsOfRest(fs);
      OutsideKept(f, d, d1, IdSet(more));
      EnterFrame(f, more + rest, base, d1);
      assert fs + rest == [f] + (more + rest);
    }
  }

  /* ---- Swapping twice ---- */

  /** Every parameter has a value and every binding its cell. */
  ghost predicate CanSwap(f: nat, binds: seq<Bind>, d: Dyn) {
    forall k :: 0 <= k < |binds| ==> binds[k].param in d.params && (f, k) in d.cells
  }

  function Twice(f: nat, binds: seq<Bind>, d: Dyn): Dyn {
    SwapFrom(f, binds, 0, SwapFrom(f, binds, 0, d))
  }

  /** "Calling this twice restores the values" holds, whatever the values are,
      exactly when no parameter is bound twice. */
  lemma SwapTwiceRestores(f: nat, binds: seq<Bind>)
    ensures Apart(binds) <==> forall d: Dyn :: CanSwap(f, binds, d) ==> Twice(f, binds, d) == d
  {
    if Apart(binds) {
      forall d: Dyn | CanSwap(f, binds, d) ensures Twice(f, binds, d) == d { SwapTwice(f, binds, d); }
    } else {
      var i, j :| 0 <= i < j < |binds| && binds[i].param == binds[j].param;
      var d := NotRestored(f, binds, i, j);
    }
  }

  /** Bound twice: parameters that are 0 and values that are 1. */
  lemma NotRestored(f: nat, binds: seq<Bind>, i: nat, j: nat) returns (d: Dyn)
    requires i < j < |binds| && binds[i].param == binds[j].param
    ensures CanSwap(f, binds, d) && Twice(f, binds, d) != d
  {
    hide SwapFrom;
    var l := LastWith(binds, j);
    d := Dyn([], map k | k in Params(binds) :: 0, map k | 0 <= k < |binds| :: (f, k) := 1, []);
    assert forall k :: 0 <= k < |binds| ==> binds[k].param in Params(binds);
    SwapLeavesOne(f, binds, 0, d, i, l);
    SwapDomains(f, binds, 0, d);
    SwapLast(f, binds, 0, SwapFrom(f, binds, 0, d), l);
  }

  lemma SwapTwice(f: nat, binds: seq<Bind>, d: Dyn)
    requires Apart(binds) && CanSwap(f, binds, d)
    ensures Twice(f, binds, d) == d
  {
    var d1 := SwapFrom(f, binds, 0, d);
    SwapFromIs(f, binds, 0, d);
    SwapFromIs(f, binds, 0, d1);
    forall p | p in d.params ensures Twice(f, binds, d).params[p] == d.params[p] {
      if k :| 0 <= k < |binds| && binds[k].param == p { }
    }
    forall c | c in d.cells ensures Twice(f, binds, d).cells[c] == d.cells[c] {
      if c.0 == f && c.1 < |binds| { assert c == (f, c.1); }
    }
    assert Twice(f, binds, d).params == d.params && Twice(f, binds, d).cells == d.cells;
  }

  function Params(binds: seq<Bind>): set<nat> { set k | 0 <= k < |binds| :: binds[k].param }

  lemma {:induction false} LastWith(binds: seq<Bind>, j: nat) returns (l: nat)
    requires j < |binds|
    ensures j <= l < |binds| && binds[l].param == binds[j].param
    ensures forall k :: l < k < |binds| ==> binds[k].param != binds[j].param
    decreases |binds| - j
  {
    l := j;
    if k :| j < k < |binds| && binds[k].param == binds[j].param { l := LastWith(binds, k); }
  }

  lemma {:induction false} SwapDomains(f: nat, binds: seq<Bind>, k: nat, d: Dyn)
    ensures SwapFrom(f, binds, k, d).params.Keys == d.params.Keys && SwapFrom(f, binds, k, d).cells.Keys == d.cells.Keys
    decreases |binds| - k
  {
    if k < |binds| {
      var p := binds[k].param;
      SwapDomains(f, binds, k + 1, if p in d.params && (f, k) in d.cells
        then d.(params := d.params[p := d.cells[(f, k)]], cells := d.cells[(f, k) := d.params[p]]) else d);
    }
  }

  /** A parameter gets the value of its last cell. */
  lemma {:induction false} SwapLast(f: nat, binds: seq<Bind>, k: nat, d: Dyn, l: nat)
    requires k <= |binds| && l < |binds| && CanSwap(f, binds, d)
    requires forall j :: l < j < |binds| ==> binds[j].param != binds[l].param
    ensures binds[l].param in SwapFrom(f, binds, k, d).params
    ensures SwapFrom(f, binds, k, d).params[binds[l].param] ==
      if k <= l then d.cells[(f, l)] else d.params[binds[l].param]
    decreases |binds| - k
  {
    if k < |binds| {
      var p := binds[k].param;
      var d1 := d.(params := d.params[p := d.cells[(f, k)]], cells := d.cells[(f, k) := d.params[p]]);
      SwapLast(f, binds, k + 1, d1, l);
    }
    SwapDomains(f, binds, k, d);
  }

  /** After one swap of cells that all hold 1, a later cell of the same parameter
      holds 1 again. */
  lemma {:induction false} SwapLeavesOne(f: nat, binds: seq<Bind>, k: nat, d: Dyn, i: nat, l: nat)
    requires k <= |binds| && l < |binds| && CanSwap(f, binds, d)
    requires forall j :: k <= j < |binds| ==> d.cells[(f, j)] == 1
    requires if k <= l then (k <= i < l && binds[i].param == binds[l].param) || d.params[binds[l].param] == 1
      else d.cells[(f, l)] == 1
    ensures (f, l) in SwapFrom(f, binds, k, d).cells && SwapFrom(f, binds, k, d).cells[(f, l)] == 1
    decreases |binds| - k
  {
    if k < |binds| {
      var p := binds[k].param;
      var d1 := d.(params := d.params[p := d.cells[(f, k)]], cells := d.cells[(f, k) := d.params[p]]);
      SwapLeavesOne(f, binds, k + 1, d1, i, l);
    }
  }
}
