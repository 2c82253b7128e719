/** Builtins, libraries and the REPL (src/library.c and the toplevel half of
    src/env.c): who sees which value of a symbol.  A module is its map from
    symbols to locations, which is what its hash table holds (ModuleTables). */
module Namespaces {
  import opened Forms

  /** SCM_UNBOUND or a value. */
  datatype Value = Unbound | V(val: int)

  /** What a symbol's value cell, or a half of a shadow, holds: a value, or a
      forward to a location. */
  datatype Slot = Plain(v: Value) | Forward(loc: nat)
  datatype Cell = Direct(s: Slot) | Shadow(repl: Slot, builtin: Slot)

  /** (value . owner). */
  datatype Location = Location(v: Value, owner: nat)

  /** The builtin module is number 0; ready is l_builtin_ready. */
  const BUILTIN := 0

  datatype State = State(cells: map<nat, Cell>, locs: seq<Location>, modules: seq<map<nat, nat>>, ready: bool)

  function Vcell(s: State, sym: nat): Cell {
    if sym in s.cells then s.cells[sym] else Direct(Plain(Unbound))
  }

  function SlotValue(s: State, x: Slot): Value {
    match x
    case Plain(v) => v
    case Forward(loc) => if loc < |s.locs| then s.locs[loc].v else Unbound
  }

  /** scm_unshadow of the value cell of a symbol. */
  function Unshadow(s: State, sym: nat, builtinp: bool): Value {
    match Vcell(s, sym)
    case Direct(x) => SlotValue(s, x)
    case Shadow(r, b) => SlotValue(s, if builtinp then b else r)
  }

  /** scm_builtinp. */
  predicate Builtin(s: State, sym: nat) {
    s.ready && |s.modules| > 0 && sym in s.modules[BUILTIN]
  }

  /** The value of a symbol in a module. */
  function View(s: State, m: nat, sym: nat): Option<Value> {
    if m < |s.modules| && sym in s.modules[m] && s.modules[m][sym] < |s.locs|
    then Some(s.locs[s.modules[m][sym]].v)
    else None
  }

  /* ---- Steps ---- */

  /** set_value_cell. */
  function SetValueCell(s: State, sym: nat, val: Value, replp: bool): State {
    var cell := match Vcell(s, sym)
      case Shadow(r, b) => if replp then Shadow(Plain(val), b) else Shadow(r, Plain(val))
      case Direct(x) =>
        if replp && x != Plain(Unbound) && Builtin(s, sym) then Shadow(Plain(val), x) else Direct(Plain(val));
    s.(cells := s.cells[sym := cell])
  }

  /** scm_module_bind. */
  function Bind(s: State, m: nat, sym: nat, loc: nat): State
    requires m < |s.modules|
  {
    var table: map<nat, nat> := s.modules[m][sym := loc];
    s.(modules := s.modules[m := table])
  }

  function SetLocation(s: State, loc: nat, val: Value): State {
    if loc < |s.locs| then s.(locs := s.locs[loc := s.locs[loc].(v := val)]) else s
  }

  predicate Owns(s: State, m: nat, loc: nat) {
    loc < |s.locs| && s.locs[loc].owner == m
  }

  function NewLocation(s: State, m: nat, sym: nat, val: Value): State
    requires m < |s.modules|
  {
    Bind(s.(locs := s.locs + [Location(val, m)]), m, sym, |s.locs|)
  }

  /** scm_set_builtin_location. */
  function SetBuiltinLocation(s: State, sym: nat, val: Value): State
    requires |s.modules| > 0
  {
    if sym in s.modules[BUILTIN] then SetLocation(s, s.modules[BUILTIN][sym], val)
    else NewLocation(s, BUILTIN, sym, val)
  }

  datatype Op =
    | ReplDefine(sym: nat, val: Value)               // define or set! at the REPL
    | BuiltinSet(sym: nat, val: Value)               // set! in the builtin module
    | DefineBuiltin(sym: nat, val: Value)            // scm_define_builtin
    | RegisterBound(sym: nat)                        // scm_register_bound_symbols_as_builtins
    | RegisterAuxiliary(sym: nat)                    // scm_register_auxiliary_syntax
    | MakeModule
    | ModuleDefine(m: nat, sym: nat, val: Value)     // scm_module_define
    | ModuleSet(m: nat, sym: nat, val: Value)        // set! in a library
    | ModuleImport(m: nat, sym: nat, loc: nat)       // %%module-import!
    | GlobalImport(sym: nat, loc: nat)               // %%global-import!

  /** Every entry of a module is a location, and the builtin module owns its. */
  ghost predicate Sound(s: State) {
    (forall m, sym :: 0 <= m < |s.modules| && sym in s.modules[m] ==> s.modules[m][sym] < |s.locs|) &&
    (|s.modules| > 0 ==>
      forall sym :: sym in s.modules[BUILTIN] ==> s.locs[s.modules[BUILTIN][sym]].owner == BUILTIN) &&
    (s.ready ==> |s.modules| > 0)
  }

  /** The builtin module is ready when it is used, the primitives for libraries
      are not applied to it, no symbol that forwards to an imported value is registered
      as a builtin, and auxiliary syntax has no value. */
  predicate Allowed(s: State, op: Op) {
    match op
    case ReplDefine(_, val) => true
    case BuiltinSet(_, _) => s.ready && |s.modules| > 0
    case DefineBuiltin(_, _) => s.ready ==> |s.modules| > 0
    case RegisterBound(sym) => s.ready && |s.modules| > 0 && !(Forwarded(s, sym) && Unshadow(s, sym, true).V?)
    case RegisterAuxiliary(sym) => s.ready && |s.modules| > 0 && !Builtin(s, sym)
    case MakeModule => true
    case ModuleDefine(m, _, _) => BUILTIN < m < |s.modules|
    case ModuleSet(m, _, _) => BUILTIN < m < |s.modules|
    case ModuleImport(m, _, loc) => BUILTIN < m < |s.modules| && loc < |s.locs|
    case GlobalImport(_, loc) => s.ready && loc < |s.locs|
  }

  /** A symbol that is no builtin and stands for an imported location. */
  predicate Forwarded(s: State, sym: nat) {
    !Builtin(s, sym) && Vcell(s, sym).Direct? && Vcell(s, sym).s.Forward?
  }

  /** One symbol of scm_register_bound_symbols_as_builtins. */
  function RegisterSymbol(s: State, sym: nat): State
    requires |s.modules| > 0
  {
    if Vcell(s, sym) == Direct(Plain(Unbound)) || Builtin(s, sym) then s
    else NewLocation(s, BUILTIN, sym, Unshadow(s, sym, true))
  }

  /** The new state, and whether the call was accepted. */
  function Step(s: State, op: Op): (State, bool)
    requires Allowed(s, op)
  {
    match op
    case ReplDefine(sym, val) => (SetValueCell(s, sym, val, true), true)
    case BuiltinSet(sym, val) => (SetBuiltinLocation(SetValueCell(s, sym, val, false), sym, val), true)
    case DefineBuiltin(sym, val) =>
      var s' := if s.ready then SetBuiltinLocation(s, sym, val) else s;
      (s'.(cells := s'.cells[sym := Direct(Plain(val))]), true)
    case RegisterBound(sym) => (RegisterSymbol(s, sym), true)
    case RegisterAuxiliary(sym) => (SetBuiltinLocation(s, sym, Unbound), true)
    case MakeModule => (s.(modules := s.modules + [map[]], ready := true), true)
    case ModuleDefine(m, sym, val) =>
      if sym !in s.modules[m] then (NewLocation(s, m, sym, val), true)
      else if !Owns(s, m, s.modules[m][sym]) then (s, false)
      else (SetLocation(s, s.modules[m][sym], val), true)
    case ModuleSet(m, sym, val) =>
      if sym !in s.modules[m] || !Owns(s, m, s.modules[m][sym]) then (s, false)
      else (SetLocation(s, s.modules[m][sym], val), true)
    case ModuleImport(m, sym, loc) =>
      if sym in s.modules[m] && s.modules[m][sym] != loc then (s, false) else (Bind(s, m, sym, loc), true)
    case GlobalImport(sym, loc) =>
      var builtinVal := Unshadow(s, sym, true);
      var builtinLocation := if Builtin(s, sym) then Some(s.modules[BUILTIN][sym]) else None;
      var cell :=
        if builtinLocation == Some(loc) then Direct(Plain(builtinVal))
        else if builtinLocation.Some? then Shadow(Forward(loc), Plain(builtinVal))
        else Direct(Forward(loc));
      (s.(cells := s.cells[sym := cell]), true)
  }

  /* ---- Builtin isolation ---- */

  /** Every builtin with a value has it in its location and, by itself, in the
      half of its value cell that is for the builtin namespace. */
  ghost predicate Isolated(s: State) {
    Sound(s) &&
    forall sym :: Builtin(s, sym) ==> HasOwn(s, sym)
  }

  ghost predicate HasOwn(s: State, sym: nat)
    requires Sound(s) && Builtin(s, sym)
  {
    var v := s.locs[s.modules[BUILTIN][sym]].v;
    v.V? ==> match Vcell(s, sym)
      case Direct(x) => x == Plain(v)
      case Shadow(_, b) => b == Plain(v)
  }

  /** Two builtins do not share a location. */
  ghost predicate Unshared(s: State) {
    |s.modules| > 0 ==>
      forall x, y ::
        x in s.modules[BUILTIN] && y in s.modules[BUILTIN] && x != y ==> s.modules[BUILTIN][x] != s.modules[BUILTIN][y]
  }

  /** Only builtins have a shadow. */
  ghost predicate BuiltinShadows(s: State) {
    forall sym :: Vcell(s, sym).Shadow? ==> Builtin(s, sym)
  }

  ghost predicate Inv(s: State) {
    Isolated(s) && Unshared(s) && BuiltinShadows(s) && (!s.ready ==> s.modules == [])
  }

  lemma ShadowsKept(s: State, s': State, sym: nat)
    requires BuiltinShadows(s) && (Vcell(s', sym).Shadow? ==> Builtin(s', sym))
    requires forall y :: y != sym ==> Vcell(s', y) == Vcell(s, y) && (Builtin(s, y) ==> Builtin(s', y))
    ensures BuiltinShadows(s')
  {
    forall y | Vcell(s', y).Shadow? ensures Builtin(s', y) {
      assert y != sym ==> Vcell(s, y).Shadow?;
    }
  }

  lemma SetBuiltinKeeps(s: State, sym: nat, val: Value)
    requires Sound(s) && Unshared(s) && |s.modules| > 0
    ensures
      var s' := SetBuiltinLocation(s, sym, val);
      Sound(s') && Unshared(s') && s'.cells == s.cells && s'.ready == s.ready && |s'.modules| == |s.modules| &&
      sym in s'.modules[BUILTIN] && s'.locs[s'.modules[BUILTIN][sym]].v == val &&
      forall y :: y != sym ==>
        (y in s'.modules[BUILTIN] <==> y in s.modules[BUILTIN]) &&
        (y in s.modules[BUILTIN] ==>
          (s'.modules[BUILTIN][y] == s.modules[BUILTIN][y] &&
            s'.locs[s'.modules[BUILTIN][y]].v == s.locs[s.modules[BUILTIN][y]].v))
  {
  }

  lemma BuiltinSetKeeps(s: State, sym: nat, val: Value)
    requires Inv(s) && s.ready
    ensures Inv(Step(s, BuiltinSet(sym, val)).0)
  {
    hide SetBuiltinLocation;
    var s1 := SetValueCell(s, sym, val, false);
    var s2 := SetBuiltinLocation(s1, sym, val);
    SetBuiltinKeeps(s1, sym, val);
    forall y | Builtin(s2, y) ensures HasOwn(s2, y) {
      if y != sym {
        assert Builtin(s, y) && HasOwn(s, y);
        assert Vcell(s2, y) == Vcell(s, y);
      }
    }
    ShadowsKept(s, s2, sym);
  }

  lemma DefineBuiltinKeeps(s: State, sym: nat, val: Value)
    requires Inv(s)
    ensures Inv(Step(s, DefineBuiltin(sym, val)).0)
  {
    hide SetBuiltinLocation;
    if s.ready {
      SetBuiltinKeeps(s, sym, val);
      var s1 := SetBuiltinLocation(s, sym, val);
      var s2 := s1.(cells := s1.cells[sym := Direct(Plain(val))]);
      forall y | Builtin(s2, y) ensures HasOwn(s2, y) {
        if y != sym {
          assert Builtin(s, y) && HasOwn(s, y);
          assert Vcell(s2, y) == Vcell(s, y);
        }
      }
      ShadowsKept(s, s2, sym);
    } else {
      ShadowsKept(s, Step(s, DefineBuiltin(sym, val)).0, sym);
    }
  }

  lemma AuxiliaryKeeps(s: State, sym: nat)
    requires Inv(s) && Allowed(s, RegisterAuxiliary(sym))
    ensures Inv(Step(s, RegisterAuxiliary(sym)).0)
  {
    hide SetBuiltinLocation;
    SetBuiltinKeeps(s, sym, Unbound);
    var s1 := SetBuiltinLocation(s, sym, Unbound);
    forall y | Builtin(s1, y) ensures HasOwn(s1, y) {
      if y != sym {
        assert Builtin(s, y) && HasOwn(s, y);
        assert Vcell(s1, y) == Vcell(s, y);
      }
    }
    ShadowsKept(s, s1, sym);
  }

  /** The builtins, their locations and the values there are the same. */
  ghost predicate SameBuiltins(s: State, s': State) {
    s'.ready == s.ready && |s.modules| <= |s'.modules| && (s.modules == [] ==> s'.modules == []) &&
    (|s.modules| > 0 ==>
      (s'.modules[BUILTIN] == s.modules[BUILTIN] &&
       forall y :: y in s.modules[BUILTIN] && s.modules[BUILTIN][y] < |s.locs| ==>
         s.modules[BUILTIN][y] < |s'.locs| && s'.locs[s.modules[BUILTIN][y]] == s.locs[s.modules[BUILTIN][y]]))
  }

  lemma SameBuiltinsKeeps(s: State, s': State)
    requires Inv(s) && SameBuiltins(s, s') && Sound(s')
    requires forall y :: Builtin(s, y) && HasOwn(s, y) ==> HasOwn(s', y)
    requires BuiltinShadows(s')
    ensures Inv(s')
  {
    forall y | Builtin(s', y) ensures HasOwn(s', y) { assert Builtin(s, y); }
  }

  /** define, set! and import at the REPL write value cells only. */
  lemma ReplKeeps(s: State, op: Op)
    requires Inv(s) && Allowed(s, op) && (op.ReplDefine? || op.GlobalImport?)
    ensures Inv(Step(s, op).0)
    ensures var s' := Step(s, op).0; s'.locs == s.locs && s'.modules == s.modules
    ensures forall y :: Builtin(s, y) && View(s, BUILTIN, y) != Some(Unbound) ==>
      Unshadow(Step(s, op).0, y, true) == Unshadow(s, y, true)
  {
    var s' := Step(s, op).0;
    assert SameBuiltins(s, s');
    ShadowsKept(s, s', op.sym);
    forall y | Builtin(s, y) ensures HasOwn(s', y) { assert HasOwn(s, y); }
    SameBuiltinsKeeps(s, s');
  }

  /** What another module does leaves the builtins alone. */
  lemma ElsewhereKeeps(s: State, s': State)
    requires Inv(s) && SameBuiltins(s, s') && Sound(s') && s'.cells == s.cells
    ensures Inv(s')
  {
    forall y | Builtin(s, y) && HasOwn(s, y) ensures HasOwn(s', y) { assert Vcell(s', y) == Vcell(s, y); }
    forall y | Vcell(s', y).Shadow? ensures Builtin(s', y) { assert Vcell(s, y).Shadow?; }
    SameBuiltinsKeeps(s, s');
  }

  lemma BindElsewhere(s: State, m: nat, sym: nat, loc: nat)
    requires Inv(s) && BUILTIN < m < |s.modules| && loc < |s.locs|
    ensures Inv(Bind(s, m, sym, loc)) && SameBuiltins(s, Bind(s, m, sym, loc))
  {
    ElsewhereKeeps(s, Bind(s, m, sym, loc));
  }

  lemma SetElsewhere(s: State, loc: nat, val: Value)
    requires Inv(s) && loc < |s.locs| && s.locs[loc].owner != BUILTIN
    ensures Inv(SetLocation(s, loc, val)) && SameBuiltins(s, SetLocation(s, loc, val))
  {
    ElsewhereKeeps(s, SetLocation(s, loc, val));
  }

  lemma NewElsewhere(s: State, m: nat, sym: nat, val: Value)
    requires Inv(s) && BUILTIN < m < |s.modules|
    ensures Inv(NewLocation(s, m, sym, val)) && SameBuiltins(s, NewLocation(s, m, sym, val))
  {
    ElsewhereKeeps(s, NewLocation(s, m, sym, val));
  }

  /** Definitions, assignments and imports in libraries write locations that the
      library owns. */
  lemma ModuleKeeps(s: State, op: Op)
    requires Inv(s) && Allowed(s, op) && (op.ModuleDefine? || op.ModuleSet? || op.ModuleImport?)
    ensures Inv(Step(s, op).0) && SameBuiltins(s, Step(s, op).0) && Step(s, op).0.cells == s.cells
  {
    hide Isolated, Unshared;
    var m, sym := op.m, op.sym;
    if op.ModuleImport? {
      BindElsewhere(s, m, sym, op.loc);
    } else {
      if sym in s.modules[m] {
        var loc := s.modules[m][sym];
        LocationExists(s, m, sym);
        if s.locs[loc].owner == m { SetElsewhere(s, loc, op.val); }
      } else {
        NewElsewhere(s, m, sym, op.val);
      }
    }
  }

  lemma LocationExists(s: State, m: nat, sym: nat)
    requires Inv(s) && m < |s.modules| && sym in s.modules[m]
    ensures s.modules[m][sym] < |s.locs|
  {
  }

  /** Registering a symbol keeps the invariant unless it forwards to a location
      with a value. */
  lemma RegisterKeepsExactly(s: State, sym: nat)
    requires Inv(s) && s.ready
    ensures Inv(RegisterSymbol(s, sym)) <==> !(Forwarded(s, sym) && Unshadow(s, sym, true).V?)
  {
    var s' := RegisterSymbol(s, sym);
    if Forwarded(s, sym) && Unshadow(s, sym, true).V? {
      assert Builtin(s', sym) && !HasOwn(s', sym);
    } else {
      forall y | Builtin(s', y) ensures HasOwn(s', y) {
        if Builtin(s, y) { assert HasOwn(s, y); }
      }
      ShadowsKept(s, s', sym);
    }
  }

  lemma RegisterStep(s: State, sym: nat)
    requires Allowed(s, RegisterBound(sym))
    ensures Step(s, RegisterBound(sym)).0 == RegisterSymbol(s, sym)
  {
  }

  lemma MakeModuleKeeps(s: State)
    requires Inv(s)
    ensures Inv(Step(s, MakeModule).0)
  {
    var s' := Step(s, MakeModule).0;
    forall y | Builtin(s', y) ensures HasOwn(s', y) { assert HasOwn(s, y); }
    forall y | Vcell(s', y).Shadow? ensures Builtin(s', y) { assert Vcell(s, y).Shadow?; }
  }

  lemma StepKeeps(s: State, op: Op)
    requires Inv(s) && Allowed(s, op)
    ensures Inv(Step(s, op).0)
  {
    hide Inv, Step, RegisterSymbol;
    match op
    case BuiltinSet(sym, val) => BuiltinSetKeeps(s, sym, val);
    case DefineBuiltin(sym, val) => DefineBuiltinKeeps(s, sym, val);
    case RegisterAuxiliary(sym) => AuxiliaryKeeps(s, sym);
    case RegisterBound(sym) =>
      RegisterKeepsExactly(s, sym);
      assert Step(s, op).0 == RegisterSymbol(s, sym) by { RegisterStep(s, sym); }
    case MakeModule => MakeModuleKeeps(s);
    case ReplDefine(_, _) => ReplKeeps(s, op);
    case GlobalImport(_, _) => ReplKeeps(s, op);
    case _ => ModuleKeeps(s, op);
  }

  /** A builtin with a value: the builtin namespace and the libraries that import
      it see the same, its own, value. */
  lemma BuiltinValue(s: State, sym: nat)
    requires Inv(s) && Builtin(s, sym) && View(s, BUILTIN, sym) != Some(Unbound)
    ensures View(s, BUILTIN, sym) == Some(Unshadow(s, sym, true))
  {
    assert HasOwn(s, sym);
  }

  /* ---- Runs ---- */

  ghost predicate AllowedAll(s: State, ops: seq<Op>)
    decreases ops
  {
    ops != [] ==> Allowed(s, ops[0]) && AllowedAll(Step(s, ops[0]).0, ops[1..])
  }

  ghost function Run(s: State, ops: seq<Op>): State
    requires AllowedAll(s, ops)
    decreases ops
  {
    if ops == [] then s else Run(Step(s, ops[0]).0, ops[1..])
  }

  function Start(): State { State(map[], [], [], false) }

  lemma {:induction false} RunKeeps(s: State, ops: seq<Op>)
    requires Inv(s) && AllowedAll(s, ops)
    ensures Inv(Run(s, ops))
    decreases ops
  {
    if ops != [] {
      StepKeeps(s, ops[0]);
      RunKeeps(Step(s, ops[0]).0, ops[1..]);
    }
  }

  /** In every reachable state the builtins are isolated. */
  lemma BuiltinsIsolated(ops: seq<Op>, sym: nat)
    requires AllowedAll(Start(), ops)
    ensures
      var s := Run(Start(), ops);
      Builtin(s, sym) && View(s, BUILTIN, sym) != Some(Unbound) ==>
        View(s, BUILTIN, sym) == Some(Unshadow(s, sym, true))
  {
    RunKeeps(Start(), ops);
    var s := Run(Start(), ops);
    if Builtin(s, sym) && View(s, BUILTIN, sym) != Some(Unbound) { BuiltinValue(s, sym); }
  }

  predicate AtRepl(ops: seq<Op>) {
    forall i :: 0 <= i < |ops| ==> ops[i].ReplDefine? || ops[i].GlobalImport?
  }

  /** Whatever is defined, set or imported at the REPL, every module sees what it
      saw and no builtin with a value changes. */
  lemma {:induction false} ReplChangesNothing(s: State, ops: seq<Op>, m: nat, sym: nat)
    requires Inv(s) && AllowedAll(s, ops) && AtRepl(ops)
    ensures View(Run(s, ops), m, sym) == View(s, m, sym)
    ensures Builtin(s, sym) && View(s, BUILTIN, sym) != Some(Unbound) ==>
      (Builtin(Run(s, ops), sym) && Unshadow(Run(s, ops), sym, true) == Unshadow(s, sym, true))
    decreases ops
  {
    if ops != [] {
      var s' := Step(s, ops[0]).0;
      ReplKeeps(s, ops[0]);
      assert AtRepl(ops[1..]) by { assert forall i :: 0 <= i < |ops[1..]| ==> ops[1..][i] == ops[i + 1]; }
      ReplChangesNothing(s', ops[1..], m, sym);
    }
  }

  /** A symbol keeps the location it got, and a location its owner. */
  ghost predicate Stable(s: State, s': State) {
    |s.modules| <= |s'.modules| && |s.locs| <= |s'.locs| &&
    (forall m, sym ::
      0 <= m < |s.modules| && sym in s.modules[m] ==>
        sym in s'.modules[m] && s'.modules[m][sym] == s.modules[m][sym]) &&
    forall l :: 0 <= l < |s.locs| ==> s'.locs[l].owner == s.locs[l].owner
  }

  lemma StepStable(s: State, op: Op)
    requires Inv(s) && Allowed(s, op)
    ensures Stable(s, Step(s, op).0)
  {
  }

  lemma {:induction false} LocationsNeverChange(s: State, ops: seq<Op>)
    requires Inv(s) && AllowedAll(s, ops)
    ensures Stable(s, Run(s, ops))
    decreases ops
  {
    if ops != [] {
      var s1, s2 := Step(s, ops[0]).0, Run(s, ops);
      StepStable(s, ops[0]);
      StepKeeps(s, ops[0]);
      LocationsNeverChange(s1, ops[1..]);
    }
  }

  /** A definition in a module is refused exactly for a binding it does not own,
      and then nothing changes; otherwise everyone who shares the location, and no
      one else, sees the new value. */
  lemma DefineIsShared(s: State, m: nat, sym: nat, val: Value)
    requires Inv(s) && Allowed(s, ModuleDefine(m, sym, val))
    ensures
      var (s', ok) := Step(s, ModuleDefine(m, sym, val));
      (ok <==> (sym in s.modules[m] ==> s.locs[s.modules[m][sym]].owner == m)) &&
      (!ok ==> s' == s) &&
      (ok ==> View(s', m, sym) == Some(val)) &&
      (ok ==> forall m', y :: 0 <= m' < |s.modules| && y in s.modules[m'] ==>
        View(s', m', y) ==
          if sym in s.modules[m] && s.modules[m'][y] == s.modules[m][sym] then Some(val) else View(s, m', y))
  {
  }

  /** An imported binding is the exporter's: importing shares the location, and a
      second import under the same name is accepted only for the same one. */
  lemma ImportShares(s: State, m: nat, sym: nat, loc: nat)
    requires Inv(s) && Allowed(s, ModuleImport(m, sym, loc))
    ensures
      var (s', ok) := Step(s, ModuleImport(m, sym, loc));
      (ok <==> (sym in s.modules[m] ==> s.modules[m][sym] == loc)) && (!ok ==> s' == s) &&
      (ok ==> View(s', m, sym) == Some(s.locs[loc].v))
  {
  }

  /** The REPL sees what it set or defined, and through an import the location. */
  lemma ReplSees(s: State, sym: nat, val: Value, loc: nat)
    requires Inv(s)
    ensures Unshadow(Step(s, ReplDefine(sym, val)).0, sym, false) == val
    ensures Allowed(s, GlobalImport(sym, loc)) && (Builtin(s, sym) ==> View(s, BUILTIN, sym) != Some(Unbound)) ==>
      Unshadow(Step(s, GlobalImport(sym, loc)).0, sym, false) == s.locs[loc].v
  {
    if Builtin(s, sym) { assert HasOwn(s, sym); }
  }

  /** Every module binding of that location, if any, now has the value, and all others
      have what they had. */
  ghost predicate OnlyThere(s: State, s': State, loc: Option<nat>, val: Value) {
    forall m, y :: 0 <= m < |s.modules| && y in s.modules[m] ==>
      View(s', m, y) == if loc == Some(s.modules[m][y]) then Some(val) else View(s, m, y)
  }

  function BuiltinLocation(s: State, sym: nat): Option<nat> {
    if |s.modules| > 0 && sym in s.modules[BUILTIN] then Some(s.modules[BUILTIN][sym]) else None
  }

  /** What is seen through a value cell that is not written. */
  function Reseen(s: State, x: Slot, loc: Option<nat>, val: Value): Value {
    if x.Forward? && loc == Some(x.loc) then val else SlotValue(s, x)
  }

  /** Through the value cells of the other symbols everything looks as before, but for
      what is imported from that location. */
  ghost predicate OthersSee(s: State, s': State, sym: nat, loc: Option<nat>, val: Value) {
    forall y :: y != sym ==>
      Vcell(s', y) == Vcell(s, y) &&
      match Vcell(s, y)
      case Direct(x) => Imported(s, x) ==> SlotValue(s', x) == Reseen(s, x, loc, val)
      case Shadow(r, b) => Imported(s, r) ==> SlotValue(s', r) == Reseen(s, r, loc, val)
  }

  predicate Imported(s: State, x: Slot) { x.Forward? ==> x.loc < |s.locs| }

  /** set! in the builtin module and the definition of a builtin: the builtin namespace
      and all who share the location see the value; the REPL does too, unless set! finds
      its own variable of that name there. */
  lemma BuiltinSeen(s: State, op: Op)
    requires Inv(s) && Allowed(s, op) && s.ready && (op.BuiltinSet? || op.DefineBuiltin?)
    ensures
      var s', loc := Step(s, op).0, BuiltinLocation(s, op.sym);
      View(s', BUILTIN, op.sym) == Some(op.val) && Unshadow(s', op.sym, true) == op.val &&
      OnlyThere(s, s', loc, op.val) && OthersSee(s, s', op.sym, loc, op.val) &&
      (op.BuiltinSet? && Vcell(s, op.sym).Shadow? && Imported(s, Vcell(s, op.sym).repl) ==>
        Unshadow(s', op.sym, false) == Reseen(s, Vcell(s, op.sym).repl, loc, op.val)) &&
      (op.DefineBuiltin? || Vcell(s, op.sym).Direct? ==> Unshadow(s', op.sym, false) == op.val)
  {
    hide OthersSee, OnlyThere;
    BuiltinOthers(s, op);
    BuiltinThere(s, op);
  }

  lemma BuiltinThere(s: State, op: Op)
    requires Inv(s) && Allowed(s, op) && s.ready && (op.BuiltinSet? || op.DefineBuiltin?)
    ensures OnlyThere(s, Step(s, op).0, BuiltinLocation(s, op.sym), op.val)
  {
    hide HasOwn;
  }

  lemma BuiltinOthers(s: State, op: Op)
    requires Inv(s) && Allowed(s, op) && s.ready && (op.BuiltinSet? || op.DefineBuiltin?)
    ensures OthersSee(s, Step(s, op).0, op.sym, BuiltinLocation(s, op.sym), op.val)
  {
    hide Inv;
    assert |s.modules| > 0;
  }

  /** Before there are modules a builtin is in the value cell alone. */
  lemma EarlyBuiltinSeen(s: State, sym: nat, val: Value)
    requires Inv(s) && !s.ready
    ensures
      var s' := Step(s, DefineBuiltin(sym, val)).0;
      Unshadow(s', sym, true) == Unshadow(s', sym, false) == val && s'.modules == [] && s'.locs == s.locs &&
      forall y :: y != sym ==> Vcell(s', y) == Vcell(s, y)
  {
  }

  /** Registering makes a symbol with a value a builtin with that value, and auxiliary
      syntax one without; no one sees anything else change. */
  lemma RegisteredSeen(s: State, sym: nat)
    requires Inv(s) && s.ready && !Builtin(s, sym)
    ensures
      var s' := RegisterSymbol(s, sym);
      (Builtin(s', sym) <==> Vcell(s, sym) != Direct(Plain(Unbound))) &&
      (Builtin(s', sym) ==> View(s', BUILTIN, sym) == Some(Unshadow(s, sym, true))) &&
      OnlyThere(s, s', None, Unbound) && s'.cells == s.cells
    ensures
      var s' := Step(s, RegisterAuxiliary(sym)).0;
      Builtin(s', sym) && View(s', BUILTIN, sym) == Some(Unbound) && OnlyThere(s, s', None, Unbound) &&
      s'.cells == s.cells
  {
  }

  /** set! in a library is refused exactly for what the library does not bind or own. */
  lemma ModuleSetSeen(s: State, m: nat, sym: nat, val: Value)
    requires Inv(s) && Allowed(s, ModuleSet(m, sym, val))
    ensures
      var (s', ok) := Step(s, ModuleSet(m, sym, val));
      (ok <==> sym in s.modules[m] && s.locs[s.modules[m][sym]].owner == m) && (!ok ==> s' == s) &&
      (ok ==> View(s', m, sym) == Some(val) && OnlyThere(s, s', Some(s.modules[m][sym]), val) && s'.cells == s.cells)
  {
    LocationExistsIf(s, m, sym);
  }

  lemma LocationExistsIf(s: State, m: nat, sym: nat)
    requires Inv(s) && m < |s.modules|
    ensures sym in s.modules[m] ==> s.modules[m][sym] < |s.locs|
  {
  }

  /** A new module binds nothing and changes nothing. */
  lemma NewModuleSeen(s: State, y: nat)
    requires Inv(s)
    ensures
      var s' := Step(s, MakeModule).0;
      s'.ready && View(s', |s.modules|, y).None? && s'.cells == s.cells && s'.locs == s.locs &&
      forall m :: 0 <= m < |s.modules| ==> View(s', m, y) == View(s, m, y)
  {
  }

  /** At the REPL other symbols are as they were. */
  lemma ReplOthers(s: State, op: Op)
    requires Inv(s) && Allowed(s, op) && (op.ReplDefine? || op.GlobalImport?)
    ensures forall y, b :: y != op.sym ==> Unshadow(Step(s, op).0, y, b) == Unshadow(s, y, b)
  {
  }

  /* ---- The operations on the cells, locations and tables ---- */

  /** Registering several symbols, in order. */
  function Registered(s: State, syms: seq<nat>): State
    requires |s.modules| > 0
    decreases syms
  {
    if syms == [] then s else Registered(RegisterSymbol(s, syms[0]), syms[1..])
  }

  class Library {
    var cells: map<nat, Cell>
    var locs: seq<Location>
    var modules: seq<map<nat, nat>>
    var ready: bool

    function Now(): State
      reads this
    {
      State(cells, locs, modules, ready)
    }

    constructor ()
      ensures Now() == Start() && Inv(Now())
    {
      cells, locs, modules, ready := map[], [], [], false;
    }

    /** set_value_cell. */
    method WriteCell(sym: nat, val: Value, replp: bool)
      modifies this`cells
      ensures Now() == SetValueCell(old(Now()), sym, val, replp)
    {
      var cur := Vcell(Now(), sym);
      if cur.Shadow? {
        cells := cells[sym := if replp then cur.(repl := Plain(val)) else cur.(builtin := Plain(val))];
      } else if replp && cur != Direct(Plain(Unbound)) && Builtin(Now(), sym) {
        cells := cells[sym := Shadow(Plain(val), cur.s)];
      } else {
        cells := cells[sym := Direct(Plain(val))];
      }
    }

    method BindLocation(m: nat, sym: nat, loc: nat)
      requires m < |modules|
      modifies this`modules
      ensures Now() == Bind(old(Now()), m, sym, loc)
    {
      var table: map<nat, nat> := modules[m][sym := loc];
      modules := modules[m := table];
    }

    method WriteBuiltinLocation(sym: nat, val: Value)
      requires Sound(Now()) && |modules| > 0
      modifies this
      ensures Now() == SetBuiltinLocation(old(Now()), sym, val)
    {
      if sym !in modules[BUILTIN] {
        locs := locs + [Location(val, BUILTIN)];
        BindLocation(BUILTIN, sym, |locs| - 1);
      } else {
        var loc := modules[BUILTIN][sym];
        locs := locs[loc := locs[loc].(v := val)];
      }
    }

    /** scm_set_toplevel; the toplevel is the global environment or a module. */
    method SetToplevel(sym: nat, val: Value, toplevel: Option<nat>) returns (ok: bool)
      requires Inv(Now()) && (toplevel.Some? ==> ready)
      modifies this
      ensures ok <==> toplevel.None? || toplevel.value == BUILTIN
      ensures ok ==> Now() == Step(old(Now()), if toplevel.None? then ReplDefine(sym, val) else BuiltinSet(sym, val)).0
      ensures !ok ==> Now() == old(Now())
    {
      ok := true;
      if toplevel.None? {
        WriteCell(sym, val, true);
      } else if toplevel.value == BUILTIN {
        WriteCell(sym, val, false);
        WriteBuiltinLocation(sym, val);
      } else {
        ok := false;
      }
    }

    /** scm_define_toplevel. */
    method DefineToplevel(sym: nat, val: Value, toplevel: Option<nat>) returns (ok: bool)
      requires Inv(Now()) && (toplevel.Some? ==> toplevel.value < |modules|)
      modifies this
      ensures (Now(), ok) == Step(old(Now()),
        if toplevel.None? then ReplDefine(sym, val)
        else if toplevel.value == BUILTIN then DefineBuiltin(sym, val)
        else ModuleDefine(toplevel.value, sym, val))
    {
      ok := true;
      if toplevel.None? {
        WriteCell(sym, val, true);
      } else if toplevel.value == BUILTIN {
        if ready { WriteBuiltinLocation(sym, val); }
        cells := cells[sym := Direct(Plain(val))];
      } else {
        var m := toplevel.value;
        if sym !in modules[m] {
          locs := locs + [Location(val, m)];
          BindLocation(m, sym, |locs| - 1);
        } else if locs[modules[m][sym]].owner != m {
          ok := false;
        } else {
          locs := locs[modules[m][sym] := locs[modules[m][sym]].(v := val)];
        }
      }
    }

    /** %%module-import!. */
    method ModuleImportX(m: nat, sym: nat, loc: nat) returns (ok: bool)
      requires Inv(Now()) && Allowed(Now(), ModuleImport(m, sym, loc))
      modifies this
      ensures (Now(), ok) == Step(old(Now()), ModuleImport(m, sym, loc))
    {
      if sym in modules[m] && modules[m][sym] != loc { return false; }
      BindLocation(m, sym, loc);
      return true;
    }

    /** %%global-import!. */
    method GlobalImportX(sym: nat, loc: nat)
      requires Inv(Now()) && Allowed(Now(), GlobalImport(sym, loc))
      modifies this
      ensures Now() == Step(old(Now()), GlobalImport(sym, loc)).0
    {
      var builtinVal := Unshadow(Now(), sym, true);
      if sym in modules[BUILTIN] && modules[BUILTIN][sym] == loc {
        cells := cells[sym := Direct(Plain(builtinVal))];
      } else if sym in modules[BUILTIN] {
        cells := cells[sym := Shadow(Forward(loc), Plain(builtinVal))];
      } else {
        cells := cells[sym := Direct(Forward(loc))];
      }
    }

    /** scm_register_bound_symbols_as_builtins over the symbols of the table. */
    method RegisterBoundSymbols(syms: seq<nat>)
      requires |modules| > 0
      modifies this
      ensures Now() == Registered(old(Now()), syms)
    {
      var i := 0;
      while i < |syms|
        invariant i <= |syms| && |modules| > 0
        invariant Registered(Now(), syms[i..]) == Registered(old(Now()), syms)
      {
        var sym := syms[i];
        assert syms[i..][0] == sym && syms[i..][1..] == syms[i + 1..];
        if Vcell(Now(), sym) != Direct(Plain(Unbound)) && !Builtin(Now(), sym) {
          locs := locs + [Location(Unshadow(Now(), sym, true), BUILTIN)];
          BindLocation(BUILTIN, sym, |locs| - 1);
        }
        i := i + 1;
      }
    }
  }
}
