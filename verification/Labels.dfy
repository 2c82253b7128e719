/** Datum labels #n=<datum> and references #n# (src/read.c).  The text is given as
    its syntax tree; reading it builds cells in which a reference to a label that
    is still being read is a placeholder, and resolve_labels replaces those. */
module Labels {
  import opened Forms
  import opened Collector
  import opened Cycles

  datatype Sx = Atom(val: int) | Pair(car: Sx, cdr: Sx) | Vec(items: seq<Sx>) | Def(n: nat, sx: Sx) | Refer(n: nat)

  /** An entry of l_labels, here in the order made; no datum while it is read. */
  datatype Label = Label(n: nat, ph: Obj, datum: Option<Obj>)

  /** scm_p_assv among the first k labels made: the newest. */
  function Find(labels: seq<Label>, k: nat, n: nat): (r: Option<nat>)
    requires k <= |labels|
    ensures r.Some? ==> r.value < k && labels[r.value].n == n
  {
    if k == 0 then None else if labels[k - 1].n == n then Some(k - 1) else Find(labels, k - 1, n)
  }

  /** How many labels the syntax makes. */
  function Defs(sx: Sx): nat {
    match sx
    case Pair(a, d) => Defs(a) + Defs(d)
    case Vec(items) => DefsAll(items)
    case Def(_, s) => 1 + Defs(s)
    case _ => 0
  }

  function DefsAll(items: seq<Sx>): nat {
    if items == [] then 0 else Defs(items[0]) + DefsAll(items[1..])
  }

  predicate IsPh(labels: seq<Label>, o: Obj) {
    exists j :: 0 <= j < |labels| && labels[j].ph == o
  }

  ghost predicate Within(h: Heap, o: Obj) { o.Ref? ==> o.addr in h }

  /** The object was read from the syntax when k labels had been made, those in
      `open` being unfinished. */
  ghost predicate Built(h: Heap, labels: seq<Label>, o: Obj, sx: Sx, k: nat, open: set<nat>)
    decreases sx
  {
    k + Defs(sx) <= |labels| &&
    match sx
    case Atom(x) => o == Const(x)
    case Pair(a, d) =>
      IsPair(h, o) && !IsPh(labels, o) && Built(h, labels, Car(h, o), a, k, open) &&
        Built(h, labels, Cdr(h, o), d, k + Defs(a), open)
    case Vec(items) => IsVector(h, o) && BuiltAll(h, labels, h[o.addr].elems, items, k, open)
    case Def(n, s) =>
      k !in open && labels[k].n == n && labels[k].datum == Some(o) && Built(h, labels, o, s, k + 1, open + {k}) &&
      forall j :: 0 <= j < k && j !in open ==> labels[j].datum != Some(labels[k].ph)
    case Refer(n) =>
      var j := Find(labels, k, n);
      j.Some? &&
      if j.value in open then o == labels[j.value].ph else labels[j.value].datum == Some(o)
  }

  ghost predicate BuiltAll(h: Heap, labels: seq<Label>, os: seq<Obj>, items: seq<Sx>, k: nat, open: set<nat>)
    decreases items
  {
    |os| == |items| && k + DefsAll(items) <= |labels| &&
    (items != [] ==>
      Built(h, labels, os[0], items[0], k, open) && BuiltAll(h, labels, os[1..], items[1..], k + Defs(items[0]), open))
  }

  /** Every reference is to a label made before it. */
  predicate Defined(names: seq<nat>, sx: Sx)
    decreases sx
  {
    match sx
    case Atom(_) => true
    case Pair(a, d) => Defined(names, a) && Defined(names + Names(a), d)
    case Vec(items) => DefinedAll(names, items)
    case Def(n, s) => Defined(names + [n], s)
    case Refer(n) => n in names
  }

  predicate DefinedAll(names: seq<nat>, items: seq<Sx>)
    decreases items
  {
    items != [] ==> Defined(names, items[0]) && DefinedAll(names + Names(items[0]), items[1..])
  }

  /** The names of the labels made, in order. */
  function Names(sx: Sx): (r: seq<nat>)
    ensures |r| == Defs(sx)
  {
    match sx
    case Pair(a, d) => Names(a) + Names(d)
    case Vec(items) => NamesAll(items)
    case Def(n, s) => [n] + Names(s)
    case _ => []
  }

  function NamesAll(items: seq<Sx>): (r: seq<nat>)
    ensures |r| == DefsAll(items)
  {
    if items == [] then [] else Names(items[0]) + NamesAll(items[1..])
  }

  function NamesOf(labels: seq<Label>): (r: seq<nat>)
    ensures |r| == |labels| && forall i :: 0 <= i < |r| ==> r[i] == labels[i].n
  {
    seq(|labels|, i requires 0 <= i < |labels| => labels[i].n)
  }

  lemma {:induction false} FindIsIn(labels: seq<Label>, k: nat, n: nat)
    requires k <= |labels|
    ensures Find(labels, k, n).Some? <==> n in NamesOf(labels)[..k]
  {
    if k > 0 {
      FindIsIn(labels, k - 1, n);
      assert NamesOf(labels)[..k] == NamesOf(labels)[..k - 1] + [labels[k - 1].n];
    }
  }

  /** Label j is the newest of that number among the first k. */
  ghost predicate Newest(names: seq<nat>, k: nat, n: nat, j: nat) {
    j < k <= |names| && names[j] == n && forall i :: j < i < k ==> names[i] != n
  }

  lemma {:induction false} FindIs(labels: seq<Label>, k: nat, n: nat, j: nat)
    requires k <= |labels|
    ensures Find(labels, k, n) == Some(j) <==> Newest(NamesOf(labels), k, n, j)
  {
    if k > 0 && labels[k - 1].n != n { FindIs(labels, k - 1, n, j); }
  }

  /** The labels made later do not matter, nor the data of those still open. */
  lemma {:induction false} FindKept(labels: seq<Label>, labels': seq<Label>, k: nat, n: nat)
    requires k <= |labels| && k <= |labels'| && forall i :: 0 <= i < k ==> labels[i].n == labels'[i].n
    ensures Find(labels, k, n) == Find(labels', k, n)
  {
    if k > 0 { FindKept(labels, labels', k - 1, n); }
  }

  ghost predicate Extends(h: Heap, h': Heap) {
    forall a :: a in h ==> a in h' && h'[a] == h[a]
  }

  /** More labels, and data for labels in `open`; placeholders that are new are not
      cells of the old heap. */
  ghost predicate Grown(h: Heap, labels: seq<Label>, h': Heap, labels': seq<Label>, open: set<nat>) {
    Extends(h, h') && |labels| <= |labels'| &&
    (forall i :: 0 <= i < |labels| ==> labels'[i].n == labels[i].n && labels'[i].ph == labels[i].ph) &&
    (forall i :: 0 <= i < |labels| && i !in open ==> labels'[i] == labels[i]) &&
    forall i :: |labels| <= i < |labels'| ==> labels'[i].ph.Ref? && labels'[i].ph.addr !in h
  }

  lemma {:induction false} BuiltKept(h: Heap, labels: seq<Label>, h': Heap, labels': seq<Label>, o: Obj, sx: Sx,
                                     k: nat, open: set<nat>)
    requires Built(h, labels, o, sx, k, open) && Grown(h, labels, h', labels', open)
    ensures Built(h', labels', o, sx, k, open)
    decreases sx
  {
    match sx
    case Atom(_) =>
    case Pair(a, d) =>
      BuiltKept(h, labels, h', labels', Car(h, o), a, k, open);
      BuiltKept(h, labels, h', labels', Cdr(h, o), d, k + Defs(a), open);
      forall j | 0 <= j < |labels'| ensures labels'[j].ph != o { }
    case Vec(items) => BuiltAllKept(h, labels, h', labels', h[o.addr].elems, items, k, open);
    case Def(n, s) =>
      assert Grown(h, labels, h', labels', open + {k});
      BuiltKept(h, labels, h', labels', o, s, k + 1, open + {k});
    case Refer(n) => FindKept(labels, labels', k, n);
  }

  lemma {:induction false} BuiltAllKept(h: Heap, labels: seq<Label>, h': Heap, labels': seq<Label>, os: seq<Obj>,
                                        items: seq<Sx>, k: nat, open: set<nat>)
    requires BuiltAll(h, labels, os, items, k, open) && Grown(h, labels, h', labels', open)
    ensures BuiltAll(h', labels', os, items, k, open)
    decreases items
  {
    if items != [] {
      BuiltKept(h, labels, h', labels', os[0], items[0], k, open);
      BuiltAllKept(h, labels, h', labels', os[1..], items[1..], k + Defs(items[0]), open);
    }
  }

  /** The labels that are still being read. */
  ghost function Open(labels: seq<Label>): set<nat> {
    set i | 0 <= i < |labels| && labels[i].datum.None?
  }

  /** A label that needs no second step: its datum is not a placeholder, or it is
      its own (#n=#n#). */
  ghost predicate Fine(labels: seq<Label>, m: nat) {
    m < |labels| &&
      (labels[m].datum.Some? ==> !IsPh(labels, labels[m].datum.value) || labels[m].datum.value == labels[m].ph)
  }

  ghost predicate PartsWithin(h: Heap, c: Cell) {
    forall i :: 0 <= i < |Parts(c)| ==> Within(h, Parts(c)[i])
  }

  /** The placeholders in the cell are those of labels in `used`. */
  ghost predicate PartsUse(labels: seq<Label>, c: Cell, used: set<nat>) {
    forall i, j :: 0 <= i < |Parts(c)| && 0 <= j < |labels| && labels[j].ph == Parts(c)[i] ==> j in used
  }

  /** The placeholders are cells, all different; nothing refers out of the heap. */
  ghost predicate Sound(h: Heap, labels: seq<Label>) {
    (forall a :: a in h ==> PartsWithin(h, h[a])) &&
    (forall i :: 0 <= i < |labels| ==> IsPair(h, labels[i].ph)) &&
    (forall i :: 0 <= i < |labels| && labels[i].datum.Some? ==> Within(h, labels[i].datum.value)) &&
    forall i, j :: 0 <= i < j < |labels| ==> labels[i].ph != labels[j].ph
  }

  /** Only placeholders of labels in `used` occur in cells or as data, and those
      labels are fine. */
  ghost predicate Uses(h: Heap, labels: seq<Label>, used: set<nat>) {
    (forall a :: a in h ==> PartsUse(labels, h[a], used)) &&
    (forall i, j :: 0 <= i < |labels| && 0 <= j < |labels| && labels[i].datum == Some(labels[j].ph) ==> j in used) &&
    forall m :: m in used ==> Fine(labels, m)
  }

  /** What reading returned: a placeholder, the only one newly used, or none. */
  ghost predicate Returned(labels: seq<Label>, o: Obj, before: set<nat>, used: set<nat>) {
    before <= used &&
    forall k :: 0 <= k < |labels| && o == labels[k].ph ==> k in used && used <= before + {k}
  }

  lemma NewCell(h: Heap, labels: seq<Label>, used: set<nat>, a: int, c: Cell)
    requires Sound(h, labels) && Uses(h, labels, used) && a !in h && PartsWithin(h, c) && PartsUse(labels, c, used)
    ensures Sound(h[a := c], labels) && Uses(h[a := c], labels, used) && Grown(h, labels, h[a := c], labels, {}) &&
      !IsPh(labels, Ref(a))
  {
    var h' := h[a := c];
    forall b | b in h' ensures PartsWithin(h', h'[b]) && PartsUse(labels, h'[b], used) {
      assert b != a ==> PartsWithin(h, h[b]) && PartsUse(labels, h[b], used);
    }
  }

  lemma NewPlaceholder(h: Heap, labels: seq<Label>, used: set<nat>, a: int, n: nat)
    requires Sound(h, labels) && Uses(h, labels, used) && a !in h
    ensures
      var h', labels' := h[a := Cons(Const(0), Const(0))], labels + [Label(n, Ref(a), None)];
      Sound(h', labels') && Uses(h', labels', used) && Grown(h, labels, h', labels', {})
  {
    var c := Cons(Const(0), Const(0));
    var h', labels' := h[a := c], labels + [Label(n, Ref(a), None)];
    NewCell(h, labels, used, a, c);
    forall b | b in h' ensures PartsUse(labels', h'[b], used) {
      assert PartsUse(labels, h'[b], used);
      assert b != a ==> PartsWithin(h, h[b]);
    }
    forall m | m in used ensures Fine(labels', m) {
      assert Fine(labels, m);
      if labels[m].datum.Some? {
        var o := labels[m].datum.value;
        assert IsPh(labels', o) ==> IsPh(labels, o);
      }
    }
  }

  lemma NewDatum(h: Heap, labels: seq<Label>, used: set<nat>, m: nat, o: Obj, before: set<nat>)
    requires Sound(h, labels) && Uses(h, labels, used) && m < |labels| && labels[m].datum == None && Within(h, o)
    requires Returned(labels, o, before, used) && m !in before
    ensures
      var labels' := labels[m := labels[m].(datum := Some(o))];
      Sound(h, labels') && Uses(h, labels', used) && Grown(h, labels, h, labels', {m})
  {
    var labels' := labels[m := labels[m].(datum := Some(o))];
    forall b | b in h ensures PartsUse(labels', h[b], used) {
      assert PartsUse(labels, h[b], used);
    }
    forall x ensures IsPh(labels', x) == IsPh(labels, x) {
      if j :| 0 <= j < |labels| && labels[j].ph == x { assert labels'[j].ph == x; }
      if j :| 0 <= j < |labels'| && labels'[j].ph == x { assert labels[j].ph == x; }
    }
    forall k | k in used ensures Fine(labels', k) {
      assert Fine(labels, k);
      if k == m && IsPh(labels, o) {
        var j :| 0 <= j < |labels| && labels[j].ph == o;
        assert used <= before + {j};
      }
    }
  }

  /* ---- What reading leaves ---- */

  datatype Snap = Snap(h: Heap, labels: seq<Label>, used: set<nat>)

  /** The labels made are finished, what was there is not changed, and the result
      is built from the syntax. */
  ghost predicate Outcome(sx: Sx, o: Obj, s0: Snap, s1: Snap) {
    Grown(s0.h, s0.labels, s1.h, s1.labels, {}) && Within(s1.h, o) &&
    NamesOf(s1.labels) == NamesOf(s0.labels) + Names(sx) && Open(s1.labels) == Open(s0.labels) &&
    Built(s1.h, s1.labels, o, sx, |s0.labels|, Open(s0.labels)) && Returned(s1.labels, o, s0.used, s1.used)
  }

  ghost predicate OutcomeAll(items: seq<Sx>, os: seq<Obj>, s0: Snap, s1: Snap) {
    Grown(s0.h, s0.labels, s1.h, s1.labels, {}) && (forall i :: 0 <= i < |os| ==> Within(s1.h, os[i])) &&
    NamesOf(s1.labels) == NamesOf(s0.labels) + NamesAll(items) && Open(s1.labels) == Open(s0.labels) &&
    BuiltAll(s1.h, s1.labels, os, items, |s0.labels|, Open(s0.labels)) &&
    s0.used <= s1.used && forall i, k ::
      0 <= i < |os| && 0 <= k < |s1.labels| && os[i] == s1.labels[k].ph ==> k in s1.used
  }

  lemma DefinedCases(names: seq<nat>, sx: Sx)
    ensures Defined(names, sx) ==
      match sx
      case Atom(_) => true
      case Pair(a, d) => Defined(names, a) && Defined(names + Names(a), d)
      case Vec(items) => DefinedAll(names, items)
      case Def(n, s) => Defined(names + [n], s)
      case Refer(n) => n in names
  {
  }

  lemma OutcomeIs(sx: Sx, o: Obj, s0: Snap, s1: Snap)
    requires Outcome(sx, o, s0, s1)
    ensures NamesOf(s1.labels) == NamesOf(s0.labels) + Names(sx)
  {
  }

  lemma AtomOutcome(x: int, s: Snap)
    requires Sound(s.h, s.labels)
    ensures Outcome(Atom(x), Const(x), s, s)
  {
    assert NamesOf(s.labels) == NamesOf(s.labels) + [];
  }

  lemma GrownTrans(s0: Snap, s1: Snap, s2: Snap)
    requires Grown(s0.h, s0.labels, s1.h, s1.labels, {}) && Grown(s1.h, s1.labels, s2.h, s2.labels, {})
    ensures Grown(s0.h, s0.labels, s2.h, s2.labels, {})
  {
  }

  /** A result that was not a placeholder does not become one. */
  lemma StillUsed(o: Obj, s1: Snap, s2: Snap)
    requires Within(s1.h, o) && Grown(s1.h, s1.labels, s2.h, s2.labels, {}) && s1.used <= s2.used
    requires forall k :: 0 <= k < |s1.labels| && o == s1.labels[k].ph ==> k in s1.used
    ensures forall k :: 0 <= k < |s2.labels| && o == s2.labels[k].ph ==> k in s2.used
  {
  }

  lemma PairReady(a: Sx, d: Sx, oa: Obj, od: Obj, s0: Snap, s1: Snap, s2: Snap)
    requires Outcome(a, oa, s0, s1) && Outcome(d, od, s1, s2)
    ensures PartsWithin(s2.h, Cons(oa, od)) && PartsUse(s2.labels, Cons(oa, od), s2.used)
  {
    StillUsed(oa, s1, s2);
  }

  lemma PairOutcome(a: Sx, d: Sx, oa: Obj, od: Obj, s0: Snap, s1: Snap, s2: Snap, x: int)
    requires Outcome(a, oa, s0, s1) && Outcome(d, od, s1, s2) && x !in s2.h && !IsPh(s2.labels, Ref(x))
    ensures Outcome(Pair(a, d), Ref(x), s0, Snap(s2.h[x := Cons(oa, od)], s2.labels, s2.used))
  {
    hide Grown, Built, IsPh;
    var s3 := Snap(s2.h[x := Cons(oa, od)], s2.labels, s2.used);
    GrownTrans(s0, s1, s2);
    GrownCell(s2, x, Cons(oa, od));
    GrownTrans(s1, s2, s3);
    GrownTrans(s0, s2, s3);
    GrownOpen(s1, s3, Open(s0.labels));
    GrownOpen(s2, s3, Open(s0.labels));
    BuiltKept(s1.h, s1.labels, s3.h, s3.labels, oa, a, |s0.labels|, Open(s0.labels));
    BuiltKept(s2.h, s2.labels, s3.h, s3.labels, od, d, |s1.labels|, Open(s0.labels));
    PairBuilt(s3.h, s3.labels, Ref(x), a, d, |s0.labels|, Open(s0.labels));
    NotReturned(s3.labels, Ref(x), s0.used, s3.used);
    assert NamesOf(s0.labels) + Names(a) + Names(d) == NamesOf(s0.labels) + (Names(a) + Names(d));
  }

  lemma GrownCell(s: Snap, x: int, c: Cell)
    requires x !in s.h
    ensures Grown(s.h, s.labels, s.h[x := c], s.labels, {})
  {
  }

  lemma PairBuilt(h: Heap, labels: seq<Label>, o: Obj, a: Sx, d: Sx, k: nat, open: set<nat>)
    requires IsPair(h, o) && !IsPh(labels, o) && k + Defs(a) + Defs(d) <= |labels|
    requires Built(h, labels, Car(h, o), a, k, open) && Built(h, labels, Cdr(h, o), d, k + Defs(a), open)
    ensures Built(h, labels, o, Pair(a, d), k, open)
  {
  }

  lemma NotReturned(labels: seq<Label>, o: Obj, before: set<nat>, used: set<nat>)
    requires !IsPh(labels, o) && before <= used
    ensures Returned(labels, o, before, used)
  {
  }

  lemma GrownOpen(s: Snap, s': Snap, open: set<nat>)
    requires Grown(s.h, s.labels, s'.h, s'.labels, {})
    ensures Grown(s.h, s.labels, s'.h, s'.labels, open)
  {
  }

  lemma ItemsReady(items: seq<Sx>, os: seq<Obj>, s0: Snap, s1: Snap)
    requires OutcomeAll(items, os, s0, s1)
    ensures PartsWithin(s1.h, Vector(os)) && PartsUse(s1.labels, Vector(os), s1.used)
  {
  }

  lemma VecOutcome(items: seq<Sx>, os: seq<Obj>, s0: Snap, s1: Snap, x: int)
    requires OutcomeAll(items, os, s0, s1) && x !in s1.h && !IsPh(s1.labels, Ref(x))
    ensures Outcome(Vec(items), Ref(x), s0, Snap(s1.h[x := Vector(os)], s1.labels, s1.used))
  {
    var s2 := Snap(s1.h[x := Vector(os)], s1.labels, s1.used);
    assert Grown(s1.h, s1.labels, s2.h, s2.labels, {});
    GrownTrans(s0, s1, s2);
    GrownOpen(s1, s2, Open(s0.labels));
    BuiltAllKept(s1.h, s1.labels, s2.h, s2.labels, os, items, |s0.labels|, Open(s0.labels));
  }

  lemma NoItems(s: Snap)
    ensures OutcomeAll([], [], s, s)
  {
    assert NamesOf(s.labels) == NamesOf(s.labels) + [];
  }

  lemma ItemsOutcome(items: seq<Sx>, o: Obj, os: seq<Obj>, s0: Snap, s1: Snap, s2: Snap)
    requires items != [] && Outcome(items[0], o, s0, s1) && OutcomeAll(items[1..], os, s1, s2)
    ensures OutcomeAll(items, [o] + os, s0, s2)
  {
    GrownTrans(s0, s1, s2);
    GrownOpen(s1, s2, Open(s0.labels));
    BuiltKept(s1.h, s1.labels, s2.h, s2.labels, o, items[0], |s0.labels|, Open(s0.labels));
    StillUsed(o, s1, s2);
    assert ([o] + os)[1..] == os;
    assert NamesOf(s0.labels) + (Names(items[0]) + NamesAll(items[1..])) ==
      NamesOf(s0.labels) + Names(items[0]) + NamesAll(items[1..]);
  }

  /** Label number |s0.labels| is made: the datum is read next. */
  ghost predicate Made(n: nat, s0: Snap, s1: Snap) {
    Grown(s0.h, s0.labels, s1.h, s1.labels, {}) && s1.used == s0.used &&
    |s1.labels| == |s0.labels| + 1 && s1.labels[..|s0.labels|] == s0.labels &&
    s1.labels[|s0.labels|].n == n && s1.labels[|s0.labels|].datum == None
  }

  lemma DefReady(n: nat, s: Sx, o: Obj, s0: Snap, s1: Snap, s2: Snap)
    requires Made(n, s0, s1) && Outcome(s, o, s1, s2) && Uses(s0.h, s0.labels, s0.used)
    ensures |s0.labels| < |s2.labels| && s2.labels[|s0.labels|].datum == None && Within(s2.h, o)
    ensures Returned(s2.labels, o, s0.used, s2.used) && |s0.labels| !in s0.used
  {
    forall m | m in s0.used ensures m < |s0.labels| { assert Fine(s0.labels, m); }
  }

  lemma DefOutcome(n: nat, s: Sx, o: Obj, s0: Snap, s1: Snap, s2: Snap, s3: Snap)
    requires Sound(s0.h, s0.labels) && Made(n, s0, s1) && Outcome(s, o, s1, s2) && |s0.labels| < |s2.labels|
    requires s3.h == s2.h && s3.used == s2.used &&
      s3.labels == s2.labels[|s0.labels| := s2.labels[|s0.labels|].(datum := Some(o))]
    requires Grown(s2.h, s2.labels, s3.h, s3.labels, {|s0.labels|})
    ensures Outcome(Def(n, s), o, s0, s3)
  {
    hide Grown, Built, IsPh, Sound;
    var m := |s0.labels|;
    GrownTrans(s0, s1, s2);
    assert Open(s1.labels) == Open(s0.labels) + {m};
    GrownMore(s2, s3, {m}, Open(s1.labels));
    BuiltKept(s2.h, s2.labels, s3.h, s3.labels, o, s, m + 1, Open(s1.labels));
    assert NamesOf(s3.labels) == NamesOf(s2.labels);
    assert NamesOf(s1.labels) == NamesOf(s0.labels) + [n];
    assert NamesOf(s0.labels) + [n] + Names(s) == NamesOf(s0.labels) + ([n] + Names(s));
    assert Open(s3.labels) == Open(s0.labels);
    OlderData(n, s, o, s0, s1, s2);
    DefBuilt(s3.h, s3.labels, o, n, s, m, Open(s0.labels));
    GrownDatum(s0, s2, s3);
  }

  /** The new placeholder is not the datum of an older label. */
  lemma OlderData(n: nat, s: Sx, o: Obj, s0: Snap, s1: Snap, s2: Snap)
    requires Sound(s0.h, s0.labels) && Made(n, s0, s1) && Outcome(s, o, s1, s2)
    ensures forall j ::
      0 <= j < |s0.labels| && j !in Open(s0.labels) ==> s2.labels[j].datum != Some(s2.labels[|s0.labels|].ph)
    ensures s2.labels[|s0.labels|].n == n
  {
    hide Built;
    forall j | 0 <= j < |s0.labels| && j !in Open(s0.labels)
      ensures s2.labels[j].datum != Some(s2.labels[|s0.labels|].ph)
    {
      assert s2.labels[j] == s0.labels[j];
    }
  }

  lemma DefBuilt(h: Heap, labels: seq<Label>, o: Obj, n: nat, s: Sx, k: nat, open: set<nat>)
    requires k + 1 + Defs(s) <= |labels| && k !in open && labels[k].n == n && labels[k].datum == Some(o)
    requires Built(h, labels, o, s, k + 1, open + {k})
    requires forall j :: 0 <= j < k && j !in open ==> labels[j].datum != Some(labels[k].ph)
    ensures Built(h, labels, o, Def(n, s), k, open)
  {
  }

  lemma GrownDatum(s0: Snap, s2: Snap, s3: Snap)
    requires Grown(s0.h, s0.labels, s2.h, s2.labels, {}) && |s0.labels| < |s2.labels|
    requires Grown(s2.h, s2.labels, s3.h, s3.labels, {|s0.labels|})
    ensures Grown(s0.h, s0.labels, s3.h, s3.labels, {})
  {
  }

  lemma GrownMore(s: Snap, s': Snap, open: set<nat>, more: set<nat>)
    requires Grown(s.h, s.labels, s'.h, s'.labels, open) && open <= more
    ensures Grown(s.h, s.labels, s'.h, s'.labels, more)
  {
  }

  lemma ReferFound(s: Snap, n: nat)
    ensures Find(s.labels, |s.labels|, n).Some? <==> n in NamesOf(s.labels)
  {
    FindIsIn(s.labels, |s.labels|, n);
    assert NamesOf(s.labels)[..|s.labels|] == NamesOf(s.labels);
  }

  lemma ReferOpen(s: Snap, n: nat, j: nat)
    requires Sound(s.h, s.labels) && Uses(s.h, s.labels, s.used) && Find(s.labels, |s.labels|, n) == Some(j) &&
      s.labels[j].datum.None?
    ensures Uses(s.h, s.labels, s.used + {j}) && Outcome(Refer(n), s.labels[j].ph, s, s.(used := s.used + {j}))
  {
    assert NamesOf(s.labels) == NamesOf(s.labels) + [];
    forall a | a in s.h ensures PartsUse(s.labels, s.h[a], s.used + {j}) { assert PartsUse(s.labels, s.h[a], s.used); }
  }

  lemma ReferClosed(s: Snap, n: nat, j: nat)
    requires Sound(s.h, s.labels) && Uses(s.h, s.labels, s.used) && Find(s.labels, |s.labels|, n) == Some(j) &&
      s.labels[j].datum.Some?
    ensures Outcome(Refer(n), s.labels[j].datum.value, s, s)
  {
    assert NamesOf(s.labels) == NamesOf(s.labels) + [];
  }

  class Reader {
    var heap: Heap
    var next: int
    var labels: seq<Label>
    ghost var used: set<nat>

    constructor (heap: Heap, next: int)
      requires Sound(heap, []) && forall a :: a in heap ==> a < next
      ensures Valid() && this.heap == heap && labels == [] && used == {}
    {
      this.heap, this.next, labels, used := heap, next, [], {};
    }

    ghost function View(): Snap
      reads this
    {
      Snap(heap, labels, used)
    }

    ghost predicate Valid()
      reads this
    {
      (forall a :: a in heap ==> a < next) && Sound(heap, labels) && Uses(heap, labels, used)
    }

    method Alloc(c: Cell) returns (o: Obj)
      requires Valid() && PartsWithin(heap, c) && PartsUse(labels, c, used)
      modifies this`heap, this`next
      ensures Valid() && o.Ref? && o.addr !in old(heap) && heap == old(heap)[o.addr := c]
      ensures Grown(old(heap), labels, heap, labels, {}) && !IsPh(labels, o)
    {
      NewCell(heap, labels, used, next, c);
      heap := heap[next := c];
      o := Ref(next);
      next := next + 1;
    }

    /** read_label at #n=: the placeholder is a fresh pair. */
    method NewLabel(n: nat)
      requires Valid()
      modifies this`heap, this`next, this`labels
      ensures Valid() && Grown(old(heap), old(labels), heap, labels, {})
      ensures |labels| == |old(labels)| + 1 && labels[..|old(labels)|] == old(labels)
      ensures labels[|old(labels)|].n == n && labels[|old(labels)|].datum == None
    {
      NewPlaceholder(heap, labels, used, next, n);
      heap := heap[next := Cons(Const(0), Const(0))];
      labels := labels + [Label(n, Ref(next), None)];
      next := next + 1;
    }

    /** read_label after the datum of label m. */
    method SetDatum(m: nat, o: Obj, ghost before: set<nat>)
      requires Valid() && m < |labels| && labels[m].datum == None && Within(heap, o)
      requires Returned(labels, o, before, used) && m !in before
      modifies this`labels
      ensures Valid() && labels == old(labels)[m := old(labels)[m].(datum := Some(o))]
      ensures Grown(heap, old(labels), heap, labels, {m})
    {
      NewDatum(heap, labels, used, m, o, before);
      labels := labels[m := labels[m].(datum := Some(o))];
    }

    /** scm_p_assv. */
    method Assv(n: nat) returns (r: Option<nat>)
      ensures r == Find(labels, |labels|, n)
    {
      var i: nat := |labels|;
      while i > 0
        invariant 0 <= i <= |labels| && Find(labels, i, n) == Find(labels, |labels|, n)
      {
        if labels[i - 1].n == n { return Some(i - 1); }
        i := i - 1;
      }
      return None;
    }

    /** read_sexpression: an error exactly for a reference to a label not made. */
    method Read(sx: Sx) returns (r: Option<Obj>)
      requires Valid()
      modifies this
      ensures r.Some? <==> Defined(NamesOf(old(labels)), sx)
      ensures r.Some? ==> Valid() && Outcome(sx, r.value, old(View()), View())
      decreases sx
    {
      hide Sound, Uses, Outcome, Defined, Built;
      ghost var s0 := View();
      DefinedCases(NamesOf(labels), sx);
      match sx {
        case Atom(x) =>
          AtomOutcome(x, s0);
          r := Some(Const(x));
        case Pair(a, d) =>
          var oa := Read(a);
          if oa.None? { return None; }
          ghost var s1 := View();
          OutcomeIs(a, oa.value, s0, s1);
          var od := Read(d);
          if od.None? { return None; }
          ghost var s2 := View();
          PairReady(a, d, oa.value, od.value, s0, s1, s2);
          var o := Alloc(Cons(oa.value, od.value));
          PairOutcome(a, d, oa.value, od.value, s0, s1, s2, o.addr);
          r := Some(o);
        case Vec(items) =>
          var os := ReadItems(items);
          if os.None? { return None; }
          ghost var s1 := View();
          ItemsReady(items, os.value, s0, s1);
          var o := Alloc(Vector(os.value));
          VecOutcome(items, os.value, s0, s1, o.addr);
          r := Some(o);
        case Def(n, s) =>
          var m := |labels|;
          NewLabel(n);
          ghost var s1 := View();
          assert NamesOf(labels) == NamesOf(s0.labels) + [n];
          var o := Read(s);
          if o.None? { return None; }
          ghost var s2 := View();
          DefReady(n, s, o.value, s0, s1, s2);
          SetDatum(m, o.value, s0.used);
          DefOutcome(n, s, o.value, s0, s1, s2, View());
          r := o;
        case Refer(n) =>
          var j := Assv(n);
          ReferFound(s0, n);
          if j.None? { return None; }
          var l := labels[j.value];
          if l.datum.None? {
            used := used + {j.value};
            ReferOpen(s0, n, j.value);
            r := Some(l.ph);
          } else {
            ReferClosed(s0, n, j.value);
            r := l.datum;
          }
      }
    }

    method ReadItems(items: seq<Sx>) returns (r: Option<seq<Obj>>)
      requires Valid()
      modifies this
      ensures r.Some? <==> DefinedAll(NamesOf(old(labels)), items)
      ensures r.Some? ==> Valid() && OutcomeAll(items, r.value, old(View()), View())
      decreases items
    {
      hide Sound, Uses, Outcome, OutcomeAll, Built, BuiltAll;
      ghost var s0 := View();
      if items == [] {
        NoItems(s0);
        return Some([]);
      }
      var o := Read(items[0]);
      if o.None? { return None; }
      ghost var s1 := View();
      OutcomeIs(items[0], o.value, s0, s1);
      var os := ReadItems(items[1..]);
      if os.None? { return None; }
      ItemsOutcome(items, o.value, os.value, s0, s1, View());
      r := Some([o.value] + os.value);
    }
  }
}
