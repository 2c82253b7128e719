/** scm_read of a datum with labels (src/read.c): reading, then resolution. */
module Reading {
  import opened Forms
  import opened Collector
  import opened Cycles
  import opened Labels
  import opened Resolution

  /** The object is what the text says: an atom, pairs and vectors of what their
      parts say, and for #n= and #n# the datum of that label. */
  ghost predicate Denotes(h: Heap, labels: seq<Label>, o: Obj, sx: Sx, k: nat)
    requires Finished(labels)
    decreases sx
  {
    k + Defs(sx) <= |labels| &&
    match sx
    case Atom(x) => o == Const(x)
    case Pair(a, d) =>
      IsPair(h, o) && Denotes(h, labels, Car(h, o), a, k) && Denotes(h, labels, Cdr(h, o), d, k + Defs(a))
    case Vec(items) => IsVector(h, o) && DenotesAll(h, labels, h[o.addr].elems, items, k)
    case Def(n, s) => labels[k].n == n && o == Final(labels, labels[k].datum.value) && Denotes(h, labels, o, s, k + 1)
    case Refer(n) =>
      var j := Find(labels, k, n);
      j.Some? && o == Final(labels, labels[j.value].datum.value)
  }

  ghost predicate DenotesAll(h: Heap, labels: seq<Label>, os: seq<Obj>, items: seq<Sx>, k: nat)
    requires Finished(labels)
    decreases items
  {
    |os| == |items| && k + DefsAll(items) <= |labels| &&
    (items != [] ==>
      Denotes(h, labels, os[0], items[0], k) && DenotesAll(h, labels, os[1..], items[1..], k + Defs(items[0])))
  }

  /** The object is the graph that the text spells, where `data` has an object for each
      label in the order of the text: what #n= stands before is the object of its label,
      and #n# is the object of the newest label n before it. */
  ghost predicate Spells(h: Heap, names: seq<nat>, data: seq<Obj>, o: Obj, sx: Sx, k: nat)
    decreases sx
  {
    k + Defs(sx) <= |names| == |data| &&
    match sx
    case Atom(x) => o == Const(x)
    case Pair(a, d) =>
      IsPair(h, o) && Spells(h, names, data, Car(h, o), a, k) && Spells(h, names, data, Cdr(h, o), d, k + Defs(a))
    case Vec(items) => IsVector(h, o) && SpellsAll(h, names, data, h[o.addr].elems, items, k)
    case Def(n, s) => names[k] == n && o == data[k] && Spells(h, names, data, o, s, k + 1)
    case Refer(n) => exists j: nat :: Newest(names, k, n, j) && o == data[j]
  }

  ghost predicate SpellsAll(h: Heap, names: seq<nat>, data: seq<Obj>, os: seq<Obj>, items: seq<Sx>, k: nat)
    decreases items
  {
    |os| == |items| && k + DefsAll(items) <= |names| == |data| &&
    (items != [] ==>
      Spells(h, names, data, os[0], items[0], k) &&
      SpellsAll(h, names, data, os[1..], items[1..], k + Defs(items[0])))
  }

  ghost predicate Spelled(h: Heap, o: Obj, sx: Sx) {
    exists data :: Spells(h, Names(sx), data, o, sx, 0)
  }

  /** What the labels finally stand for. */
  function Data(labels: seq<Label>): (r: seq<Obj>)
    requires Finished(labels)
    ensures |r| == |labels| && forall i :: 0 <= i < |r| ==> r[i] == Final(labels, labels[i].datum.value)
  {
    seq(|labels|, i requires 0 <= i < |labels| => Final(labels, labels[i].datum.value))
  }

  lemma {:induction false} DenotesSpells(h: Heap, labels: seq<Label>, o: Obj, sx: Sx, k: nat)
    requires Finished(labels) && Denotes(h, labels, o, sx, k)
    ensures Spells(h, NamesOf(labels), Data(labels), o, sx, k)
    decreases sx
  {
    hide Final, Finished;
    match sx
    case Atom(_) =>
    case Pair(a, d) =>
      DenotesSpells(h, labels, Car(h, o), a, k);
      DenotesSpells(h, labels, Cdr(h, o), d, k + Defs(a));
    case Vec(items) => DenotesSpellsAll(h, labels, h[o.addr].elems, items, k);
    case Def(n, s) => DenotesSpells(h, labels, o, s, k + 1);
    case Refer(n) =>
      var j := Find(labels, k, n).value;
      FindIs(labels, k, n, j);
      assert Newest(NamesOf(labels), k, n, j) && o == Data(labels)[j];
  }

  lemma {:induction false} DenotesSpellsAll(h: Heap, labels: seq<Label>, os: seq<Obj>, items: seq<Sx>, k: nat)
    requires Finished(labels) && DenotesAll(h, labels, os, items, k)
    ensures SpellsAll(h, NamesOf(labels), Data(labels), os, items, k)
    decreases items
  {
    hide Final, Finished;
    if items != [] {
      DenotesSpells(h, labels, os[0], items[0], k);
      DenotesSpellsAll(h, labels, os[1..], items[1..], k + Defs(items[0]));
    }
  }

  /** The label that the datum of the syntax is itself a reference to, if any. */
  function Target(labels: seq<Label>, sx: Sx, k: nat): (r: Option<nat>)
    requires k + Defs(sx) <= |labels|
    ensures r.Some? ==> r.value < |labels|
    decreases sx
  {
    match sx
    case Def(_, s) => Target(labels, s, k + 1)
    case Refer(n) => Find(labels, k, n)
    case _ => None
  }

  /** Some label stands for itself, as in #n=#n# or #n=#m=#n#. */
  predicate Selfish(labels: seq<Label>, sx: Sx, k: nat)
    requires k + Defs(sx) <= |labels|
    decreases sx
  {
    match sx
    case Pair(a, d) => Selfish(labels, a, k) || Selfish(labels, d, k + Defs(a))
    case Vec(items) => SelfishAny(labels, items, k)
    case Def(n, s) => Target(labels, s, k + 1) == Some(k) || Selfish(labels, s, k + 1)
    case _ => false
  }

  predicate SelfishAny(labels: seq<Label>, items: seq<Sx>, k: nat)
    requires k + DefsAll(items) <= |labels|
    decreases items
  {
    items != [] && (Selfish(labels, items[0], k) || SelfishAny(labels, items[1..], k + Defs(items[0])))
  }

  ghost predicate DistinctPhs(labels: seq<Label>) {
    forall i, j :: 0 <= i < j < |labels| ==> labels[i].ph != labels[j].ph
  }

  lemma OwnerIs(labels: seq<Label>, k: nat, j: nat)
    requires j < k <= |labels| && DistinctPhs(labels)
    ensures Owner(labels, k, labels[j].ph) == Some(j)
  {
  }

  /** What an object read is, by its target. */
  lemma {:induction false} TargetIs(h: Heap, labels: seq<Label>, o: Obj, sx: Sx, k: nat, open: set<nat>)
    requires Built(h, labels, o, sx, k, open) && forall i :: 0 <= i < |labels| ==> IsPair(h, labels[i].ph)
    ensures
      var j := Target(labels, sx, k);
      if j.None? then !IsPh(labels, o)
      else if k <= j.value || j.value in open then o == labels[j.value].ph
      else labels[j.value].datum == Some(o)
    decreases sx
  {
    if sx.Def? { TargetIs(h, labels, o, sx.sx, k + 1, open + {k}); }
  }

  /** A label is its own datum exactly when it is its own target. */
  lemma DefSelf(h: Heap, labels: seq<Label>, o: Obj, n: nat, s: Sx, k: nat, open: set<nat>)
    requires Built(h, labels, o, Def(n, s), k, open) && DistinctPhs(labels)
    requires forall i :: 0 <= i < |labels| ==> IsPair(h, labels[i].ph)
    ensures o == labels[k].ph <==> Target(labels, s, k + 1) == Some(k)
  {
    TargetIs(h, labels, o, s, k + 1, open + {k});
    if o == labels[k].ph { assert IsPh(labels, o); }
  }

  /** What is known when the text has been read. */
  ghost predicate Ready(h: Heap, labels: seq<Label>, used: set<nat>, root: Obj) {
    Sound(h, labels) && Uses(h, labels, used) && Finished(labels) && Returned(labels, root, {}, used)
  }

  lemma NotPhFinal(labels: seq<Label>, o: Obj)
    requires Finished(labels) && !IsPh(labels, o)
    ensures Final(labels, o) == o && !Endless(labels, o)
  {
  }

  /** An object that occurs and is no placeholder is reached, and so its parts
      occur. */
  lemma OccursReached(h: Heap, labels: seq<Label>, root: Obj, o: Obj)
    requires Finished(labels) && Occurs(h, labels, root, o) && !IsPh(labels, o) && o.Ref? && o.addr in h
    ensures Reached(FinalHeap(labels, h), Final(labels, root), o.addr)
    ensures forall i :: 0 <= i < |Parts(h[o.addr])| ==> Occurs(h, labels, root, Parts(h[o.addr])[i])
  {
    NotPhFinal(labels, o);
    if o == root {
      ReachedRoot(FinalHeap(labels, h), o.addr);
    } else {
      var a, i :|
        a in h && Reached(FinalHeap(labels, h), Final(labels, root), a) && 0 <= i < |Parts(h[a])| &&
          Parts(h[a])[i] == o;
      PartReached(h, labels, Final(labels, root), a, o);
    }
  }

  /** A placeholder that occurs stands for a datum that is no placeholder, unless
      it stands for itself. */
  lemma OccursFinal(h: Heap, labels: seq<Label>, used: set<nat>, root: Obj, o: Obj)
    requires Ready(h, labels, used, root) && Occurs(h, labels, root, o) && !Endless(labels, o)
    ensures !IsPh(labels, Final(labels, o)) && Final(labels, Final(labels, o)) == Final(labels, o)
  {
    if IsPh(labels, o) {
      var j := Owner(labels, |labels|, o).value;
      if o != root {
        var a, i :|
          a in h && Reached(FinalHeap(labels, h), Final(labels, root), a) && 0 <= i < |Parts(h[a])| &&
            Parts(h[a])[i] == o;
        assert PartsUse(labels, h[a], used);
      }
      assert j in used && Fine(labels, j);
    }
    NotPhFinal(labels, Final(labels, o));
  }

  lemma {:induction false} SelfishTrouble(h: Heap, labels: seq<Label>, root: Obj, o: Obj, sx: Sx, k: nat,
      open: set<nat>)
    requires Sound(h, labels) && Finished(labels) && Built(h, labels, o, sx, k, open) && Occurs(h, labels, root, o)
    requires Selfish(labels, sx, k)
    ensures Trouble(h, labels, root)
    decreases sx
  {
    hide Trouble, Endless, Occurs, Reached, Parts, FinalHeap, Final;
    match sx
    case Pair(a, d) =>
      PartsOccur(h, labels, root, o);
      if Selfish(labels, a, k) {
        SelfishTrouble(h, labels, root, Car(h, o), a, k, open);
      } else {
        SelfishTrouble(h, labels, root, Cdr(h, o), d, k + Defs(a), open);
      }
    case Vec(items) =>
      ElementsOccur(h, labels, root, o);
      SelfishAnyTrouble(h, labels, root, h[o.addr].elems, items, k, open);
    case Def(n, s) =>
      if Target(labels, s, k + 1) == Some(k) {
        DefSelf(h, labels, o, n, s, k, open);
        ItselfTrouble(h, labels, root, o, k);
      } else {
        SelfishTrouble(h, labels, root, o, s, k + 1, open + {k});
      }
  }

  lemma ItselfTrouble(h: Heap, labels: seq<Label>, root: Obj, o: Obj, k: nat)
    requires Finished(labels) && DistinctPhs(labels) && Occurs(h, labels, root, o)
    requires k < |labels| && o == labels[k].ph && labels[k].datum == Some(o)
    ensures Trouble(h, labels, root)
  {
    OwnerIs(labels, |labels|, k);
  }

  lemma PartsOccur(h: Heap, labels: seq<Label>, root: Obj, o: Obj)
    requires Finished(labels) && Occurs(h, labels, root, o) && !IsPh(labels, o) && IsPair(h, o)
    ensures Occurs(h, labels, root, Car(h, o)) && Occurs(h, labels, root, Cdr(h, o))
  {
    OccursReached(h, labels, root, o);
    assert Parts(h[o.addr])[0] == Car(h, o) && Parts(h[o.addr])[1] == Cdr(h, o);
  }

  lemma ElementsOccur(h: Heap, labels: seq<Label>, root: Obj, o: Obj)
    requires Sound(h, labels) && Finished(labels) && Occurs(h, labels, root, o) && IsVector(h, o)
    ensures forall i :: 0 <= i < |h[o.addr].elems| ==> Occurs(h, labels, root, h[o.addr].elems[i])
  {
    NoPhVector(h, labels, o);
    OccursReached(h, labels, root, o);
  }

  /** Of a cell that occurs, every slot is resolved. */
  lemma CellResolved(h: Heap, h': Heap, labels: seq<Label>, root: Obj, o: Obj)
    requires Finished(labels) && Occurs(h, labels, root, o) && !IsPh(labels, o) && o.Ref? && o.addr in h
    requires Resolved(h, h', labels, Final(labels, root))
    ensures Final(labels, o) == o && o.addr in h' && h'[o.addr] == FinalCell(labels, h[o.addr])
  {
    NotPhFinal(labels, o);
    OccursReached(h, labels, root, o);
  }

  lemma NoPhVector(h: Heap, labels: seq<Label>, o: Obj)
    requires Sound(h, labels) && IsVector(h, o)
    ensures !IsPh(labels, o)
  {
  }

  lemma {:induction false} SelfishAnyTrouble(h: Heap, labels: seq<Label>, root: Obj, os: seq<Obj>, items: seq<Sx>,
      k: nat, open: set<nat>)
    requires Sound(h, labels) && Finished(labels) && BuiltAll(h, labels, os, items, k, open)
    requires (forall i :: 0 <= i < |os| ==> Occurs(h, labels, root, os[i])) && SelfishAny(labels, items, k)
    ensures Trouble(h, labels, root)
    decreases items
  {
    if Selfish(labels, items[0], k) {
      SelfishTrouble(h, labels, root, os[0], items[0], k, open);
    } else {
      SelfishAnyTrouble(h, labels, root, os[1..], items[1..], k + Defs(items[0]), open);
    }
  }

  /** Every label comes from a #n= in the text. */
  lemma {:induction false} LabelSelfish(h: Heap, labels: seq<Label>, o: Obj, sx: Sx, k: nat, open: set<nat>, m: nat)
    requires Sound(h, labels) && Built(h, labels, o, sx, k, open) && k <= m < k + Defs(sx) &&
      labels[m].datum == Some(labels[m].ph)
    ensures Selfish(labels, sx, k)
    decreases sx
  {
    match sx
    case Pair(a, d) =>
      if m < k + Defs(a) { LabelSelfish(h, labels, Car(h, o), a, k, open, m); }
      else { LabelSelfish(h, labels, Cdr(h, o), d, k + Defs(a), open, m); }
    case Vec(items) => LabelsSelfish(h, labels, h[o.addr].elems, items, k, open, m);
    case Def(n, s) =>
      if m == k { DefSelf(h, labels, o, n, s, k, open); } else { LabelSelfish(h, labels, o, s, k + 1, open + {k}, m); }
  }

  lemma {:induction false} LabelsSelfish(h: Heap, labels: seq<Label>, os: seq<Obj>, items: seq<Sx>, k: nat,
      open: set<nat>, m: nat)
    requires Sound(h, labels) && BuiltAll(h, labels, os, items, k, open) && k <= m < k + DefsAll(items)
    requires labels[m].datum == Some(labels[m].ph)
    ensures SelfishAny(labels, items, k)
    decreases items
  {
    if m < k + Defs(items[0]) {
      LabelSelfish(h, labels, os[0], items[0], k, open, m);
    } else {
      LabelsSelfish(h, labels, os[1..], items[1..], k + Defs(items[0]), open, m);
    }
  }

  /** Resolution fails exactly for a text in which a label stands for itself. */
  lemma TroubleIsSelfish(h: Heap, labels: seq<Label>, used: set<nat>, root: Obj, sx: Sx)
    requires Ready(h, labels, used, root) && Built(h, labels, root, sx, 0, {}) && |labels| == Defs(sx)
    ensures Trouble(h, labels, root) <==> Selfish(labels, sx, 0)
  {
    if Trouble(h, labels, root) {
      var o :| Occurs(h, labels, root, o) && Endless(labels, o);
      LabelSelfish(h, labels, root, sx, 0, {}, Owner(labels, |labels|, o).value);
    }
    if Selfish(labels, sx, 0) {
      assert Occurs(h, labels, root, root);
      SelfishTrouble(h, labels, root, root, sx, 0, {});
    }
  }

  /** After resolution an object is what its text says. */
  lemma {:induction false} ResolvedDenotes(h: Heap, h': Heap, labels: seq<Label>, used: set<nat>, root: Obj, o: Obj,
      sx: Sx, k: nat, open: set<nat>)
    requires Ready(h, labels, used, root) && Built(h, labels, o, sx, k, open) && Occurs(h, labels, root, o)
    requires !Trouble(h, labels, root) && Resolved(h, h', labels, Final(labels, root))
    ensures Denotes(h', labels, Final(labels, o), sx, k)
    decreases sx
  {
    hide Occurs, FinalHeap, Uses, Returned, Resolved, Trouble, Endless, Final;
    match sx
    case Atom(_) => assert !IsPh(labels, o); NotPhFinal(labels, o);
    case Pair(a, d) =>
      CellResolved(h, h', labels, root, o);
      PartsOccur(h, labels, root, o);
      ResolvedDenotes(h, h', labels, used, root, Car(h, o), a, k, open);
      ResolvedDenotes(h, h', labels, used, root, Cdr(h, o), d, k + Defs(a), open);
    case Vec(items) =>
      NoPhVector(h, labels, o);
      CellResolved(h, h', labels, root, o);
      ElementsOccur(h, labels, root, o);
      AllDenote(h, h', labels, used, root, h[o.addr].elems, items, k, open);
    case Def(n, s) => ResolvedDenotes(h, h', labels, used, root, o, s, k + 1, open + {k});
    case Refer(n) =>
      var j := Find(labels, k, n).value;
      NotTrouble(h, labels, root, o);
      OccursFinal(h, labels, used, root, o);
      if j in open { FinalPh(labels, j); }
  }

  lemma NotTrouble(h: Heap, labels: seq<Label>, root: Obj, o: Obj)
    requires Finished(labels) && !Trouble(h, labels, root) && Occurs(h, labels, root, o)
    ensures !Endless(labels, o)
  {
  }

  lemma FinalPh(labels: seq<Label>, j: nat)
    requires Finished(labels) && DistinctPhs(labels) && j < |labels|
    ensures Final(labels, labels[j].ph) == labels[j].datum.value
  {
    OwnerIs(labels, |labels|, j);
  }

  lemma {:induction false} AllDenote(h: Heap, h': Heap, labels: seq<Label>, used: set<nat>, root: Obj, os: seq<Obj>,
                                     items: seq<Sx>, k: nat, open: set<nat>)
    requires Ready(h, labels, used, root) && BuiltAll(h, labels, os, items, k, open)
    requires forall i :: 0 <= i < |os| ==> Occurs(h, labels, root, os[i])
    requires !Trouble(h, labels, root) && Resolved(h, h', labels, Final(labels, root))
    ensures DenotesAll(h', labels, FinalAll(labels, os), items, k)
    decreases items
  {
    if items != [] {
      ResolvedDenotes(h, h', labels, used, root, os[0], items[0], k, open);
      AllDenote(h, h', labels, used, root, os[1..], items[1..], k + Defs(items[0]), open);
      assert FinalAll(labels, os)[1..] == FinalAll(labels, os[1..]);
    }
  }

  /** No placeholder is reached after resolution. */
  ghost predicate NoPlaceholders(h: Heap, labels: seq<Label>, root: Obj) {
    !IsPh(labels, root) &&
    forall a, i :: Reached(h, root, a) && a in h && 0 <= i < |Parts(h[a])| ==> !IsPh(labels, Parts(h[a])[i])
  }

  lemma PlaceholdersGone(h: Heap, h': Heap, labels: seq<Label>, used: set<nat>, root: Obj)
    requires Ready(h, labels, used, root) && !Trouble(h, labels, root) && Resolved(h, h', labels, Final(labels, root))
    ensures NoPlaceholders(h', labels, Final(labels, root))
  {
    hide Endless, Final, Uses, Returned;
    var o' := Final(labels, root);
    NotTrouble(h, labels, root, root);
    assert Occurs(h, labels, root, root);
    OccursFinal(h, labels, used, root, root);
    forall a, i | Reached(h', o', a) && a in h' && 0 <= i < |Parts(h'[a])| ensures !IsPh(labels, Parts(h'[a])[i]) {
      ReachedSame(h, h', labels, o', a);
      var o := Parts(h[a])[i];
      assert Occurs(h, labels, root, o);
      NotTrouble(h, labels, root, o);
      OccursFinal(h, labels, used, root, o);
    }
  }

  /** The resolved datum reaches the same cells in the heap that is left as in one
      where every slot is resolved. */
  lemma ReachedSame(h: Heap, h': Heap, labels: seq<Label>, root: Obj, a: int)
    requires Finished(labels) && Resolved(h, h', labels, root) && Reached(h', root, a)
    ensures Reached(FinalHeap(labels, h), root, a) && a in h && h'[a] == FinalCell(labels, h[a])
  {
    var p: seq<int> :| Walk(h', p) && root == Ref(p[0]) && p[|p| - 1] == a;
    WalkSame(h, h', labels, root, p);
  }

  lemma {:induction false} WalkSame(h: Heap, h': Heap, labels: seq<Label>, root: Obj, p: seq<int>)
    requires Finished(labels) && Resolved(h, h', labels, root) && Walk(h', p) && root == Ref(p[0])
    ensures Reached(FinalHeap(labels, h), root, p[|p| - 1])
    decreases |p|
  {
    hide Final, FinalCell, Reached;
    if |p| == 1 {
      ReachedRoot(FinalHeap(labels, h), p[0]);
    } else {
      var q := p[..|p| - 1];
      WalkPrefix(h', p);
      WalkSame(h, h', labels, root, q);
      var a, b := p[|p| - 2], p[|p| - 1];
      assert q[|q| - 1] == a;
      var i :| 0 <= i < |Parts(h'[a])| && Parts(h'[a])[i] == Ref(b);
      ReachedPart(FinalHeap(labels, h), root, a, i);
    }
  }

  /** Labels with these names; their order is all that targets depend on. */
  function Named(names: seq<nat>): seq<Label> {
    seq(|names|, i requires 0 <= i < |names| => Label(names[i], NULL, None))
  }

  /** The text has a label that stands for itself. */
  predicate SelfishText(sx: Sx) {
    Selfish(Named(Names(sx)), sx, 0)
  }

  lemma {:induction false} TargetKept(labels: seq<Label>, labels': seq<Label>, sx: Sx, k: nat)
    requires k + Defs(sx) <= |labels| == |labels'| && forall i :: 0 <= i < |labels| ==> labels[i].n == labels'[i].n
    ensures Target(labels, sx, k) == Target(labels', sx, k)
    decreases sx
  {
    match sx
    case Def(_, s) => TargetKept(labels, labels', s, k + 1);
    case Refer(n) => FindKept(labels, labels', k, n);
    case _ =>
  }

  lemma {:induction false} SelfishKept(labels: seq<Label>, labels': seq<Label>, sx: Sx, k: nat)
    requires k + Defs(sx) <= |labels| == |labels'| && forall i :: 0 <= i < |labels| ==> labels[i].n == labels'[i].n
    ensures Selfish(labels, sx, k) == Selfish(labels', sx, k)
    decreases sx
  {
    match sx
    case Pair(a, d) => SelfishKept(labels, labels', a, k); SelfishKept(labels, labels', d, k + Defs(a));
    case Vec(items) => SelfishAnyKept(labels, labels', items, k);
    case Def(_, s) => TargetKept(labels, labels', s, k + 1); SelfishKept(labels, labels', s, k + 1);
    case _ =>
  }

  lemma {:induction false} SelfishAnyKept(labels: seq<Label>, labels': seq<Label>, items: seq<Sx>, k: nat)
    requires k + DefsAll(items) <= |labels| == |labels'| &&
      forall i :: 0 <= i < |labels| ==> labels[i].n == labels'[i].n
    ensures SelfishAny(labels, items, k) == SelfishAny(labels', items, k)
    decreases items
  {
    if items != [] {
      SelfishKept(labels, labels', items[0], k);
      SelfishAnyKept(labels, labels', items[1..], k + Defs(items[0]));
    }
  }

  /** Reading gives a datum exactly when every reference is to a label made before
      it and no label stands for itself; the datum is what the text says, and no
      placeholder is left in it. */
  method ScmRead(heap: Heap, next: int, sx: Sx) returns (r: Option<Obj>, after: Heap, ghost labels: seq<Label>)
    requires Sound(heap, []) && forall a :: a in heap ==> a < next
    ensures r.Some? <==> Defined([], sx) && !SelfishText(sx)
    ensures r.Some? ==> Spelled(after, r.value, sx)
    ensures r.Some? ==> Finished(labels) && NamesOf(labels) == Names(sx)
    ensures r.Some? ==> Denotes(after, labels, r.value, sx, 0) && NoPlaceholders(after, labels, r.value)
  {
    hide Spelled, Denotes, NoPlaceholders, Selfish, Defined,
         Trouble, Resolved, Final, Ready, Built, Outcome, Sound, Uses,
         PlaceholderPairs, SelfishText;
    var reader := new Reader(heap, next);
    labels, after := [], heap;
    ghost var s0 := reader.View();
    assert NamesOf([]) == [];
    var o := reader.Read(sx);
    if o.None? { return None, reader.heap, []; }
    labels := reader.labels;
    ghost var h, used := reader.heap, reader.used;
    ReadIsReady(sx, o.value, s0, reader.View());
    TroubleIsSelfish(h, labels, used, o.value, sx);
    SelfishTextIs(labels, sx);
    if reader.labels == [] {
      NothingToResolve(h, o.value);
      r, after := o, reader.heap;
    } else {
      var resolver := new Resolver(reader.heap, reader.labels);
      r := resolver.ResolveLabels(o.value);
      after := resolver.heap;
    }
    if r.Some? {
      ReadDone(h, after, labels, used, o.value, sx);
      IsSpelled(after, labels, r.value, sx);
    }
  }

  lemma IsSpelled(h: Heap, labels: seq<Label>, o: Obj, sx: Sx)
    requires Finished(labels) && NamesOf(labels) == Names(sx) && Denotes(h, labels, o, sx, 0)
    ensures Spelled(h, o, sx)
  {
    hide Denotes, Spells, Finished;
    DenotesSpells(h, labels, o, sx, 0);
  }

  lemma SelfishTextIs(labels: seq<Label>, sx: Sx)
    requires NamesOf(labels) == Names(sx)
    ensures Selfish(labels, sx, 0) == SelfishText(sx)
  {
    SelfishKept(labels, Named(Names(sx)), sx, 0);
  }

  lemma NothingToResolve(h: Heap, root: Obj)
    ensures !Trouble(h, [], root) && Final([], root) == root && Resolved(h, h, [], root)
  {
    forall a | a in h ensures FinalCell([], h[a]) == h[a] {
      if h[a].Vector? { assert FinalAll([], h[a].elems) == h[a].elems; }
    }
  }

  lemma ReadDone(h: Heap, h': Heap, labels: seq<Label>, used: set<nat>, root: Obj, sx: Sx)
    requires Ready(h, labels, used, root) && Built(h, labels, root, sx, 0, {})
    requires !Trouble(h, labels, root) && Resolved(h, h', labels, Final(labels, root))
    ensures Denotes(h', labels, Final(labels, root), sx, 0) && NoPlaceholders(h', labels, Final(labels, root))
  {
    hide Trouble, Resolved, Built, Denotes, NoPlaceholders, Sound, Uses, Returned;
    assert Occurs(h, labels, root, root);
    ResolvedDenotes(h, h', labels, used, root, root, sx, 0, {});
    PlaceholdersGone(h, h', labels, used, root);
  }

  lemma ReadIsReady(sx: Sx, o: Obj, s0: Snap, s1: Snap)
    requires Outcome(sx, o, s0, s1) && s0.labels == [] && s0.used == {}
    requires Sound(s1.h, s1.labels) && Uses(s1.h, s1.labels, s1.used)
    ensures Ready(s1.h, s1.labels, s1.used, o) && Built(s1.h, s1.labels, o, sx, 0, {}) && |s1.labels| == Defs(sx)
    ensures NamesOf(s1.labels) == Names(sx) && PlaceholderPairs(s1.h, s1.labels) && Finished(s1.labels)
  {
    assert Open(s0.labels) == {};
    forall i | 0 <= i < |s1.labels| ensures s1.labels[i].datum.Some? { assert i !in Open(s1.labels); }
  }
}
