/** unwrap_copy (src/macro.c), on every graph: a copy whose far symbols are unwrapped.
    What has none is shared, and a circular list is copied up to the cycle. */
module Unwrapping {
  import opened Forms
  import opened Collector
  import opened Cycles

  /* ---- The heap ---- */

  ghost predicate In(h: Heap, o: Obj) { o.Ref? ==> o.addr in h }

  ghost predicate Extends(h: Heap, h': Heap) {
    forall a :: a in h ==> a in h' && h'[a] == h[a]
  }

  /** What a far symbol wraps, k times. */
  function Inner(h: Heap, o: Obj, k: nat): Obj {
    if k == 0 then o
    else var p := Inner(h, o, k - 1); if IsFar(h, p) then h[p.addr].sym else p
  }

  /** The object at the root of a far symbol. */
  ghost predicate RootIs(h: Heap, o: Obj, r: Obj) {
    !IsFar(h, r) && exists n: nat :: Inner(h, o, n) == r
  }

  /** A far symbol wraps an identifier, and no reference leaves the heap. */
  ghost predicate Sound(h: Heap) {
    Closed(h) &&
    forall a :: a in h && h[a].Farsymbol? ==> exists r :: RootIs(h, Ref(a), r) && !IsPair(h, r) && !IsVector(h, r)
  }

  lemma {:induction false} InnerStays(h: Heap, o: Obj, n: nat, k: nat)
    requires !IsFar(h, Inner(h, o, n)) && n <= k
    ensures Inner(h, o, k) == Inner(h, o, n)
    decreases k
  {
    if n < k { InnerStays(h, o, n, k - 1); }
  }

  lemma RootOnce(h: Heap, o: Obj, r: Obj, r': Obj)
    requires RootIs(h, o, r) && RootIs(h, o, r')
    ensures r == r'
  {
    var m: nat :| Inner(h, o, m) == r;
    var n: nat :| Inner(h, o, n) == r';
    if m <= n { InnerStays(h, o, m, n); } else { InnerStays(h, o, n, m); }
  }

  lemma {:induction false} InnerIn(h: Heap, o: Obj, n: nat)
    requires Closed(h) && In(h, o)
    ensures In(h, Inner(h, o, n))
  {
    if n > 0 {
      InnerIn(h, o, n - 1);
      var p := Inner(h, o, n - 1);
      if IsFar(h, p) { assert h[p.addr].sym in Kids(h[p.addr]); }
    }
  }

  /** The root of a far symbol is no cell that is followed. */
  lemma RootIsSymbol(h: Heap, o: Obj, r: Obj)
    requires Sound(h) && IsFar(h, o) && RootIs(h, o, r)
    ensures In(h, r) && !IsFar(h, r) && !IsPair(h, r) && !IsVector(h, r)
  {
    var r' :| RootIs(h, Ref(o.addr), r') && !IsPair(h, r') && !IsVector(h, r');
    RootOnce(h, o, r, r');
    var n: nat :| Inner(h, o, n) == r;
    InnerIn(h, o, n);
  }

  lemma PartIn(h: Heap, o: Obj, part: Obj)
    requires Closed(h) && o.Ref? && o.addr in h && part in Parts(h[o.addr])
    ensures In(h, part)
  {
    assert part in Kids(h[o.addr]);
  }

  lemma {:induction false} NthIn(h: Heap, o: Obj, k: nat)
    requires Closed(h) && In(h, o)
    ensures In(h, Nth(h, o, k))
  {
    if k > 0 {
      NthIn(h, o, k - 1);
      var p := Nth(h, o, k - 1);
      if IsPair(h, p) { PartIn(h, p, Cdr(h, p)); }
    }
  }

  lemma NthNext(h: Heap, o: Obj, k: nat)
    requires IsPair(h, Nth(h, o, k))
    ensures Nth(h, o, k + 1) == Cdr(h, Nth(h, o, k))
  {
  }

  /** Allocation changes no list ... */
  lemma {:induction false} NthKept(h: Heap, h': Heap, o: Obj, k: nat)
    requires Extends(h, h') && forall j :: 0 <= j < k ==> IsPair(h, Nth(h, o, j))
    ensures Nth(h', o, k) == Nth(h, o, k)
  {
    if k > 0 {
      NthKept(h, h', o, k - 1);
      assert IsPair(h, Nth(h, o, k - 1));
    }
  }

  /** ... and no walk. */
  lemma WalkKept(h: Heap, h': Heap, p: seq<Obj>, avoid: set<int>)
    requires FarWalk(h, p, avoid) && Extends(h, h')
    ensures FarWalk(h', p, avoid)
  {
    forall i {:trigger h'[p[i].addr]} | 0 <= i < |p| - 1 ensures p[i + 1] in Parts(h'[p[i].addr]) {
      assert p[i].addr in h && h'[p[i].addr] == h[p[i].addr];
    }
  }

  /* ---- What was there before reaches only what was there before ---- */

  lemma SameCell(h0: Heap, h: Heap, o: Obj)
    requires Extends(h0, h) && In(h0, o)
    ensures IsPair(h, o) == IsPair(h0, o) && IsVector(h, o) == IsVector(h0, o) && IsFar(h, o) == IsFar(h0, o)
    ensures o.Ref? ==> h[o.addr] == h0[o.addr]
  {
  }

  lemma {:induction false} SameNth(h0: Heap, h: Heap, o: Obj, k: nat)
    requires Closed(h0) && Extends(h0, h) && In(h0, o)
    ensures Nth(h, o, k) == Nth(h0, o, k) && BranchAt(h, o, k) == BranchAt(h0, o, k) && In(h0, BranchAt(h0, o, k))
  {
    hide Closed, Extends;
    if k > 0 { SameNth(h0, h, o, k - 1); }
    NthIn(h0, o, k);
    var p := Nth(h0, o, k);
    SameCell(h0, h, p);
    if k > 0 {
      NthIn(h0, o, k - 1);
      SameCell(h0, h, Nth(h0, o, k - 1));
    }
    if IsPair(h0, p) { PartIn(h0, p, Car(h0, p)); }
  }

  lemma SameBranch(h0: Heap, h: Heap, o: Obj, part: Obj)
    requires Closed(h0) && Extends(h0, h) && In(h0, o)
    ensures (Branch(h, o, part) <==> Branch(h0, o, part)) && (Branch(h0, o, part) ==> In(h0, part))
  {
    hide Closed, Extends, BranchAt;
    SameCell(h0, h, o);
    if IsVector(h0, o) {
      if part in h0[o.addr].elems { PartIn(h0, o, part); }
    } else {
      forall k: nat ensures BranchAt(h, o, k) == BranchAt(h0, o, k) && In(h0, BranchAt(h0, o, k)) {
        SameNth(h0, h, o, k);
      }
    }
  }

  lemma BranchWalkStep(h: Heap, p: seq<Obj>, avoid: set<int>)
    requires |p| > 1
    ensures BranchWalk(h, p, avoid) <==>
      p[0].Ref? && p[0].addr !in avoid && Branch(h, p[0], p[1]) && BranchWalk(h, p[1..], avoid)
  {
    hide Branch;
    var q := p[1..];
    if BranchWalk(h, p, avoid) { BranchWalkFrom(h, p, avoid, 1); }
    if p[0].Ref? && p[0].addr !in avoid && Branch(h, p[0], p[1]) && BranchWalk(h, q, avoid) {
      forall i | 0 <= i < |p| - 1 ensures p[i].Ref? && p[i].addr !in avoid && Branch(h, p[i], p[i + 1]) {
        if i > 0 { assert p[i] == q[i - 1] && p[i + 1] == q[i]; }
      }
    }
  }

  lemma {:induction false} SameBranchWalk(h0: Heap, h: Heap, p: seq<Obj>, avoid: set<int>)
    requires Closed(h0) && Extends(h0, h) && |p| > 0 && In(h0, p[0])
    ensures BranchWalk(h, p, avoid) <==> BranchWalk(h0, p, avoid)
    decreases |p|
  {
    hide Closed, Extends, Branch;
    if |p| > 1 {
      BranchWalkStep(h0, p, avoid);
      BranchWalkStep(h, p, avoid);
      SameBranch(h0, h, p[0], p[1]);
      if Branch(h0, p[0], p[1]) { SameBranchWalk(h0, h, p[1..], avoid); }
    } else {
      SameCell(h0, h, p[0]);
    }
  }

  lemma SameFarBranch(h0: Heap, h: Heap, o: Obj, avoid: set<int>)
    requires Closed(h0) && Extends(h0, h) && In(h0, o)
    ensures FarBranch(h, o, avoid) <==> FarBranch(h0, o, avoid)
  {
    hide Closed, Extends, In, BranchWalk;
    forall p: seq<Obj> | |p| > 0 && p[0] == o ensures BranchWalk(h, p, avoid) <==> BranchWalk(h0, p, avoid) {
      SameBranchWalk(h0, h, p, avoid);
    }
    forall h1, p: seq<Obj> | BranchWalk(h1, p, avoid) ensures |p| > 0 { NotEmpty(h1, p, avoid); }
  }

  lemma NotEmpty(h: Heap, p: seq<Obj>, avoid: set<int>)
    requires BranchWalk(h, p, avoid)
    ensures |p| > 0
  {
  }

  lemma SameFar(h0: Heap, h: Heap, o: Obj)
    requires Closed(h0) && Extends(h0, h) && In(h0, o)
    ensures HasFar(h, o, {}) <==> HasFar(h0, o, {})
  {
    hide HasFar, FarBranch;
    SameFarBranch(h0, h, o, {});
    FarBranchBetween(h, o, {});
    FarBranchBetween(h0, o, {});
  }

  /* ---- The copy ---- */

  /** How a copy is made: the object itself, the symbol at a root, a new vector, or
      a new list of so many pairs. */
  datatype Made = Same | Symbol | Vec(items: seq<Made>) | Lst(cars: seq<Made>, end: Made)

  /** The first n pairs of x are copied in new cells: up to the end of the list, or
      to where Floyd's pointers meet. */
  ghost predicate Spine(h0: Heap, h: Heap, x: Obj, y: Obj, n: nat) {
    (forall k :: 0 <= k < n ==>
       IsPair(h0, Nth(h0, x, k)) && IsPair(h, Nth(h, y, k)) && Nth(h, y, k).addr !in h0) &&
    (forall k :: 0 < k < n ==> Nth(h0, x, k) != Nth(h0, x, k / 2)) &&
    (IsPair(h0, Nth(h0, x, n)) ==> Nth(h0, x, n) == Nth(h0, x, n / 2))
  }

  /** In the heap h, which extends h0, y is the copy of x that is made for the parts
      of the objects on the path. */
  ghost predicate Copy(h0: Heap, h: Heap, x: Obj, y: Obj, m: Made, path: seq<int>)
    decreases m
  {
    match m
    case Same => y == x && !FarBranch(h0, x, Nodes(path))
    case Symbol => IsFar(h0, x) && RootIs(h0, x, y)
    case Vec(ms) =>
      FarBranch(h0, x, Nodes(path)) && IsVector(h0, x) && IsVector(h, y) && y.addr !in h0 &&
      |h0[x.addr].elems| == |h[y.addr].elems| == |ms| &&
      forall i :: 0 <= i < |ms| ==> Copy(h0, h, h0[x.addr].elems[i], h[y.addr].elems[i], ms[i], path + [x.addr])
    case Lst(ms, end) =>
      FarBranch(h0, x, Nodes(path)) && IsPair(h0, x) && |ms| > 0 && Spine(h0, h, x, y, |ms|) &&
      (forall i :: 0 <= i < |ms| ==>
         Copy(h0, h, Car(h0, Nth(h0, x, i)), Car(h, Nth(h, y, i)), ms[i], path + [x.addr])) &&
      if IsPair(h0, Nth(h0, x, |ms|)) then end == Same && Nth(h, y, |ms|) == Nth(h0, x, |ms|)
      else Copy(h0, h, Nth(h0, x, |ms|), Nth(h, y, |ms|), end, path + [x.addr])
  }

  lemma {:induction false} CopyKept(h0: Heap, h: Heap, h': Heap, x: Obj, y: Obj, m: Made, path: seq<int>)
    requires Copy(h0, h, x, y, m, path) && Extends(h, h')
    ensures Copy(h0, h', x, y, m, path)
    decreases m
  {
    match m
    case Same =>
    case Symbol =>
    case Vec(ms) =>
      forall i | 0 <= i < |ms|
        ensures Copy(h0, h', h0[x.addr].elems[i], h'[y.addr].elems[i], ms[i], path + [x.addr])
      {
        CopyKept(h0, h, h', h0[x.addr].elems[i], h[y.addr].elems[i], ms[i], path + [x.addr]);
      }
    case Lst(ms, end) =>
      forall k | 0 <= k <= |ms| ensures Nth(h', y, k) == Nth(h, y, k) { NthKept(h, h', y, k); }
      forall k | 0 <= k < |ms| ensures IsPair(h', Nth(h', y, k)) && Car(h', Nth(h', y, k)) == Car(h, Nth(h, y, k)) {
        assert IsPair(h, Nth(h, y, k));
      }
      forall i | 0 <= i < |ms|
        ensures Copy(h0, h', Car(h0, Nth(h0, x, i)), Car(h', Nth(h', y, i)), ms[i], path + [x.addr])
      {
        CopyKept(h0, h, h', Car(h0, Nth(h0, x, i)), Car(h, Nth(h, y, i)), ms[i], path + [x.addr]);
      }
      if !IsPair(h0, Nth(h0, x, |ms|)) {
        CopyKept(h0, h, h', Nth(h0, x, |ms|), Nth(h, y, |ms|), end, path + [x.addr]);
      }
  }

  /* ---- What is shared ---- */

  /** On every graph the result is the object itself exactly if that has no far symbol. */
  lemma SharedExactly(h0: Heap, h: Heap, x: Obj, y: Obj, m: Made)
    requires Sound(h0) && In(h0, x) && Copy(h0, h, x, y, m, [])
    ensures y == x <==> !HasFar(h0, x, {})
  {
    assert Nodes([]) == {};
    FarBranchBetween(h0, x, {});
    SharedOffPath(h0, h, x, y, m, []);
  }

  /** Of a list that is copied, a tail is shared exactly if it is the cycle, or what
      follows the last pair and no far symbol is reached from that off the path. */
  lemma TailSharedExactly(h0: Heap, h: Heap, x: Obj, y: Obj, m: Made, path: seq<int>, k: nat)
    requires Sound(h0) && Extends(h0, h) && In(h0, x) && Copy(h0, h, x, y, m, path) && m.Lst? && k <= |m.cars|
    ensures Nth(h, y, k) == Nth(h0, x, k) <==>
      k == |m.cars| &&
      (IsPair(h0, Nth(h0, x, k)) || !FarBranch(h0, Nth(h0, x, k), Nodes(path + [x.addr])))
  {
    hide Nth, FarBranch, Closed, RootIs;
    NthIn(h0, x, k);
    var a, b := Nth(h0, x, k), Nth(h, y, k);
    if k == |m.cars| && !IsPair(h0, a) { SharedOffPath(h0, h, a, b, m.end, path + [x.addr]); }
  }

  lemma SharedOffPath(h0: Heap, h: Heap, x: Obj, y: Obj, m: Made, path: seq<int>)
    requires Sound(h0) && In(h0, x) && Copy(h0, h, x, y, m, path)
    ensures y == x <==> !FarBranch(h0, x, Nodes(path))
  {
    hide FarBranch;
    if m.Symbol? {
      FarIsFarBranch(h0, x, Nodes(path));
    } else if m.Lst? {
      assert Nth(h, y, 0) == y && y.addr !in h0;
    }
  }

  /** There is one way to copy an object. */
  lemma {:induction false} MadeOnce(h0: Heap, h: Heap, h': Heap, x: Obj, y: Obj, y': Obj, m: Made, m': Made,
      path: seq<int>)
    requires Copy(h0, h, x, y, m, path) && Copy(h0, h', x, y', m', path)
    ensures m == m'
    decreases m
  {
    hide FarBranch, RootIs, Nth;
    if IsFar(h0, x) { FarIsFarBranch(h0, x, Nodes(path)); }
    match m
    case Same =>
    case Symbol =>
    case Vec(ms) =>
      forall i | 0 <= i < |ms| ensures ms[i] == m'.items[i] {
        MadeOnce(h0, h, h', h0[x.addr].elems[i], h[y.addr].elems[i], h'[y'.addr].elems[i], ms[i], m'.items[i],
          path + [x.addr]);
      }
    case Lst(ms, end) =>
      SpineOnce(h0, h, h', x, y, y', |ms|, |m'.cars|);
      forall i | 0 <= i < |ms| ensures ms[i] == m'.cars[i] {
        MadeOnce(h0, h, h', Car(h0, Nth(h0, x, i)), Car(h, Nth(h, y, i)), Car(h', Nth(h', y', i)), ms[i], m'.cars[i],
          path + [x.addr]);
      }
      if !IsPair(h0, Nth(h0, x, |ms|)) {
        MadeOnce(h0, h, h', Nth(h0, x, |ms|), Nth(h, y, |ms|), Nth(h', y', |ms|), end, m'.end, path + [x.addr]);
      }
  }

  lemma SpineOnce(h0: Heap, h: Heap, h': Heap, x: Obj, y: Obj, y': Obj, m: nat, n: nat)
    requires Spine(h0, h, x, y, m) && Spine(h0, h', x, y', n) && m > 0 && n > 0
    ensures m == n
  {
    hide Nth;
  }

  /* ---- Far symbols that are left ---- */

  /** Each object is a part of the one before. */
  ghost predicate Leads(h: Heap, p: seq<Obj>) {
    |p| > 0 && forall i :: 0 <= i < |p| - 1 ==> p[i].Ref? && p[i].addr in h && p[i + 1] in Parts(h[p[i].addr])
  }

  ghost predicate Returns(p: seq<Obj>, i: nat, j: nat) { i < j < |p| && p[i] == p[j] }

  /** A far symbol is reached from the object on a walk through a cycle. */
  ghost predicate FarThroughCycle(h: Heap, o: Obj) {
    exists p: seq<Obj>, i: nat, j: nat :: FarWalk(h, p, {}) && p[0] == o && Returns(p, i, j)
  }

  lemma Glue(h: Heap, p: seq<Obj>, q: seq<Obj>)
    requires Leads(h, p) && FarWalk(h, q, {}) && q[0] == p[|p| - 1]
    ensures FarWalk(h, p[..|p| - 1] + q, {}) && (p[..|p| - 1] + q)[0] == p[0]
  {
    hide Parts;
    var n, r := |p| - 1, p[..|p| - 1] + q;
    forall i {:trigger h[r[i].addr]} | 0 <= i < |r| - 1 ensures r[i + 1] in Parts(h[r[i].addr]) {
      if i < n {
        assert r[i] == p[i] && r[i + 1] == p[i + 1];
      } else {
        assert r[i] == q[i - n] && r[i + 1] == q[i - n + 1] && q[i - n + 1] in Parts(h[q[i - n].addr]);
      }
    }
  }

  lemma WalkLeads(h: Heap, p: seq<Obj>, j: nat)
    requires FarWalk(h, p, {}) && j < |p|
    ensures Leads(h, p[..j + 1])
  {
    hide Parts;
    var q := p[..j + 1];
    forall i | 0 <= i < |q| - 1 ensures q[i].Ref? && q[i].addr in h && q[i + 1] in Parts(h[q[i].addr]) {
      assert q[i] == p[i] && q[i + 1] == p[i + 1] && h[p[i].addr] == h[p[i].addr];
    }
  }

  /** Through a cycle there are walks of any length. */
  lemma {:induction false} Pump(h: Heap, p: seq<Obj>, i: nat, j: nat, n: nat) returns (q: seq<Obj>)
    requires FarWalk(h, p, {}) && Returns(p, i, j)
    ensures FarWalk(h, q, {}) && q[0] == p[0] && |q| >= n
    decreases n - |p|
  {
    if |p| >= n {
      q := p;
    } else {
      WalkLeads(h, p, j);
      WalkFrom(h, p, {}, i);
      Glue(h, p[..j + 1], p[i..]);
      assert p[..j + 1][..j] == p[..j];
      q := Pump(h, p[..j] + p[i..], i, j, n);
    }
  }

  ghost function Size(m: Made): nat {
    match m
    case Vec(ms) => 1 + Sizes(ms)
    case Lst(ms, end) => Sizes(ms) + Size(end)
    case _ => 1
  }

  ghost function Sizes(ms: seq<Made>): nat {
    if ms == [] then 0 else 1 + Size(ms[0]) + Sizes(ms[1..])
  }

  lemma {:induction false} SizeItem(ms: seq<Made>, i: nat)
    requires i < |ms|
    ensures Size(ms[i]) < Sizes(ms)
  {
    if i > 0 { SizeItem(ms[1..], i - 1); }
  }

  lemma SizesNext(ms: seq<Made>, k: nat)
    requires k < |ms|
    ensures Sizes(ms[k..]) == 1 + Size(ms[k]) + Sizes(ms[k + 1..])
  {
    assert ms[k..][1..] == ms[k + 1..];
  }

  lemma SizePositive(m: Made)
    ensures Size(m) > 0
  {
  }

  lemma WalkInPair(h: Heap, p: seq<Obj>)
    requires FarWalk(h, p, {}) && IsPair(h, p[0])
    ensures |p| > 1 && FarWalk(h, p[1..], {}) && (p[1] == Car(h, p[0]) || p[1] == Cdr(h, p[0]))
  {
    WalkFrom(h, p, {}, 1);
  }

  lemma FarKept(h: Heap, h': Heap, p: seq<Obj>)
    requires FarWalk(h, p, {}) && Extends(h, h')
    ensures HasFar(h', p[0], {})
  {
    WalkKept(h, h', p, {});
  }

  lemma FarIsLast(h: Heap, p: seq<Obj>)
    requires FarWalk(h, p, {}) && IsFar(h, p[0])
    ensures |p| == 1
  {
    assert Parts(h[p[0].addr]) == [];
  }

  /** A walk longer than the copy leaves it, for an object that is shared. */
  lemma {:induction false} FarStays(h0: Heap, h: Heap, x: Obj, y: Obj, m: Made, path: seq<int>, p: seq<Obj>)
    requires Extends(h0, h) && Copy(h0, h, x, y, m, path) && FarWalk(h0, p, {}) && p[0] == x && |p| > Size(m)
    ensures HasFar(h, y, {})
    decreases |p|, m, 1
  {
    match m
    case Same => FarKept(h0, h, p);
    case Symbol => FarIsLast(h0, p);
    case Vec(ms) =>
      assert p[1] in Parts(h0[p[0].addr]);
      WalkFrom(h0, p, {}, 1);
      var i :| 0 <= i < |ms| && h0[x.addr].elems[i] == p[1];
      SizeItem(ms, i);
      FarStays(h0, h, p[1], h[y.addr].elems[i], ms[i], path + [x.addr], p[1..]);
      HasFarPart(h, y, h[y.addr].elems[i], {});
    case Lst(ms, _) =>
      assert ms[0..] == ms;
      FarStaysIn(h0, h, x, y, m, path, p, 0);
  }

  lemma {:induction false} FarStaysIn(h0: Heap, h: Heap, x: Obj, y: Obj, m: Made, path: seq<int>, p: seq<Obj>, k: nat)
    requires Extends(h0, h) && Copy(h0, h, x, y, m, path) && FarWalk(h0, p, {}) && m.Lst? && k <= |m.cars|
    requires |p| > Sizes(m.cars[k..]) + Size(m.end) && p[0] == Nth(h0, x, k)
    ensures HasFar(h, Nth(h, y, k), {})
    decreases |p|, m, 0
  {
    hide FarBranch, RootIs, Spine, HasFar, FarWalk, Extends, Nth, Size, Sizes;
    var n := |m.cars|;
    SpineIs(h0, h, x, y, n);
    if k < n {
      SizesNext(m.cars, k);
      SizePositive(m.end);
      var a, b := Nth(h0, x, k), Nth(h, y, k);
      WalkInPair(h0, p);
      NthNext(h0, x, k);
      NthNext(h, y, k);
      if p[1] == Car(h0, a) {
        FarStays(h0, h, p[1], Car(h, b), m.cars[k], path + [x.addr], p[1..]);
        HasFarPart(h, b, Car(h, b), {});
      } else {
        FarStaysIn(h0, h, x, y, m, path, p[1..], k + 1);
        HasFarPart(h, b, Cdr(h, b), {});
      }
    } else if IsPair(h0, Nth(h0, x, n)) {
      FarKept(h0, h, p);
    } else {
      FarStays(h0, h, Nth(h0, x, n), Nth(h, y, n), m.end, path + [x.addr], p);
    }
  }

  /** A list has far symbols in one of its first n cars or after them. */
  lemma {:induction false} FarInList(h: Heap, y: Obj, n: nat, k: nat) returns (i: nat)
    requires (forall j :: 0 <= j < n ==> IsPair(h, Nth(h, y, j))) && k <= n && HasFar(h, Nth(h, y, k), {})
    ensures i <= n
    ensures i < n ==> IsPair(h, Nth(h, y, i)) && HasFar(h, Car(h, Nth(h, y, i)), {})
    ensures i == n ==> HasFar(h, Nth(h, y, n), {})
    decreases n - k
  {
    i := k;
    if k < n {
      var p: seq<Obj> :| FarWalk(h, p, {}) && p[0] == Nth(h, y, k);
      assert IsPair(h, Nth(h, y, k)) && p[1] in Parts(h[p[0].addr]);
      WalkFrom(h, p, {}, 1);
      if p[1] != Car(h, Nth(h, y, k)) {
        assert p[1] == Nth(h, y, k + 1);
        i := FarInList(h, y, n, k + 1);
      }
    }
  }

  /** The walk along the first n pairs of x, after one that leads to x. */
  ghost function Along(h: Heap, x: Obj, trace: seq<Obj>, n: nat): seq<Obj> {
    trace + seq(n, k requires 0 <= k < n => Nth(h, x, k + 1))
  }

  lemma AlongLeads(h: Heap, x: Obj, trace: seq<Obj>, n: nat)
    requires Leads(h, trace) && trace[|trace| - 1] == x && forall k :: 0 <= k < n ==> IsPair(h, Nth(h, x, k))
    ensures Leads(h, Along(h, x, trace, n)) && |Along(h, x, trace, n)| == |trace| + n && trace <= Along(h, x, trace, n)
    ensures forall k :: 0 <= k <= n ==> Along(h, x, trace, n)[|trace| - 1 + k] == Nth(h, x, k)
  {
    var p, t := Along(h, x, trace, n), |trace| - 1;
    assert forall k :: 0 <= k <= n ==> p[t + k] == Nth(h, x, k);
    forall i | 0 <= i < |p| - 1 ensures p[i].Ref? && p[i].addr in h && p[i + 1] in Parts(h[p[i].addr]) {
      if i < t {
        assert p[i] == trace[i] && p[i + 1] == trace[i + 1];
      } else {
        assert IsPair(h, Nth(h, x, i - t)) && p[i] == p[t + (i - t)] && p[i + 1] == p[t + (i - t + 1)];
      }
    }
  }

  lemma LeadsOn(h: Heap, p: seq<Obj>, part: Obj)
    requires Leads(h, p) && p[|p| - 1].Ref? && p[|p| - 1].addr in h && part in Parts(h[p[|p| - 1].addr])
    ensures Leads(h, p + [part])
  {
  }

  /** The objects on the path were passed on the way. */
  ghost predicate Passed(path: seq<int>, trace: seq<Obj>) {
    forall a :: a in Nodes(path) ==> exists i :: 0 <= i < |trace| - 1 && trace[i] == Ref(a)
  }

  lemma PassedOn(path: seq<int>, trace: seq<Obj>, a: int, longer: seq<Obj>)
    requires Passed(path, trace) && trace < longer && trace != [] && trace[|trace| - 1] == Ref(a)
    ensures Passed(path + [a], longer)
  {
    NodesPush(path, a);
    forall b | b in Nodes(path + [a]) ensures exists i :: 0 <= i < |longer| - 1 && longer[i] == Ref(b) {
      if b == a {
        assert longer[|trace| - 1] == Ref(b);
      } else {
        var i :| 0 <= i < |trace| - 1 && trace[i] == Ref(b);
        assert longer[i] == Ref(b);
      }
    }
  }

  /** A far symbol that is left in the copy is reached through a cycle. */
  lemma {:induction false} FarLeft(h0: Heap, h: Heap, x: Obj, y: Obj, m: Made, path: seq<int>, trace: seq<Obj>)
    requires Sound(h0) && Extends(h0, h) && In(h0, x) && Copy(h0, h, x, y, m, path) && HasFar(h, y, {})
    requires |trace| > 0 && Leads(h0, trace) && trace[|trace| - 1] == x && Passed(path, trace)
    ensures FarThroughCycle(h0, trace[0])
    decreases m
  {
    hide HasFar, FarBranch, FarThroughCycle, Leads, Passed, Along, Closed, Extends, RootIs, Nth, Spine;
    match m
    case Same =>
      SameFar(h0, h, x);
      FarBranchBetween(h0, x, Nodes(path));
      FarShared(h0, x, path, trace);
    case Symbol =>
      RootIsSymbol(h0, x, y);
      SameFar(h0, h, y);
      NoneInAtom(h0, y, {});
    case Vec(ms) =>
      var i := FarInVector(h, y);
      var part := h0[x.addr].elems[i];
      LeadsOn(h0, trace, part);
      PassedOn(path, trace, x.addr, trace + [part]);
      PartIn(h0, x, part);
      FarLeft(h0, h, part, h[y.addr].elems[i], ms[i], path + [x.addr], trace + [part]);
    case Lst(ms, end) =>
      SpineIs(h0, h, x, y, |ms|);
      var k := FarInList(h, y, |ms|, 0);
      var a, t := Nth(h0, x, k), Along(h0, x, trace, k);
      AlongLeads(h0, x, trace, k);
      NthIn(h0, x, k);
      assert t[|trace| - 1 + k] == a;
      if k < |ms| {
        var part := Car(h0, a);
        LeadsOn(h0, t, part);
        PassedOn(path, trace, x.addr, t + [part]);
        PartIn(h0, a, part);
        FarLeft(h0, h, part, Car(h, Nth(h, y, k)), ms[k], path + [x.addr], t + [part]);
      } else if IsPair(h0, a) {
        SameFar(h0, h, a);
        FarOnCircle(h0, t, |trace| - 1 + k / 2);
      } else {
        PassedOn(path, trace, x.addr, t);
        FarLeft(h0, h, a, Nth(h, y, k), end, path + [x.addr], t);
      }
  }

  lemma FarInVector(h: Heap, y: Obj) returns (i: nat)
    requires IsVector(h, y) && HasFar(h, y, {})
    ensures i < |h[y.addr].elems| && HasFar(h, h[y.addr].elems[i], {})
  {
    var p: seq<Obj> :| FarWalk(h, p, {}) && p[0] == y;
    assert p[1] in Parts(h[p[0].addr]);
    WalkFrom(h, p, {}, 1);
    i :| 0 <= i < |h[y.addr].elems| && h[y.addr].elems[i] == p[1];
  }

  lemma SpineIs(h0: Heap, h: Heap, x: Obj, y: Obj, n: nat)
    requires Spine(h0, h, x, y, n)
    ensures forall k :: 0 <= k < n ==> IsPair(h0, Nth(h0, x, k)) && IsPair(h, Nth(h, y, k))
    ensures IsPair(h0, Nth(h0, x, n)) ==> Nth(h0, x, n) == Nth(h0, x, n / 2)
    ensures Nth(h, y, 0) == y
  {
  }

  /** A walk that came back to where it is, before it goes to a far symbol. */
  lemma FarOnCircle(h: Heap, trace: seq<Obj>, i: nat)
    requires Leads(h, trace) && Returns(trace, i, |trace| - 1) && HasFar(h, trace[|trace| - 1], {})
    ensures FarThroughCycle(h, trace[0])
  {
    var p: seq<Obj> :| FarWalk(h, p, {}) && p[0] == trace[|trace| - 1];
    Glue(h, trace, p);
    assert Returns(trace[..|trace| - 1] + p, i, |trace| - 1);
  }

  lemma FarPastPath(h: Heap, x: Obj, avoid: set<int>) returns (p: seq<Obj>, j: nat)
    requires HasFar(h, x, {}) && !HasFar(h, x, avoid)
    ensures FarWalk(h, p, {}) && p[0] == x && j < |p| && p[j].Ref? && p[j].addr in avoid
  {
    p :| FarWalk(h, p, {}) && p[0] == x;
    if forall i :: 0 <= i < |p| ==> p[i].addr !in avoid {
      assert FarWalk(h, p, avoid);
    }
    j :| 0 <= j < |p| && p[j].addr in avoid;
  }

  /** Of what is shared, each walk to a far symbol passes an object on the path. */
  lemma FarShared(h: Heap, x: Obj, path: seq<int>, trace: seq<Obj>)
    requires HasFar(h, x, {}) && !HasFar(h, x, Nodes(path))
    requires Leads(h, trace) && |trace| > 0 && trace[|trace| - 1] == x && Passed(path, trace)
    ensures FarThroughCycle(h, trace[0])
  {
    hide HasFar, FarWalk, Leads;
    var p, j := FarPastPath(h, x, Nodes(path));
    var i :| 0 <= i < |trace| - 1 && trace[i] == Ref(p[j].addr);
    Glue(h, trace, p);
    assert Returns(trace[..|trace| - 1] + p, i, |trace| - 1 + j);
  }

  /** On every graph the copy has a far symbol left exactly if one is reached from
      the object through a cycle. */
  lemma UnwrappedExactly(h0: Heap, h: Heap, x: Obj, y: Obj, m: Made)
    requires Sound(h0) && Extends(h0, h) && In(h0, x) && Copy(h0, h, x, y, m, [])
    ensures HasFar(h, y, {}) <==> FarThroughCycle(h0, x)
  {
    if HasFar(h, y, {}) {
      assert Leads(h0, [x]) && Passed([], [x]) by { assert Nodes([]) == {}; }
      FarLeft(h0, h, x, y, m, [], [x]);
    }
    if FarThroughCycle(h0, x) {
      var p: seq<Obj>, i: nat, j: nat :| FarWalk(h0, p, {}) && p[0] == x && Returns(p, i, j);
      var q := Pump(h0, p, i, j, Size(m) + 1);
      FarStays(h0, h, x, y, m, [], q);
    }
  }

  /** A circular list of one far symbol, ... */
  function Circle(): Heap { map[0 := Cons(Ref(1), Ref(0)), 1 := Farsymbol(Const(5))] }

  lemma CircleSound()
    ensures Sound(Circle())
  {
    var h := Circle();
    assert Inner(h, Ref(1), 0) == Ref(1) && Inner(h, Ref(1), 1) == Const(5);
    assert RootIs(h, Ref(1), Const(5));
  }

  /** ... which keeps it. */
  lemma CircleKeepsFar(h: Heap, y: Obj, m: Made)
    requires Extends(Circle(), h) && Copy(Circle(), h, Ref(0), y, m, [])
    ensures HasFar(h, y, {})
  {
    hide Sound, Copy, Extends;
    CircleSound();
    var p := [Ref(0), Ref(0), Ref(1)];
    assert FarWalk(Circle(), p, {}) && Returns(p, 0, 1);
    UnwrappedExactly(Circle(), h, Ref(0), y, m);
  }

  /* ---- What the copy holds ---- */

  /** The object at a place, given by the index of a part at each level. */
  function Follow(h: Heap, o: Obj, place: seq<nat>): Option<Obj>
    decreases |place|
  {
    if place == [] then Some(o)
    else if o.Ref? && o.addr in h && place[0] < |Parts(h[o.addr])| then
      Follow(h, Parts(h[o.addr])[place[0]], place[1..])
    else None
  }

  /** Pairs are pairs, vectors are vectors of the same length, a far symbol is
      itself or its root, and any other object is itself. */
  ghost predicate Unwraps(h0: Heap, h: Heap, a: Obj, b: Obj) {
    In(h, b) &&
    if IsPair(h0, a) then IsPair(h, b)
    else if IsVector(h0, a) then IsVector(h, b) && |h[b.addr].elems| == |h0[a.addr].elems|
    else b == a || (IsFar(h0, a) && RootIs(h0, a, b))
  }

  ghost predicate SamePlace(h0: Heap, h: Heap, x: Obj, y: Obj, place: seq<nat>) {
    var a, b := Follow(h0, x, place), Follow(h, y, place);
    a.Some? == b.Some? && (a.Some? ==> Unwraps(h0, h, a.value, b.value))
  }

  lemma {:induction false} OldPlace(h0: Heap, h: Heap, x: Obj, place: seq<nat>)
    requires Closed(h0) && Extends(h0, h) && In(h0, x)
    ensures SamePlace(h0, h, x, x, place)
    decreases |place|
  {
    if place != [] && x.Ref? && place[0] < |Parts(h0[x.addr])| {
      var part := Parts(h0[x.addr])[place[0]];
      PartIn(h0, x, part);
      OldPlace(h0, h, part, place[1..]);
    }
  }

  /** On every graph, object and copy hold the same at every place, but for the far
      symbols. */
  lemma {:induction false} SamePlaces(h0: Heap, h: Heap, x: Obj, y: Obj, m: Made, path: seq<int>, place: seq<nat>)
    requires Sound(h0) && Extends(h0, h) && In(h0, x) && Copy(h0, h, x, y, m, path)
    ensures SamePlace(h0, h, x, y, place)
    decreases |place|, m, 1
  {
    match m
    case Same => OldPlace(h0, h, x, place);
    case Symbol => RootIsSymbol(h0, x, y);
    case Vec(ms) =>
      if place != [] && place[0] < |ms| {
        var part := h0[x.addr].elems[place[0]];
        PartIn(h0, x, part);
        SamePlaces(h0, h, part, h[y.addr].elems[place[0]], ms[place[0]], path + [x.addr], place[1..]);
      }
    case Lst(_, _) => SamePlacesIn(h0, h, x, y, m, path, place, 0);
  }

  lemma SamePair(h0: Heap, h: Heap, a: Obj, b: Obj, place: seq<nat>)
    requires IsPair(h0, a) && IsPair(h, b)
    requires place != [] ==>
      SamePlace(h0, h, Car(h0, a), Car(h, b), place[1..]) && SamePlace(h0, h, Cdr(h0, a), Cdr(h, b), place[1..])
    ensures SamePlace(h0, h, a, b, place)
  {
  }

  lemma {:induction false} SamePlacesIn(h0: Heap, h: Heap, x: Obj, y: Obj, m: Made, path: seq<int>,
      place: seq<nat>, k: nat)
    requires Sound(h0) && Extends(h0, h) && In(h0, x) && Copy(h0, h, x, y, m, path) && m.Lst? && k <= |m.cars|
    ensures SamePlace(h0, h, Nth(h0, x, k), Nth(h, y, k), place)
    decreases |place|, m, 0
  {
    hide Nth, Spine, SamePlace, Closed, RootIs, Extends, In;
    var a, b := Nth(h0, x, k), Nth(h, y, k);
    NthIn(h0, x, k);
    SpineIs(h0, h, x, y, |m.cars|);
    if k < |m.cars| {
      PartIn(h0, a, Car(h0, a));
      NthNext(h0, x, k);
      NthNext(h, y, k);
      if place != [] {
        SamePlaces(h0, h, Car(h0, a), Car(h, b), m.cars[k], path + [x.addr], place[1..]);
        SamePlacesIn(h0, h, x, y, m, path, place[1..], k + 1);
      }
      SamePair(h0, h, a, b, place);
    } else if IsPair(h0, a) {
      OldPlace(h0, h, a, place);
    } else {
      SamePlaces(h0, h, a, b, m.end, path + [x.addr], place);
    }
  }

  lemma {:induction false} FarAtPlace(h: Heap, o: Obj, place: seq<nat>)
    requires Follow(h, o, place).Some? && HasFar(h, Follow(h, o, place).value, {})
    ensures HasFar(h, o, {})
    decreases |place|
  {
    if place != [] {
      var part := Parts(h[o.addr])[place[0]];
      FarAtPlace(h, part, place[1..]);
      HasFarPart(h, o, part, {});
    }
  }

  /** So unless a far symbol is reached through a cycle, the copy holds the symbol
      at the root of every far symbol, and otherwise what the object holds. */
  lemma UnwrappedEverywhere(h0: Heap, h: Heap, x: Obj, y: Obj, m: Made, place: seq<nat>)
    requires Sound(h0) && Extends(h0, h) && In(h0, x) && Copy(h0, h, x, y, m, [])
    requires !FarThroughCycle(h0, x) && Follow(h0, x, place).Some?
    ensures
      var a, b := Follow(h0, x, place).value, Follow(h, y, place);
      b.Some? && !IsFar(h, b.value) && IsPair(h, b.value) == IsPair(h0, a) && IsVector(h, b.value) == IsVector(h0, a) &&
      (IsFar(h0, a) ==> RootIs(h0, a, b.value)) &&
      (!IsFar(h0, a) && !IsPair(h0, a) && !IsVector(h0, a) ==> b.value == a)
  {
    hide Copy, Closed, HasFar, FarThroughCycle, RootIs;
    SamePlaces(h0, h, x, y, m, [], place);
    UnwrappedExactly(h0, h, x, y, m);
    PlaceIn(h0, x, place);
    var a, b := Follow(h0, x, place).value, Follow(h, y, place).value;
    SameCell(h0, h, a);
    if IsFar(h, b) { FarIs(h, b); FarAtPlace(h, y, place); }
    if IsFar(h0, a) && b != a {
      RootIsSymbol(h0, a, b);
      SameCell(h0, h, b);
    }
  }

  lemma FarIs(h: Heap, o: Obj)
    requires IsFar(h, o)
    ensures HasFar(h, o, {})
  {
    assert FarWalk(h, [o], {}) && [o][0] == o;
  }

  lemma {:induction false} PlaceIn(h: Heap, o: Obj, place: seq<nat>)
    requires Closed(h) && In(h, o) && Follow(h, o, place).Some?
    ensures In(h, Follow(h, o, place).value)
    decreases |place|
  {
    if place != [] {
      var part := Parts(h[o.addr])[place[0]];
      PartIn(h, o, part);
      PlaceIn(h, part, place[1..]);
    }
  }
}
