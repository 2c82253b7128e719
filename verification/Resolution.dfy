/** resolve_labels (src/read.c): a worklist over the graph that it is making
    cyclic, and what a datum with labels reads as. */
module Resolution {
  import opened Forms
  import opened Collector
  import opened Cycles
  import opened Labels

  /** The label, among the first k made, whose placeholder this is. */
  function Owner(labels: seq<Label>, k: nat, o: Obj): (r: Option<nat>)
    requires k <= |labels|
    ensures r.Some? ==> r.value < k && labels[r.value].ph == o
    ensures r.None? ==> forall i :: 0 <= i < k ==> labels[i].ph != o
  {
    if k == 0 then None else if labels[k - 1].ph == o then Some(k - 1) else Owner(labels, k - 1, o)
  }

  predicate Finished(labels: seq<Label>) {
    forall i :: 0 <= i < |labels| ==> labels[i].datum.Some?
  }

  /** What an object stands for. */
  function Final(labels: seq<Label>, o: Obj): Obj
    requires Finished(labels)
  {
    var j := Owner(labels, |labels|, o);
    if j.Some? then labels[j.value].datum.value else o
  }

  /** The placeholder of a label that stands for itself. */
  predicate Endless(labels: seq<Label>, o: Obj)
    requires Finished(labels)
  {
    Owner(labels, |labels|, o).Some? && Final(labels, o) == o
  }

  function FinalAll(labels: seq<Label>, os: seq<Obj>): (r: seq<Obj>)
    requires Finished(labels)
    ensures |r| == |os| && forall i :: 0 <= i < |os| ==> r[i] == Final(labels, os[i])
  {
    seq(|os|, i requires 0 <= i < |os| => Final(labels, os[i]))
  }

  function FinalCell(labels: seq<Label>, c: Cell): (r: Cell)
    requires Finished(labels)
    ensures |Parts(r)| == |Parts(c)| && forall i :: 0 <= i < |Parts(c)| ==> Parts(r)[i] == Final(labels, Parts(c)[i])
    ensures r.Cons? == c.Cons? && r.Vector? == c.Vector?
  {
    match c
    case Cons(a, d) => Cons(Final(labels, a), Final(labels, d))
    case Vector(elems) => Vector(FinalAll(labels, elems))
    case _ => c
  }

  /** The heap with every placeholder replaced. */
  function FinalHeap(labels: seq<Label>, h: Heap): Heap
    requires Finished(labels)
  {
    map a | a in h :: FinalCell(labels, h[a])
  }

  /* ---- Reachability ---- */

  ghost predicate Walk(h: Heap, p: seq<int>) {
    |p| > 0 && (forall i :: 0 <= i < |p| ==> p[i] in h) &&
    forall i {:trigger h[p[i]]} :: 0 <= i < |p| - 1 ==> Ref(p[i + 1]) in Parts(h[p[i]])
  }

  ghost predicate Reached(h: Heap, root: Obj, a: int) {
    exists p: seq<int> :: Walk(h, p) && root == Ref(p[0]) && p[|p| - 1] == a
  }

  lemma ReachedRoot(h: Heap, a: int)
    requires a in h
    ensures Reached(h, Ref(a), a)
  {
    assert Walk(h, [a]) && Ref(a) == Ref([a][0]) && [a][|[a]| - 1] == a;
  }

  lemma ReachedPart(h: Heap, root: Obj, a: int, i: nat)
    requires Reached(h, root, a) && a in h && i < |Parts(h[a])| && Parts(h[a])[i].Ref? && Parts(h[a])[i].addr in h
    ensures Reached(h, root, Parts(h[a])[i].addr)
  {
    var p: seq<int> :| Walk(h, p) && root == Ref(p[0]) && p[|p| - 1] == a;
    WalkOneMore(h, p, Parts(h[a])[i].addr);
    var q := p + [Parts(h[a])[i].addr];
    assert root == Ref(q[0]) && q[|q| - 1] == Parts(h[a])[i].addr;
  }

  lemma WalkOneMore(h: Heap, p: seq<int>, b: int)
    requires Walk(h, p) && b in h && Ref(b) in Parts(h[p[|p| - 1]])
    ensures Walk(h, p + [b])
  {
    hide Parts;
    var q := p + [b];
    forall i {:trigger h[q[i]]} | 0 <= i < |q| - 1 ensures Ref(q[i + 1]) in Parts(h[q[i]]) {
      if i < |p| - 1 { assert Ref(p[i + 1]) in Parts(h[p[i]]); }
    }
  }

  /** A set that holds the root and the parts of its members holds all. */
  lemma {:induction false} ClosedHoldsAll(h: Heap, root: Obj, seen: set<int>, p: seq<int>)
    requires Walk(h, p) && root == Ref(p[0]) && p[0] in seen
    requires forall a, i ::
      a in seen && a in h && 0 <= i < |Parts(h[a])| && Parts(h[a])[i].Ref? && Parts(h[a])[i].addr in h ==>
        Parts(h[a])[i].addr in seen
    ensures p[|p| - 1] in seen
    decreases |p|
  {
    if |p| > 1 {
      var q := p[..|p| - 1];
      WalkPrefix(h, p);
      ClosedHoldsAll(h, root, seen, q);
      var a, b := p[|p| - 2], p[|p| - 1];
      assert a == q[|q| - 1] && Ref(b) in Parts(h[p[|p| - 2]]);
      var i :| 0 <= i < |Parts(h[a])| && Parts(h[a])[i] == Ref(b);
    }
  }

  lemma WalkPrefix(h: Heap, p: seq<int>)
    requires Walk(h, p) && |p| > 1
    ensures Walk(h, p[..|p| - 1]) && Ref(p[|p| - 1]) in Parts(h[p[|p| - 2]])
  {
    var q := p[..|p| - 1];
    assert Ref(p[|p| - 2 + 1]) in Parts(h[p[|p| - 2]]);
    forall i {:trigger h[q[i]]} | 0 <= i < |q| - 1 ensures Ref(q[i + 1]) in Parts(h[q[i]]) {
      assert Ref(p[i + 1]) in Parts(h[p[i]]);
    }
  }

  /** The object occurs: it is the datum itself, or a part of a cell that the
      resolved datum reaches. */
  ghost predicate Occurs(h: Heap, labels: seq<Label>, root: Obj, o: Obj)
    requires Finished(labels)
  {
    o == root || exists a, i ::
      a in h && Reached(FinalHeap(labels, h), Final(labels, root), a) && 0 <= i < |Parts(h[a])| && Parts(h[a])[i] == o
  }

  ghost predicate Trouble(h: Heap, labels: seq<Label>, root: Obj)
    requires Finished(labels)
  {
    exists o :: Occurs(h, labels, root, o) && Endless(labels, o)
  }

  /* ---- The worklist ---- */

  predicate Compound(h: Heap, o: Obj) { IsPair(h, o) || IsVector(h, o) }

  class Resolver {
    var heap: Heap
    var labels: seq<Label>

    constructor (heap: Heap, labels: seq<Label>)
      ensures this.heap == heap && this.labels == labels
    {
      this.heap, this.labels := heap, labels;
    }

    /** resolve_label: None is "invalid datum label". */
    method ResolveLabel(obj: Obj) returns (r: Option<Obj>)
      requires Finished(labels) && PlaceholderPairs(heap, labels)
      ensures r == if Endless(labels, obj) then None else Some(Final(labels, obj))
    {
      if !IsPair(heap, obj) { return Some(obj); }
      var i: nat := |labels|;
      while i > 0
        invariant 0 <= i <= |labels| && Owner(labels, i, obj) == Owner(labels, |labels|, obj)
      {
        if labels[i - 1].ph == obj {
          return if labels[i - 1].datum.value == obj then None else labels[i - 1].datum;
        }
        i := i - 1;
      }
      return Some(obj);
    }

    /** The loop over the slots of a vector. */
    method ResolveElements(elems: seq<Obj>, pending: seq<Obj>) returns (r: Option<seq<Obj>>, more: seq<Obj>)
      requires Finished(labels) && PlaceholderPairs(heap, labels)
      ensures r.None? <==> exists i :: 0 <= i < |elems| && Endless(labels, elems[i])
      ensures r.Some? ==> r.value == FinalAll(labels, elems)
      ensures r.Some? ==> |more| == |elems| + |pending| && more[|elems|..] == pending
      ensures r.Some? ==> forall i :: 0 <= i < |elems| ==> more[|elems| - 1 - i] == Final(labels, elems[i])
    {
      var vec: seq<Obj>, i := [], 0;
      more := pending;
      while i < |elems|
        invariant i <= |elems| && |vec| == i && |more| == i + |pending| && more[i..] == pending
        invariant forall k :: 0 <= k < i ==> vec[k] == Final(labels, elems[k]) && !Endless(labels, elems[k])
        invariant forall k :: 0 <= k < i ==> more[i - 1 - k] == Final(labels, elems[k])
      {
        var e := ResolveLabel(elems[i]);
        if e.None? { return None, more; }
        vec := vec + [e.value];
        more := [e.value] + more;
        i := i + 1;
      }
      assert vec == FinalAll(labels, elems);
      return Some(vec), more;
    }

    /** Resolves the car and the cdr of the pair that was pending first. */
    method VisitPair(a: int, pending: seq<Obj>, ghost h: Heap, ghost obj: Obj, ghost seen: set<int>)
      returns (more: Option<seq<Obj>>)
      requires Finished(labels) && PlaceholderPairs(h, labels) &&
        Progress(h, heap, labels, Final(labels, obj), seen, pending)
      requires pending != [] && pending[0] == Ref(a) && a !in seen && IsPair(h, Ref(a))
      modifies this`heap
      ensures more.None? ==> Trouble(h, labels, obj)
      ensures more.Some? ==> Progress(h, heap, labels, Final(labels, obj), seen + {a}, more.value)
    {
      hide Progress, Trouble, Endless, Final;
      ghost var root, was := Final(labels, obj), heap;
      SameKinds(h, heap, labels, root, seen, pending, Ref(a));
      PairsStay(h, heap, labels, root, seen, pending);
      var car := ResolveLabel(heap[a].car);
      if car.None? {
        TroublePart(h, heap, labels, obj, root, seen, pending, a, 0);
        return None;
      }
      var cdr := ResolveLabel(heap[a].cdr);
      if cdr.None? {
        TroublePart(h, heap, labels, obj, root, seen, pending, a, 1);
        return None;
      }
      heap := heap[a := Cons(car.value, cdr.value)];
      PairVisited(h, was, labels, root, seen, pending, a);
      more := Some([car.value, cdr.value] + pending[1..]);
    }

    /** Resolves the slots of the vector that was pending first. */
    method VisitVector(a: int, pending: seq<Obj>, ghost h: Heap, ghost obj: Obj, ghost seen: set<int>)
      returns (more: Option<seq<Obj>>)
      requires Finished(labels) && PlaceholderPairs(h, labels) &&
        Progress(h, heap, labels, Final(labels, obj), seen, pending)
      requires pending != [] && pending[0] == Ref(a) && a !in seen && IsVector(h, Ref(a))
      modifies this`heap
      ensures more.None? ==> Trouble(h, labels, obj)
      ensures more.Some? ==> Progress(h, heap, labels, Final(labels, obj), seen + {a}, more.value)
    {
      hide Progress, Trouble, Endless, Final;
      ghost var root, was := Final(labels, obj), heap;
      SameKinds(h, heap, labels, root, seen, pending, Ref(a));
      PairsStay(h, heap, labels, root, seen, pending);
      var vec, rest := ResolveElements(heap[a].elems, pending[1..]);
      if vec.None? {
        ghost var i :| 0 <= i < |heap[a].elems| && Endless(labels, heap[a].elems[i]);
        TroublePart(h, heap, labels, obj, root, seen, pending, a, i);
        return None;
      }
      heap := heap[a := Vector(vec.value)];
      VectorVisited(h, was, labels, root, seen, pending, a, rest);
      more := Some(rest);
    }

    /** resolve_labels: it fails exactly when a label that stands for itself occurs;
        otherwise the slots of every cell that the datum reaches are resolved, and
        all other cells are as they were. */
    method ResolveLabels(obj: Obj) returns (r: Option<Obj>)
      requires Finished(labels) && PlaceholderPairs(heap, labels)
      modifies this`heap
      ensures r.None? <==> Trouble(old(heap), labels, obj)
      ensures r.Some? ==> r.value == Final(labels, obj) && Resolved(old(heap), heap, labels, r.value)
    {
      hide Progress, Trouble, Endless, Resolved, Final, PlaceholderPairs;
      ghost var h := heap;
      var root := ResolveLabel(obj);
      if root.None? {
        TroubleRoot(h, labels, obj);
        return None;
      }
      var visited: seq<int>, pending := [], [root.value];
      assert Nodes(visited) == {};
      StartProgress(h, labels, root.value);
      while pending != []
        invariant Progress(h, heap, labels, root.value, Nodes(visited), pending)
        decreases |h.Keys - Nodes(visited)|, |pending|
      {
        var elm := pending[0];
        SameKinds(h, heap, labels, root.value, Nodes(visited), pending, elm);
        var skip := !Compound(heap, elm);
        if !skip { skip := OnPathp(elm.addr, visited); }
        if skip {
          SkipKeeps(h, heap, labels, root.value, Nodes(visited), pending);
          pending := pending[1..];
          continue;
        }
        SeenPush(h, visited, elm.addr);
        var more;
        if IsPair(heap, elm) {
          more := VisitPair(elm.addr, pending, h, obj, Nodes(visited));
        } else {
          more := VisitVector(elm.addr, pending, h, obj, Nodes(visited));
        }
        if more.None? { return None; }
        visited := [elm.addr] + visited;
        pending := more.value;
      }
      EndProgress(h, heap, labels, obj, Nodes(visited));
      return root;
    }
  }

  /** Placeholders are pairs. */
  ghost predicate PlaceholderPairs(h: Heap, labels: seq<Label>) {
    forall i :: 0 <= i < |labels| ==> IsPair(h, labels[i].ph)
  }

  ghost predicate Resolved(h: Heap, h': Heap, labels: seq<Label>, root: Obj)
    requires Finished(labels)
  {
    h'.Keys == h.Keys &&
      forall a :: a in h ==> h'[a] == if Reached(FinalHeap(labels, h), root, a) then FinalCell(labels, h[a]) else h[a]
  }

  /** What the loop keeps: visited cells are resolved, the others as they were;
      what visited cells refer to is visited or pending, and everything visited
      or pending is reached. */
  ghost predicate Progress(h: Heap, heap: Heap, labels: seq<Label>, root: Obj, seen: set<int>, pending: seq<Obj>)
    requires Finished(labels)
  {
    var final := FinalHeap(labels, h);
    heap.Keys == h.Keys && seen <= h.Keys &&
    (forall a :: a in h ==> heap[a] == if a in seen then FinalCell(labels, h[a]) else h[a]) &&
    (forall a :: a in seen ==> Reached(final, root, a) && Done(h, labels, seen, pending, a)) &&
    (forall i ::
      0 <= i < |pending| && pending[i].Ref? && pending[i].addr in h ==> Reached(final, root, pending[i].addr)) &&
    (Compound(h, root) ==> root.addr in seen || root in pending)
  }

  /** The cell has no endless slot and its parts are visited or pending. */
  ghost predicate Done(h: Heap, labels: seq<Label>, seen: set<int>, pending: seq<Obj>, a: int)
    requires Finished(labels)
  {
    a in h && forall i :: 0 <= i < |Parts(h[a])| ==>
      !Endless(labels, Parts(h[a])[i]) && Settled(h, seen, pending, Final(labels, Parts(h[a])[i]))
  }

  ghost predicate Settled(h: Heap, seen: set<int>, pending: seq<Obj>, o: Obj) {
    Compound(h, o) ==> o.addr in seen || o in pending
  }

  lemma StartProgress(h: Heap, labels: seq<Label>, root: Obj)
    requires Finished(labels)
    ensures Progress(h, h, labels, root, {}, [root])
  {
    if root.Ref? && root.addr in h { ReachedRoot(FinalHeap(labels, h), root.addr); }
  }

  lemma SameKinds(h: Heap, heap: Heap, labels: seq<Label>, root: Obj, seen: set<int>, pending: seq<Obj>, o: Obj)
    requires Finished(labels) && Progress(h, heap, labels, root, seen, pending)
    ensures IsPair(heap, o) == IsPair(h, o) && IsVector(heap, o) == IsVector(h, o)
    ensures o.Ref? && o.addr in h && o.addr !in seen ==> o.addr in heap && heap[o.addr] == h[o.addr]
  {
  }

  lemma PairsStay(h: Heap, heap: Heap, labels: seq<Label>, root: Obj, seen: set<int>, pending: seq<Obj>)
    requires Finished(labels) && Progress(h, heap, labels, root, seen, pending) && PlaceholderPairs(h, labels)
    ensures PlaceholderPairs(heap, labels)
  {
    forall i | 0 <= i < |labels| ensures IsPair(heap, labels[i].ph) {
      SameKinds(h, heap, labels, root, seen, pending, labels[i].ph);
    }
  }

  lemma SkipKeeps(h: Heap, heap: Heap, labels: seq<Label>, root: Obj, seen: set<int>, pending: seq<Obj>)
    requires Finished(labels) && Progress(h, heap, labels, root, seen, pending) && pending != []
    requires !Compound(heap, pending[0]) || pending[0].addr in seen
    ensures Progress(h, heap, labels, root, seen, pending[1..])
  {
    hide Endless, Final, FinalCell, FinalHeap;
    SameKinds(h, heap, labels, root, seen, pending, pending[0]);
    forall o | Settled(h, seen, pending, o) ensures Settled(h, seen, pending[1..], o) {
      if Compound(h, o) && o in pending && o != pending[0] { assert o in pending[1..]; }
    }
    forall a | a in seen ensures Done(h, labels, seen, pending[1..], a) { assert Done(h, labels, seen, pending, a); }
    assert Settled(h, seen, pending, root);
  }

  lemma SeenPush(h: Heap, visited: seq<int>, a: int)
    requires a in h && a !in Nodes(visited)
    ensures Nodes([a] + visited) == Nodes(visited) + {a}
    ensures |h.Keys - Nodes([a] + visited)| < |h.Keys - Nodes(visited)|
  {
    var v := [a] + visited;
    forall x | x in Nodes(visited) + {a} ensures x in Nodes(v) {
      if x == a { assert v[0] == a; } else {
        var i :| 0 <= i < |visited| && visited[i] == x;
        assert v[i + 1] == x;
      }
    }
    SubsetSize(h.Keys - Nodes(v), h.Keys - Nodes(visited));
  }

  /** A cell is visited: its resolved parts become pending. */
  lemma VisitKeeps(h: Heap, heap: Heap, labels: seq<Label>, root: Obj, seen: set<int>, pending: seq<Obj>, a: int,
                   more: seq<Obj>)
    requires Finished(labels) && Progress(h, heap, labels, root, seen, pending) && pending != [] && pending[0] == Ref(a)
    requires a in h && a !in seen && forall i :: 0 <= i < |Parts(h[a])| ==> !Endless(labels, Parts(h[a])[i])
    requires forall i :: 0 <= i < |Parts(h[a])| ==> Final(labels, Parts(h[a])[i]) in more
    requires forall i :: 1 <= i < |pending| ==> pending[i] in more
    requires forall k ::
      0 <= k < |more| ==>
        more[k] in pending[1..] || exists i :: 0 <= i < |Parts(h[a])| && more[k] == Final(labels, Parts(h[a])[i])
    ensures Progress(h, heap[a := FinalCell(labels, h[a])], labels, root, seen + {a}, more)
  {
    hide Endless, Final, Done, FinalCell, Reached;
    assert Reached(FinalHeap(labels, h), root, a);
    forall o | Settled(h, seen, pending, o) ensures Settled(h, seen + {a}, more, o) {
      SettledOn(h, seen, pending, a, more, o);
    }
    forall b | b in seen + {a} ensures Reached(FinalHeap(labels, h), root, b) && Done(h, labels, seen + {a}, more, b) {
      if b in seen {
        DoneOn(h, labels, seen, pending, seen + {a}, more, b);
      } else {
        DoneNow(h, labels, seen + {a}, more, a);
      }
    }
    forall k | 0 <= k < |more| && more[k].Ref? && more[k].addr in h
      ensures Reached(FinalHeap(labels, h), root, more[k].addr)
    {
      if more[k] in pending[1..] {
        var i :| 0 <= i < |pending[1..]| && pending[1..][i] == more[k];
        assert pending[i + 1] == more[k];
      } else {
        PartReached(h, labels, root, a, more[k]);
      }
    }
    assert Settled(h, seen, pending, root);
  }

  lemma SettledOn(h: Heap, seen: set<int>, pending: seq<Obj>, a: int, more: seq<Obj>, o: Obj)
    requires Settled(h, seen, pending, o) && pending != [] && pending[0] == Ref(a)
    requires forall i :: 1 <= i < |pending| ==> pending[i] in more
    ensures Settled(h, seen + {a}, more, o)
  {
    if Compound(h, o) && o in pending && o != pending[0] { var i :| 0 <= i < |pending| && pending[i] == o; }
  }

  lemma DoneOn(h: Heap, labels: seq<Label>, seen: set<int>, pending: seq<Obj>, seen': set<int>, pending': seq<Obj>,
               b: int)
    requires Finished(labels) && Done(h, labels, seen, pending, b)
    requires forall o :: Settled(h, seen, pending, o) ==> Settled(h, seen', pending', o)
    ensures Done(h, labels, seen', pending', b)
  {
    hide Endless, Final, Settled;
  }

  lemma DoneNow(h: Heap, labels: seq<Label>, seen: set<int>, more: seq<Obj>, a: int)
    requires Finished(labels) && a in h && forall i :: 0 <= i < |Parts(h[a])| ==> !Endless(labels, Parts(h[a])[i])
    requires forall i :: 0 <= i < |Parts(h[a])| ==> Final(labels, Parts(h[a])[i]) in more
    ensures Done(h, labels, seen, more, a)
  {
    hide Endless, Final;
  }

  lemma PartReached(h: Heap, labels: seq<Label>, root: Obj, a: int, o: Obj)
    requires Finished(labels) && a in h && Reached(FinalHeap(labels, h), root, a) && o.Ref? && o.addr in h
    requires exists i :: 0 <= i < |Parts(h[a])| && o == Final(labels, Parts(h[a])[i])
    ensures Reached(FinalHeap(labels, h), root, o.addr)
  {
    var i :| 0 <= i < |Parts(h[a])| && o == Final(labels, Parts(h[a])[i]);
    assert Parts(FinalHeap(labels, h)[a])[i] == o;
    ReachedPart(FinalHeap(labels, h), root, a, i);
  }

  lemma PairVisited(h: Heap, heap: Heap, labels: seq<Label>, root: Obj, seen: set<int>, pending: seq<Obj>, a: int)
    requires Finished(labels) && Progress(h, heap, labels, root, seen, pending) && pending != [] && pending[0] == Ref(a)
    requires IsPair(h, Ref(a)) && a !in seen && !Endless(labels, h[a].car) && !Endless(labels, h[a].cdr)
    ensures Progress(h, heap[a := Cons(Final(labels, h[a].car), Final(labels, h[a].cdr))], labels, root, seen + {a},
      [Final(labels, h[a].car), Final(labels, h[a].cdr)] + pending[1..])
  {
    hide Endless, Final, Progress;
    var more := [Final(labels, h[a].car), Final(labels, h[a].cdr)] + pending[1..];
    forall i | 0 <= i < |Parts(h[a])|
      ensures Final(labels, Parts(h[a])[i]) in more && !Endless(labels, Parts(h[a])[i])
    {
      assert more[i] == Final(labels, Parts(h[a])[i]);
    }
    forall i | 1 <= i < |pending| ensures pending[i] in more { assert more[i + 1] == pending[i]; }
    forall k | 0 <= k < |more|
      ensures more[k] in pending[1..] || exists i :: 0 <= i < |Parts(h[a])| && more[k] == Final(labels, Parts(h[a])[i])
    {
      if k < 2 { assert more[k] == Final(labels, Parts(h[a])[k]); } else { assert more[k] == pending[1..][k - 2]; }
    }
    VisitKeeps(h, heap, labels, root, seen, pending, a, more);
  }

  lemma VectorVisited(h: Heap, heap: Heap, labels: seq<Label>, root: Obj, seen: set<int>, pending: seq<Obj>, a: int,
                      more: seq<Obj>)
    requires Finished(labels) && Progress(h, heap, labels, root, seen, pending) && pending != [] && pending[0] == Ref(a)
    requires IsVector(h, Ref(a)) && a !in seen && forall i :: 0 <= i < |h[a].elems| ==> !Endless(labels, h[a].elems[i])
    requires |more| == |h[a].elems| + |pending[1..]| && more[|h[a].elems|..] == pending[1..]
    requires forall i :: 0 <= i < |h[a].elems| ==> more[|h[a].elems| - 1 - i] == Final(labels, h[a].elems[i])
    ensures Progress(h, heap[a := Vector(FinalAll(labels, h[a].elems))], labels, root, seen + {a}, more)
  {
    hide Endless, Final, Progress;
    var n := |h[a].elems|;
    forall i | 0 <= i < n ensures Final(labels, Parts(h[a])[i]) in more {
      assert more[n - 1 - i] == Final(labels, Parts(h[a])[i]);
    }
    forall i | 1 <= i < |pending| ensures pending[i] in more { assert more[n..][i - 1] == pending[i]; }
    forall k | 0 <= k < |more|
      ensures more[k] in pending[1..] || exists i :: 0 <= i < |Parts(h[a])| && more[k] == Final(labels, Parts(h[a])[i])
    {
      if k < n {
        assert more[n - 1 - (n - 1 - k)] == Final(labels, h[a].elems[n - 1 - k]);
        assert more[k] == Final(labels, Parts(h[a])[n - 1 - k]);
      } else {
        assert more[k] == more[n..][k - n];
      }
    }
    VisitKeeps(h, heap, labels, root, seen, pending, a, more);
  }

  lemma TroubleRoot(h: Heap, labels: seq<Label>, root: Obj)
    requires Finished(labels) && Endless(labels, root)
    ensures Trouble(h, labels, root)
  {
    assert Occurs(h, labels, root, root);
  }

  lemma TroublePart(h: Heap, heap: Heap, labels: seq<Label>, obj: Obj, root: Obj, seen: set<int>, pending: seq<Obj>,
                    a: int, i: nat)
    requires Finished(labels) && Progress(h, heap, labels, root, seen, pending) && root == Final(labels, obj)
    requires pending != [] && pending[0] == Ref(a) && a in h && i < |Parts(h[a])| && Endless(labels, Parts(h[a])[i])
    ensures Trouble(h, labels, obj)
  {
    assert Reached(FinalHeap(labels, h), Final(labels, obj), a);
    assert Occurs(h, labels, obj, Parts(h[a])[i]);
  }

  /** With nothing pending, every pair and vector reached is visited. */
  lemma AllVisited(h: Heap, heap: Heap, labels: seq<Label>, root: Obj, seen: set<int>, a: int)
    requires Finished(labels) && Progress(h, heap, labels, root, seen, []) && Reached(FinalHeap(labels, h), root, a)
    ensures a in h && (a in seen || !Compound(h, Ref(a)))
  {
    hide Endless, Final;
    var final := FinalHeap(labels, h);
    var p: seq<int> :| Walk(final, p) && root == Ref(p[0]) && p[|p| - 1] == a;
    var all := set b | b in h && (b in seen || !Compound(h, Ref(b)));
    forall b, i | b in all && b in final && 0 <= i < |Parts(final[b])| && Parts(final[b])[i].Ref? &&
      Parts(final[b])[i].addr in final
      ensures Parts(final[b])[i].addr in all
    {
      if b in seen {
        assert Done(h, labels, seen, [], b);
        assert Settled(h, seen, [], Final(labels, Parts(h[b])[i]));
      }
    }
    ClosedHoldsAll(final, root, all, p);
  }

  lemma EndProgress(h: Heap, heap: Heap, labels: seq<Label>, obj: Obj, seen: set<int>)
    requires Finished(labels) && !Endless(labels, obj) && Progress(h, heap, labels, Final(labels, obj), seen, [])
    ensures !Trouble(h, labels, obj) && Resolved(h, heap, labels, Final(labels, obj))
  {
    hide Endless, Final, Reached;
    var root := Final(labels, obj);
    forall a | Reached(FinalHeap(labels, h), root, a) ensures a in h && (a in seen || !Compound(h, Ref(a))) {
      AllVisited(h, heap, labels, root, seen, a);
    }
    forall o | Occurs(h, labels, obj, o) ensures !Endless(labels, o) {
      if o != obj {
        var a, i :| a in h && Reached(FinalHeap(labels, h), root, a) && 0 <= i < |Parts(h[a])| && Parts(h[a])[i] == o;
        if a in seen { NotEndless(h, labels, seen, a, i); }
      }
    }
    forall a | a in h
      ensures heap[a] == if Reached(FinalHeap(labels, h), root, a) then FinalCell(labels, h[a]) else h[a]
    { }
  }

  lemma NotEndless(h: Heap, labels: seq<Label>, seen: set<int>, a: int, i: nat)
    requires Finished(labels) && Done(h, labels, seen, [], a) && i < |Parts(h[a])|
    ensures !Endless(labels, Parts(h[a])[i])
  {
  }
}
