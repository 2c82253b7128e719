/** The copying itself: unwrap_copy and unwrap_farsymbol (src/macro.c). */
module Unwrappers {
  import opened Collector
  import opened Cycles
  import opened Unwrapping

  lemma FarBranchIs(h: Heap, o: Obj, avoid: set<int>)
    requires FarBranch(h, o, avoid) && !IsFar(h, o)
    ensures (IsPair(h, o) || IsVector(h, o)) && o.addr !in avoid
  {
    if (!IsPair(h, o) && !IsVector(h, o)) || o.addr in avoid { NoBranch(h, o, avoid); }
  }

  ghost predicate Copies(h0: Heap, h: Heap, xs: seq<Obj>, ys: seq<Obj>, ms: seq<Made>, path: seq<int>) {
    |xs| == |ys| == |ms| && forall k :: 0 <= k < |ys| ==> Copy(h0, h, xs[k], ys[k], ms[k], path)
  }

  lemma CopiesKept(h0: Heap, h: Heap, h': Heap, xs: seq<Obj>, ys: seq<Obj>, ms: seq<Made>, path: seq<int>)
    requires Copies(h0, h, xs, ys, ms, path) && Extends(h, h')
    ensures Copies(h0, h', xs, ys, ms, path)
  {
    hide Copy, Extends;
    forall k | 0 <= k < |ys| ensures Copy(h0, h', xs[k], ys[k], ms[k], path) {
      CopyKept(h0, h, h', xs[k], ys[k], ms[k], path);
    }
  }

  /** One more, when those before were made in the heap h. */
  lemma OneMore(h0: Heap, h: Heap, h': Heap, xs: seq<Obj>, ys: seq<Obj>, ms: seq<Made>, path: seq<int>,
      x: Obj, y: Obj, m: Made)
    requires Copies(h0, h, xs, ys, ms, path) && Extends(h, h') && Copy(h0, h', x, y, m, path)
    ensures Copies(h0, h', xs + [x], ys + [y], ms + [m], path)
  {
    hide Copy, Extends;
    CopiesKept(h0, h, h', xs, ys, ms, path);
  }

  lemma NoneYet(h0: Heap, h: Heap, path: seq<int>)
    ensures Copies(h0, h, [], [], [], path)
  {
  }

  lemma ExtendsTrans(h: Heap, h': Heap, h'': Heap)
    requires Extends(h, h') && Extends(h', h'')
    ensures Extends(h, h'')
  {
  }

  lemma ExtendsNew(h: Heap, a: int, c: Cell)
    requires a !in h
    ensures Extends(h, h) && Extends(h, h[a := c])
  {
  }

  /** A list of `elems` in new cells, in front of `tail`. */
  ghost predicate NewList(h0: Heap, h: Heap, o: Obj, elems: seq<Obj>, tail: Obj) {
    Nth(h, o, |elems|) == tail &&
    forall k :: 0 <= k < |elems| ==>
      IsPair(h, Nth(h, o, k)) && Nth(h, o, k).addr !in h0 && Car(h, Nth(h, o, k)) == elems[k]
  }

  lemma OneInFront(h0: Heap, h: Heap, h': Heap, o: Obj, elems: seq<Obj>, tail: Obj, pair: Obj)
    requires NewList(h0, h, o, elems, tail) && Extends(h, h')
    requires IsPair(h', pair) && pair.addr !in h0 && Cdr(h', pair) == o
    ensures NewList(h0, h', pair, [Car(h', pair)] + elems, tail)
  {
    hide Extends;
    var all := [Car(h', pair)] + elems;
    assert Nth(h', pair, 0) == pair && Nth(h', pair, 1) == o;
    forall k | 0 <= k <= |elems| ensures Nth(h', pair, k + 1) == Nth(h, o, k) {
      NthTwice(h', pair, 1, k);
      NthKept(h, h', o, k);
    }
    forall k | 0 <= k < |all|
      ensures IsPair(h', Nth(h', pair, k)) && Nth(h', pair, k).addr !in h0 && Car(h', Nth(h', pair, k)) == all[k]
    {
      if k > 0 {
        assert IsPair(h, Nth(h, o, k - 1)) && Nth(h', pair, k - 1 + 1) == Nth(h, o, k - 1);
        CellKept(h, h', Nth(h, o, k - 1));
      }
    }
  }

  lemma CellKept(h: Heap, h': Heap, o: Obj)
    requires Extends(h, h') && o.Ref? && o.addr in h
    ensures o.addr in h' && h'[o.addr] == h[o.addr]
  {
  }

  lemma NilList(h0: Heap, h: Heap, tail: Obj)
    ensures NewList(h0, h, tail, [], tail)
  {
  }

  /** What is not in a heap is not in one before. */
  lemma NewIsNew(h0: Heap, h: Heap, a: int)
    requires Extends(h0, h) && a !in h
    ensures a !in h0
  {
  }

  lemma PathKept(h0: Heap, h: Heap, path: seq<int>)
    requires Extends(h0, h) && forall a :: a in Nodes(path) ==> a in h0
    ensures forall a :: a in Nodes(path) ==> a in h
  {
  }

  lemma VectorCopied(h0: Heap, h: Heap, x: Obj, y: Obj, ms: seq<Made>, path: seq<int>)
    requires IsVector(h0, x) && FarBranch(h0, x, Nodes(path)) && IsVector(h, y) && y.addr !in h0
    requires Copies(h0, h, h0[x.addr].elems, h[y.addr].elems, ms, path + [x.addr])
    ensures Copy(h0, h, x, y, Vec(ms), path)
  {
  }

  /** The cars of the first n pairs. */
  ghost function Cars(h: Heap, o: Obj, n: nat): seq<Obj> {
    seq(n, k requires 0 <= k < n => BranchAt(h, o, k))
  }

  lemma OneMoreCar(h: Heap, o: Obj, n: nat)
    requires IsPair(h, Nth(h, o, n))
    ensures Cars(h, o, n + 1) == Cars(h, o, n) + [Car(h, Nth(h, o, n))]
  {
    hide Nth;
  }

  lemma ListCopied(h0: Heap, h: Heap, x: Obj, y: Obj, ys: seq<Obj>, tail: Obj, m: Made, path: seq<int>)
    requires IsPair(h0, x) && FarBranch(h0, x, Nodes(path)) && m.Lst? && m.cars != []
    requires Listed(h0, x, |m.cars|) && NewList(h0, h, y, ys, tail)
    requires Copies(h0, h, Cars(h0, x, |m.cars|), ys, m.cars, path + [x.addr])
    requires
      var a := Nth(h0, x, |m.cars|);
      if IsPair(h0, a) then a == Nth(h0, x, |m.cars| / 2) == tail && m.end == Same
      else Copy(h0, h, a, tail, m.end, path + [x.addr])
    ensures Copy(h0, h, x, y, m, path)
  {
    hide Nth;
    forall i | 0 <= i < |m.cars|
      ensures Copy(h0, h, Car(h0, Nth(h0, x, i)), Car(h, Nth(h, y, i)), m.cars[i], path + [x.addr])
    {
      assert Cars(h0, x, |m.cars|)[i] == Car(h0, Nth(h0, x, i)) && ys[i] == Car(h, Nth(h, y, i));
    }
  }

  /** What is read of the tail of an old list. */
  lemma OldList(h0: Heap, h: Heap, o: Obj, k: nat)
    requires Closed(h0) && Extends(h0, h) && In(h0, o)
    ensures
      var p := Nth(h0, o, k);
      In(h0, p) && IsPair(h, p) == IsPair(h0, p) &&
      (IsPair(h0, p) ==>
        Car(h, p) == Car(h0, p) && In(h0, Car(h0, p)) && Cdr(h, p) == Cdr(h0, p) == Nth(h0, o, k + 1))
  {
    hide Extends, Closed;
    var p := Nth(h0, o, k);
    NthIn(h0, o, k);
    SameCell(h0, h, p);
    if IsPair(h0, p) { PartIn(h0, p, Car(h0, p)); }
  }

  lemma SoundIsClosed(h: Heap)
    requires Sound(h)
    ensures Closed(h)
  {
  }

  lemma RootDepth(h: Heap, o: Obj) returns (n: nat)
    requires Sound(h) && IsFar(h, o)
    ensures !IsFar(h, Inner(h, o, n))
  {
    var r :| RootIs(h, Ref(o.addr), r) && !IsPair(h, r) && !IsVector(h, r);
    n :| Inner(h, o, n) == r;
  }

  class Unwrapper {
    var heap: Heap
    var next: int

    ghost predicate Valid()
      reads this
    {
      forall a :: a in heap ==> a < next
    }

    /** A new cell. */
    method Alloc(c: Cell) returns (o: Obj)
      requires Valid()
      modifies this
      ensures Valid() && o.Ref? && o.addr !in old(heap) && heap == old(heap)[o.addr := c]
    {
      heap := heap[next := c];
      o := Ref(next);
      next := next + 1;
    }

    /** unwrap_farsymbol. */
    method UnwrapFarsymbol(obj: Obj, ghost h0: Heap) returns (o: Obj)
      requires Sound(h0) && Extends(h0, heap) && IsFar(h0, obj)
      ensures RootIs(h0, obj, o)
    {
      hide Extends, Closed;
      ghost var n := RootDepth(h0, obj);
      ghost var i: nat := 1;
      SameCell(h0, heap, obj);
      o := heap[obj.addr].sym;
      assert Inner(h0, obj, 0) == obj;
      while IsFar(heap, o)
        invariant o == Inner(h0, obj, i) && IsFar(h0, Inner(h0, obj, i - 1)) && i >= 1
        invariant i <= n
        decreases n - i
      {
        InnerIn(h0, obj, i);
        SameCell(h0, heap, o);
        if i >= n { InnerStays(h0, obj, n, i); }
        o := heap[o.addr].sym;
        i := i + 1;
      }
      InnerIn(h0, obj, i);
      SameCell(h0, heap, o);
    }

    /** The list that the queue holds, with `tail` at its end. */
    method MakeList(elems: seq<Obj>, tail: Obj, ghost h0: Heap) returns (o: Obj)
      requires Valid() && Extends(h0, heap)
      modifies this
      ensures Valid() && Extends(old(heap), heap) && NewList(h0, heap, o, elems, tail)
    {
      hide Extends, Nth;
      o := tail;
      var i := |elems|;
      ExtendsNew(heap, next, Free(NULL));
      NilList(h0, heap, tail);
      while i > 0
        invariant 0 <= i <= |elems| && Valid() && Extends(old(heap), heap) && Extends(h0, heap)
        invariant NewList(h0, heap, o, elems[i..], tail)
      {
        i := i - 1;
        ghost var h, rest := heap, o;
        o := Alloc(Cons(elems[i], o));
        ExtendsNew(h, o.addr, Cons(elems[i], rest));
        ExtendsTrans(old(heap), h, heap);
        ExtendsTrans(h0, h, heap);
        NewIsNew(h0, h, o.addr);
        OneInFront(h0, h, heap, rest, elems[i + 1..], tail, o);
        assert elems[i..] == [elems[i]] + elems[i + 1..];
      }
      assert elems[0..] == elems;
    }

    /** unwrap_copy, on every graph: it ends, no cell that was there has changed, and
        the result is the copy. */
    method UnwrapCopy(obj: Obj, path: seq<int>, ghost h0: Heap) returns (o: Obj, ghost m: Made)
      requires Valid() && Sound(h0) && Extends(h0, heap) && In(h0, obj) && forall a :: a in Nodes(path) ==> a in h0
      modifies this
      ensures Valid() && Extends(old(heap), heap) && Copy(h0, heap, obj, o, m, path)
      ensures m.Same? ==> heap == old(heap)
      decreases |h0.Keys - Nodes(path)|, 1
    {
      hide Extends, Closed, RootIs, FarBranch, Nth;
      ExtendsNew(heap, next, Free(NULL));
      SameCell(h0, heap, obj);
      if IsFar(heap, obj) {
        o := UnwrapFarsymbol(obj, h0);
        m := Made.Symbol;
        return;
      }
      PathKept(h0, heap, path);
      var wrapped := Wrappedp(heap, obj, path);
      SameFarBranch(h0, heap, obj, Nodes(path));
      if !wrapped { return obj, Same; }
      FarBranchIs(h0, obj, Nodes(path));
      if IsVector(heap, obj) {
        o, m := CopyVector(obj, path, h0);
      } else {
        o, m := CopyList(obj, path, h0);
      }
    }

    method CopyVector(obj: Obj, path: seq<int>, ghost h0: Heap) returns (o: Obj, ghost m: Made)
      requires Valid() && Sound(h0) && Extends(h0, heap) && forall a :: a in Nodes(path) ==> a in h0
      requires IsVector(h0, obj) && obj.addr !in Nodes(path) && FarBranch(h0, obj, Nodes(path))
      modifies this
      ensures Valid() && Extends(old(heap), heap) && Copy(h0, heap, obj, o, m, path) && m.Vec?
      decreases |h0.Keys - Nodes(path)|, 0
    {
      hide Extends, Closed, RootIs, FarBranch, Nth, Copy, Copies, Sound;
      SoundIsClosed(h0);
      SameCell(h0, heap, obj);
      var current, elems := path + [obj.addr], heap[obj.addr].elems;
      MorePath(h0, path, obj.addr);
      NodesPush(path, obj.addr);
      var vec: seq<Obj> := [];
      ghost var ms: seq<Made> := [];
      NoneYet(h0, heap, current);
      ExtendsNew(heap, next, Free(NULL));
      assert elems[..0] == [];
      while |vec| < |elems|
        invariant Valid() && Extends(old(heap), heap) && Extends(h0, heap) && |vec| <= |elems|
        invariant Copies(h0, heap, elems[..|vec|], vec, ms, current)
      {
        ghost var h, i := heap, |vec|;
        PartIn(h0, obj, elems[i]);
        var copy, made := UnwrapCopy(elems[|vec|], current, h0);
        OneMore(h0, h, heap, elems[..i], vec, ms, current, elems[i], copy, made);
        ExtendsTrans(old(heap), h, heap);
        ExtendsTrans(h0, h, heap);
        assert elems[..i + 1] == elems[..i] + [elems[i]];
        vec, ms := vec + [copy], ms + [made];
      }
      ghost var h := heap;
      assert elems[..|vec|] == elems;
      o := Alloc(Vector(vec));
      ExtendsNew(h, o.addr, Vector(vec));
      ExtendsTrans(old(heap), h, heap);
      CopiesKept(h0, h, heap, elems, vec, ms, current);
      NewIsNew(h0, h, o.addr);
      m := Vec(ms);
      VectorCopied(h0, heap, obj, o, ms, path);
    }

    method CopyList(obj: Obj, path: seq<int>, ghost h0: Heap) returns (o: Obj, ghost m: Made)
      requires Valid() && Sound(h0) && Extends(h0, heap) && forall a :: a in Nodes(path) ==> a in h0
      requires IsPair(h0, obj) && obj.addr !in Nodes(path) && FarBranch(h0, obj, Nodes(path))
      modifies this
      ensures Valid() && Extends(old(heap), heap) && Copy(h0, heap, obj, o, m, path) && m.Lst?
      decreases |h0.Keys - Nodes(path)|, 0
    {
      hide Extends, Closed, RootIs, FarBranch, Nth, BranchAt, Copy, Copies, Sound, NewList, Listed;
      SoundIsClosed(h0);
      var current := path + [obj.addr];
      MorePath(h0, path, obj.addr);
      NodesPush(path, obj.addr);
      var q: seq<Obj> := [];
      ghost var ms: seq<Made> := [];
      var lst, slow, advanceSlow := obj, obj, false;
      ghost var i: nat := 0;
      NoneYet(h0, heap, current);
      NoneListed(h0, obj);
      assert Cars(h0, obj, 0) == [];
      ExtendsNew(heap, next, Free(NULL));
      OldList(h0, heap, obj, 0);
      while IsPair(heap, lst)
        invariant Valid() && Extends(old(heap), heap) && Extends(h0, heap) && i <= 2 * |h0| && (i == 0 ==> lst == obj)
        invariant lst == Nth(h0, obj, i) && advanceSlow == (i % 2 == 1) && slow == Nth(h0, obj, i / 2)
        invariant Listed(h0, obj, i) && (i > 0 ==> lst != slow) && |ms| == i
        invariant Copies(h0, heap, Cars(h0, obj, i), q, ms, current)
        decreases 2 * |h0| - i
      {
        ghost var h := heap;
        OldList(h0, heap, obj, i);
        OneListed(h0, obj, i);
        OneMoreCar(h0, obj, i);
        var copy, made := UnwrapCopy(Car(heap, lst), current, h0);
        OneMore(h0, h, heap, Cars(h0, obj, i), q, ms, current, Car(h0, lst), copy, made);
        q, ms := q + [copy], ms + [made];
        ExtendsTrans(old(heap), h, heap);
        ExtendsTrans(h0, h, heap);
        OldList(h0, heap, obj, i);
        if advanceSlow {
          ListedAt(h0, obj, i, i / 2);
          OldList(h0, heap, obj, i / 2);
          slow := Cdr(heap, slow);
        }
        advanceSlow := !advanceSlow;
        i := i + 1;
        if Cdr(heap, lst) == slow {
          lst := Cdr(heap, lst);
          break;
        }
        lst := Cdr(heap, lst);
      }
      OldList(h0, heap, obj, i);
      var tail := lst;
      ghost var end, h := Same, heap;
      ExtendsNew(heap, next, Free(NULL));
      if !IsPair(heap, lst) { tail, end := UnwrapCopy(lst, current, h0); }
      ghost var h' := heap;
      ExtendsTrans(old(heap), h, h');
      ExtendsTrans(h0, h, h');
      CopiesKept(h0, h, h', Cars(h0, obj, i), q, ms, current);
      o := MakeList(q, tail, h0);
      ExtendsTrans(old(heap), h', heap);
      CopiesKept(h0, h', heap, Cars(h0, obj, i), q, ms, current);
      if !IsPair(h0, lst) { CopyKept(h0, h', heap, lst, tail, end, current); }
      m := Lst(ms, end);
      ListCopied(h0, heap, obj, o, q, tail, m, path);
    }

    /** scm_unwrap_syntax, on every graph. */
    method UnwrapSyntax(arg: Obj) returns (o: Obj)
      requires Valid() && Sound(heap) && In(heap, arg)
      modifies this
      ensures Valid() && Extends(old(heap), heap)
      ensures o == arg <==> !HasFar(old(heap), arg, {})
      ensures HasFar(heap, o, {}) <==> FarThroughCycle(old(heap), arg)
      ensures forall place :: SamePlace(old(heap), heap, arg, o, place)
    {
      hide Extends, Sound, In, Copy, HasFar, FarThroughCycle, SamePlace;
      ExtendsNew(heap, next, Free(NULL));
      assert Nodes([]) == {};
      ghost var m;
      o, m := UnwrapCopy(arg, [], heap);
      SharedExactly(old(heap), heap, arg, o, m);
      UnwrappedExactly(old(heap), heap, arg, o, m);
      forall place ensures SamePlace(old(heap), heap, arg, o, place) {
        SamePlaces(old(heap), heap, arg, o, m, [], place);
      }
    }
  }
}
