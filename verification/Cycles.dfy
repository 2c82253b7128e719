/** Algorithms over possibly cyclic data: far symbols anywhere in an object
    (wrappedp in src/macro.c) and the length of any cdr chain (src/list.c). */
module Cycles {
  import opened Collector

  predicate IsPair(h: Heap, o: Obj) { o.Ref? && o.addr in h && h[o.addr].Cons? }
  predicate IsVector(h: Heap, o: Obj) { o.Ref? && o.addr in h && h[o.addr].Vector? }
  predicate IsFar(h: Heap, o: Obj) { o.Ref? && o.addr in h && h[o.addr].Farsymbol? }

  function Car(h: Heap, o: Obj): Obj
    requires IsPair(h, o)
  { h[o.addr].car }

  function Cdr(h: Heap, o: Obj): Obj
    requires IsPair(h, o)
  { h[o.addr].cdr }

  /* ---- The cdr chain of an object ---- */

  /** After k cdrs, or at the end of the chain. */
  function Nth(h: Heap, o: Obj, k: nat): Obj {
    if k == 0 then o
    else var p := Nth(h, o, k - 1); if IsPair(h, p) then Cdr(h, p) else p
  }

  /** The chain has n pairs. */
  ghost predicate Ends(h: Heap, o: Obj, n: nat) {
    (forall k :: 0 <= k < n ==> IsPair(h, Nth(h, o, k))) && !IsPair(h, Nth(h, o, n))
  }

  ghost predicate Circular(h: Heap, o: Obj) {
    forall k: nat :: IsPair(h, Nth(h, o, k))
  }

  lemma EndsOnce(h: Heap, o: Obj, n: nat, m: nat)
    requires Ends(h, o, n) && Ends(h, o, m)
    ensures n == m && !Circular(h, o)
  {
    assert !IsPair(h, Nth(h, o, n)) && !IsPair(h, Nth(h, o, m));
  }

  lemma {:induction false} NthTwice(h: Heap, o: Obj, i: nat, k: nat)
    ensures Nth(h, Nth(h, o, i), k) == Nth(h, o, i + k)
  {
    if k > 0 { NthTwice(h, o, i, k - 1); }
  }

  /** Once a cell comes again, so do all that follow. */
  lemma {:induction false} Repeats(h: Heap, o: Obj, i: nat, j: nat, k: nat)
    requires Nth(h, o, i) == Nth(h, o, j)
    ensures Nth(h, o, i + k) == Nth(h, o, j + k)
  {
    NthTwice(h, o, i, k);
    NthTwice(h, o, j, k);
  }

  /** Then the first j cells are all there are. */
  lemma {:induction false} OnlyThose(h: Heap, o: Obj, i: nat, j: nat, n: nat) returns (k: nat)
    requires i < j && Nth(h, o, i) == Nth(h, o, j)
    ensures k < j && Nth(h, o, n) == Nth(h, o, k)
    decreases n
  {
    if n < j {
      k := n;
    } else {
      Repeats(h, o, i, j, n - j);
      k := OnlyThose(h, o, i, j, i + n - j);
    }
  }

  lemma CycleIsCircular(h: Heap, o: Obj, i: nat, j: nat)
    requires i < j && Nth(h, o, i) == Nth(h, o, j)
    requires forall k :: 0 <= k < j ==> IsPair(h, Nth(h, o, k))
    ensures Circular(h, o)
  {
    forall n: nat ensures IsPair(h, Nth(h, o, n)) {
      var k := OnlyThose(h, o, i, j, n);
    }
  }

  /** A multiple of the period is a period. */
  lemma {:induction false} Periods(h: Heap, o: Obj, i: nat, p: nat, m: nat, n: nat)
    requires Nth(h, o, i) == Nth(h, o, i + p) && n >= i
    ensures Nth(h, o, n + m * p) == Nth(h, o, n)
    decreases m
  {
    if m > 0 {
      Periods(h, o, i, p, m - 1, n);
      Repeats(h, o, i, i + p, n - i + (m - 1) * p);
      assert i + p + (n - i + (m - 1) * p) == n + m * p;
    } else {
      assert n + m * p == n;
    }
  }

  /** The first n cells. */
  ghost function Cells(h: Heap, o: Obj, n: nat): set<int>
    requires forall k :: 0 <= k < n ==> IsPair(h, Nth(h, o, k))
  {
    if n == 0 then {} else assert IsPair(h, Nth(h, o, n - 1)); Cells(h, o, n - 1) + {Nth(h, o, n - 1).addr}
  }

  lemma {:induction false} CellsInHeap(h: Heap, o: Obj, n: nat)
    requires forall k :: 0 <= k < n ==> IsPair(h, Nth(h, o, k))
    ensures Cells(h, o, n) <= h.Keys
  {
    if n > 0 { CellsInHeap(h, o, n - 1); }
  }

  lemma {:induction false} CellAt(h: Heap, o: Obj, n: nat, a: int) returns (k: nat)
    requires (forall k :: 0 <= k < n ==> IsPair(h, Nth(h, o, k))) && a in Cells(h, o, n)
    ensures k < n && Nth(h, o, k) == Ref(a)
  {
    k := n - 1;
    if Nth(h, o, n - 1).addr != a { k := CellAt(h, o, n - 1, a); }
  }

  /** Among more positions than cells, two hold the same cell. */
  lemma {:induction false} Pigeonhole(h: Heap, o: Obj, n: nat) returns (i: nat, j: nat)
    requires forall k :: 0 <= k < n ==> IsPair(h, Nth(h, o, k))
    requires |Cells(h, o, n)| < n
    ensures i < j < n && Nth(h, o, i) == Nth(h, o, j)
    decreases n
  {
    var last := Nth(h, o, n - 1);
    if last.addr in Cells(h, o, n - 1) {
      i := CellAt(h, o, n - 1, last.addr);
      j := n - 1;
    } else {
      i, j := Pigeonhole(h, o, n - 1);
    }
  }

  lemma SubsetSize(a: set<int>, b: set<int>)
    requires a <= b
    ensures |a| <= |b| && (a != b ==> |a| < |b|)
  {
    var c := b - a;
    assert a + c == b && a * c == {};
    assert |a + c| + |a * c| == |a| + |c|;
    assert a != b ==> c != {};
  }

  /** Floyd: when the chain is longer than twice the number of cells, the cell at
      some position m is the one at m / 2. */
  lemma Floyd(h: Heap, o: Obj, n: nat) returns (m: nat)
    requires n > 2 * |h| && forall k :: 0 <= k < n ==> IsPair(h, Nth(h, o, k))
    ensures 0 < m < n && Nth(h, o, m) == Nth(h, o, m / 2)
  {
    CellsInHeap(h, o, |h| + 1);
    SubsetSize(Cells(h, o, |h| + 1), h.Keys);
    assert |h.Keys| == |h|;
    var i, j := Pigeonhole(h, o, |h| + 1);
    var p := j - i;
    var q, t := MultipleAbove(i, p);
    Periods(h, o, i, p, q, t);
    m := 2 * t;
  }

  lemma {:induction false} MultipleAbove(i: nat, p: nat) returns (q: nat, t: nat)
    requires p > 0
    ensures t == q * p && 0 < t && i <= t <= i + p
  {
    if i < p {
      q, t := 1, p;
    } else {
      q, t := MultipleAbove(i - p, p);
      assert (q + 1) * p == q * p + p;
      q, t := q + 1, t + p;
    }
  }

  /* ---- scm_length, scm_finite_length ---- */

  const INT_T_MIN := -0x8000_0000_0000_0000

  function EncodeDotted(len: int): int { -len - 1 }

  const CIRCULAR := INT_T_MIN

  /** The length code says what the chain is: proper with n pairs, n pairs with
      another end, or without end. */
  ghost predicate LengthIs(h: Heap, o: Obj, r: int) {
    (r >= 0 ==> Ends(h, o, r) && Nth(h, o, r) == NULL) &&
    (CIRCULAR < r < 0 ==> Ends(h, o, EncodeDotted(r)) && Nth(h, o, EncodeDotted(r)) != NULL) &&
    (r == CIRCULAR ==> Circular(h, o)) && r >= CIRCULAR
  }

  /** It is the only code that does. */
  lemma LengthUnique(h: Heap, o: Obj, r: int, s: int)
    requires LengthIs(h, o, r) && LengthIs(h, o, s)
    ensures r == s
  {
    assert r != CIRCULAR ==> Ends(h, o, if r >= 0 then r else EncodeDotted(r));
    assert s != CIRCULAR ==> Ends(h, o, if s >= 0 then s else EncodeDotted(s));
    forall n: nat, m: nat | Ends(h, o, n) && Ends(h, o, m) ensures n == m && !Circular(h, o) { EndsOnce(h, o, n, m); }
  }

  /** Heaps have fewer cells than half the integers. */
  ghost predicate Addressable(h: Heap) { 2 * |h| < -INT_T_MIN - 1 }

  /** NULL is a constant, not a cell. */
  method Length(h: Heap, obj: Obj) returns (r: int)
    requires Addressable(h)
    ensures LengthIs(h, obj, r)
  {
    var lst, slow, len := obj, obj, 0;
    while true
      invariant len % 2 == 0 && lst == Nth(h, obj, len) && slow == Nth(h, obj, len / 2)
      invariant forall k :: 0 <= k < len ==> IsPair(h, Nth(h, obj, k))
      invariant forall k :: 0 < k < len ==> Nth(h, obj, k) != Nth(h, obj, k / 2)
      invariant len <= 2 * |h|
      decreases 2 * |h| - len
    {
      if lst == NULL { break; }
      if !IsPair(h, lst) { return EncodeDotted(len); }
      if len != 0 && lst == slow {
        CycleIsCircular(h, obj, len / 2, len);
        return CIRCULAR;
      }
      Bounded(h, obj, len + 1);
      lst := Cdr(h, lst);
      len := len + 1;
      if lst == NULL { break; }
      if !IsPair(h, lst) { return EncodeDotted(len); }
      if lst == slow {
        CycleIsCircular(h, obj, len / 2, len);
        return CIRCULAR;
      }
      Bounded(h, obj, len + 1);
      lst := Cdr(h, lst);
      slow := Cdr(h, slow);
      len := len + 1;
    }
    return len;
  }

  lemma Bounded(h: Heap, o: Obj, n: nat)
    requires forall k :: 0 <= k < n ==> IsPair(h, Nth(h, o, k))
    requires forall k :: 0 < k < n ==> Nth(h, o, k) != Nth(h, o, k / 2)
    ensures n <= 2 * |h|
  {
    if n > 2 * |h| { var m := Floyd(h, o, n); }
  }

  lemma EndsBound(h: Heap, o: Obj, n: nat)
    requires Ends(h, o, n)
    ensures n <= 2 * |h|
  {
    if n > 2 * |h| {
      var m := Floyd(h, o, n);
      CycleIsCircular(h, o, m / 2, m);
    }
  }

  /** For non-circular lists; by LengthUnique it agrees with scm_length there. */
  method FiniteLength(h: Heap, obj: Obj, ghost n: nat) returns (r: int)
    requires Addressable(h) && Ends(h, obj, n)
    ensures LengthIs(h, obj, r)
  {
    EndsBound(h, obj, n);
    var lst, len := obj, 0;
    while IsPair(h, lst)
      invariant len <= n && lst == Nth(h, obj, len)
      decreases n - len
    {
      lst := Cdr(h, lst);
      len := len + 1;
    }
    if lst == NULL { return len; } else { return EncodeDotted(len); }
  }

  /* ---- Far symbols ---- */

  /** What wrappedp follows. */
  function Parts(c: Cell): seq<Obj> {
    match c
    case Cons(a, d) => [a, d]
    case Vector(elems) => elems
    case _ => []
  }

  /** A walk through pairs and vectors that are not in `avoid`, to a far symbol. */
  ghost predicate FarWalk(h: Heap, p: seq<Obj>, avoid: set<int>) {
    |p| > 0 && IsFar(h, p[|p| - 1]) &&
    (forall i :: 0 <= i < |p| ==> p[i].Ref? && p[i].addr in h && p[i].addr !in avoid) &&
    forall i {:trigger h[p[i].addr]} :: 0 <= i < |p| - 1 ==> p[i + 1] in Parts(h[p[i].addr])
  }

  ghost predicate HasFar(h: Heap, o: Obj, avoid: set<int>) {
    exists p: seq<Obj> :: FarWalk(h, p, avoid) && p[0] == o
  }

  lemma HasFarPart(h: Heap, o: Obj, part: Obj, avoid: set<int>)
    requires o.Ref? && o.addr in h && o.addr !in avoid && part in Parts(h[o.addr]) && HasFar(h, part, avoid)
    ensures HasFar(h, o, avoid)
  {
    var p: seq<Obj> :| FarWalk(h, p, avoid) && p[0] == part;
    WalkOn(h, o, p, avoid);
    assert ([o] + p)[0] == o;
  }

  lemma WalkOn(h: Heap, o: Obj, p: seq<Obj>, avoid: set<int>)
    requires o.Ref? && o.addr in h && o.addr !in avoid && FarWalk(h, p, avoid) && p[0] in Parts(h[o.addr])
    ensures FarWalk(h, [o] + p, avoid)
  {
    hide Parts;
    var q := [o] + p;
    assert forall i :: 0 < i < |q| ==> q[i] == p[i - 1];
    assert q[|q| - 1] == p[|p| - 1];
    forall i {:trigger h[q[i].addr]} | 0 <= i < |q| - 1 ensures q[i + 1] in Parts(h[q[i].addr]) {
      if i > 0 { assert p[i] in Parts(h[p[i - 1].addr]); }
    }
  }

  /** The rest of a walk. */
  lemma WalkFrom(h: Heap, p: seq<Obj>, avoid: set<int>, i: nat)
    requires FarWalk(h, p, avoid) && i < |p|
    ensures FarWalk(h, p[i..], avoid) && (i > 0 ==> p[i] in Parts(h[p[i - 1].addr]))
  {
    var q := p[i..];
    forall k {:trigger h[q[k].addr]} | 0 <= k < |q| - 1 ensures q[k + 1] in Parts(h[q[k].addr]) {
      assert q[k] == p[i + k] && q[k + 1] == p[i + k + 1] && p[i + k + 1] in Parts(h[p[i + k].addr]);
    }
    if i > 0 { assert h[p[i - 1].addr] == h[p[i - 1].addr]; }
  }

  lemma {:induction false} ChainHasFar(h: Heap, obj: Obj, n: nat)
    requires HasFar(h, Nth(h, obj, n), {})
    ensures HasFar(h, obj, {})
  {
    if n > 0 {
      var p := Nth(h, obj, n - 1);
      if IsPair(h, p) { HasFarPart(h, p, Nth(h, obj, n), {}); }
      ChainHasFar(h, obj, n - 1);
    }
  }

  /* ---- Branches: the elements of a vector, the cars of a list and what ends it ---- */

  ghost function BranchAt(h: Heap, o: Obj, k: nat): Obj {
    var p := Nth(h, o, k); if IsPair(h, p) then Car(h, p) else p
  }

  ghost predicate Branch(h: Heap, o: Obj, part: Obj) {
    (IsVector(h, o) && part in h[o.addr].elems) || (IsPair(h, o) && exists k: nat :: BranchAt(h, o, k) == part)
  }

  /** A walk to a far symbol from branch to branch, of lists and vectors that are not
      in `avoid`: of a list only the head matters. */
  ghost predicate BranchWalk(h: Heap, p: seq<Obj>, avoid: set<int>) {
    |p| > 0 && IsFar(h, p[|p| - 1]) &&
    forall i :: 0 <= i < |p| - 1 ==> p[i].Ref? && p[i].addr !in avoid && Branch(h, p[i], p[i + 1])
  }

  ghost predicate FarBranch(h: Heap, o: Obj, avoid: set<int>) {
    exists p: seq<Obj> :: BranchWalk(h, p, avoid) && p[0] == o
  }

  lemma BranchWalkFrom(h: Heap, p: seq<Obj>, avoid: set<int>, i: nat)
    requires BranchWalk(h, p, avoid) && i < |p|
    ensures BranchWalk(h, p[i..], avoid)
  {
    hide Branch;
    var q := p[i..];
    forall k | 0 <= k < |q| - 1 ensures q[k].Ref? && q[k].addr !in avoid && Branch(h, q[k], q[k + 1]) {
      assert q[k] == p[i + k] && q[k + 1] == p[i + k + 1];
    }
  }

  lemma FarBranchPart(h: Heap, o: Obj, part: Obj, avoid: set<int>)
    requires o.Ref? && o.addr !in avoid && Branch(h, o, part) && FarBranch(h, part, avoid)
    ensures FarBranch(h, o, avoid)
  {
    hide Branch;
    var p: seq<Obj> :| BranchWalk(h, p, avoid) && p[0] == part;
    var q := [o] + p;
    forall k | 0 <= k < |q| - 1 ensures q[k].Ref? && q[k].addr !in avoid && Branch(h, q[k], q[k + 1]) {
      if k > 0 { assert q[k] == p[k - 1] && q[k + 1] == p[k]; }
    }
    assert BranchWalk(h, q, avoid) && q[0] == o;
  }

  /** A walk to a far symbol need not come back to where it starts. */
  lemma {:induction false} NoReturn(h: Heap, p: seq<Obj>, avoid: set<int>) returns (q: seq<Obj>)
    requires BranchWalk(h, p, avoid) && !IsFar(h, p[0])
    ensures |q| > 0 && Branch(h, p[0], q[0]) && BranchWalk(h, q, avoid + {p[0].addr})
    decreases |p|
  {
    hide Branch;
    assert |p| > 1;
    if i :| 0 < i < |p| && p[i] == p[0] {
      BranchWalkFrom(h, p, avoid, i);
      q := NoReturn(h, p[i..], avoid);
    } else {
      q := p[1..];
      BranchWalkFrom(h, p, avoid, 1);
      assert forall k :: 0 <= k < |q| ==> q[k] == p[k + 1];
    }
  }

  /** From an object that is not avoided a far symbol is reached exactly if it is
      reached from a branch without passing the object again. */
  lemma FarBranchStep(h: Heap, o: Obj, avoid: set<int>)
    requires (IsPair(h, o) || IsVector(h, o)) && o.addr !in avoid
    ensures FarBranch(h, o, avoid) <==> exists part :: Branch(h, o, part) && FarBranch(h, part, avoid + {o.addr})
  {
    if FarBranch(h, o, avoid) {
      var p: seq<Obj> :| BranchWalk(h, p, avoid) && p[0] == o;
      var q := NoReturn(h, p, avoid);
      assert Branch(h, o, q[0]) && FarBranch(h, q[0], avoid + {o.addr});
    }
    if part :| Branch(h, o, part) && FarBranch(h, part, avoid + {o.addr}) {
      var p: seq<Obj> :| BranchWalk(h, p, avoid + {o.addr}) && p[0] == part;
      assert BranchWalk(h, p, avoid);
      FarBranchPart(h, o, part, avoid);
    }
  }

  /** From an atom or an object that is avoided there is no walk. */
  lemma NoBranch(h: Heap, o: Obj, avoid: set<int>)
    requires !IsFar(h, o) && ((!IsPair(h, o) && !IsVector(h, o)) || o.addr in avoid)
    ensures !FarBranch(h, o, avoid)
  {
    forall p: seq<Obj> | |p| > 0 && p[0] == o ensures !BranchWalk(h, p, avoid) {
      assert BranchWalk(h, p, avoid) ==> |p| == 1 || Branch(h, p[0], p[1]);
    }
  }

  lemma FarIsFarBranch(h: Heap, o: Obj, avoid: set<int>)
    requires IsFar(h, o)
    ensures FarBranch(h, o, avoid)
  {
    assert BranchWalk(h, [o], avoid) && [o][0] == o;
  }

  /** Any walk off `avoid` gives one along branches, ... */
  lemma {:induction false} WalkIsBranchWalk(h: Heap, p: seq<Obj>, avoid: set<int>)
    requires FarWalk(h, p, avoid)
    ensures FarBranch(h, p[0], avoid)
    decreases |p|, 1
  {
    if IsFar(h, p[0]) {
      FarIsFarBranch(h, p[0], avoid);
    } else if IsPair(h, p[0]) {
      WalkInList(h, p[0], p, avoid, 0);
    } else {
      WalkFrom(h, p, avoid, 1);
      WalkIsBranchWalk(h, p[1..], avoid);
      FarBranchPart(h, p[0], p[1], avoid);
    }
  }

  lemma {:induction false} WalkInList(h: Heap, o: Obj, p: seq<Obj>, avoid: set<int>, k: nat)
    requires IsPair(h, o) && o.addr !in avoid && FarWalk(h, p, avoid) && IsPair(h, p[0]) && p[0] == Nth(h, o, k)
    ensures FarBranch(h, o, avoid)
    decreases |p|, 0
  {
    WalkFrom(h, p, avoid, 1);
    if p[1] == Car(h, p[0]) {
      WalkIsBranchWalk(h, p[1..], avoid);
      assert BranchAt(h, o, k) == p[1];
      FarBranchPart(h, o, p[1], avoid);
    } else {
      assert p[1] == Nth(h, o, k + 1);
      if IsPair(h, p[1]) {
        WalkInList(h, o, p[1..], avoid, k + 1);
      } else {
        WalkIsBranchWalk(h, p[1..], avoid);
        assert BranchAt(h, o, k + 1) == p[1];
        FarBranchPart(h, o, p[1], avoid);
      }
    }
  }

  /** ... and those reach what can be reached at all. */
  lemma {:induction false} BranchWalkReaches(h: Heap, p: seq<Obj>, avoid: set<int>)
    requires BranchWalk(h, p, avoid)
    ensures HasFar(h, p[0], {})
    decreases |p|
  {
    if |p| == 1 {
      assert FarWalk(h, p, {});
    } else {
      BranchWalkFrom(h, p, avoid, 1);
      BranchWalkReaches(h, p[1..], avoid);
      assert Branch(h, p[0], p[1]);
      if IsVector(h, p[0]) {
        HasFarPart(h, p[0], p[1], {});
      } else {
        var k: nat :| BranchAt(h, p[0], k) == p[1];
        if IsPair(h, Nth(h, p[0], k)) { HasFarPart(h, Nth(h, p[0], k), p[1], {}); }
        ChainHasFar(h, p[0], k);
      }
    }
  }

  lemma FarBranchBetween(h: Heap, o: Obj, avoid: set<int>)
    ensures HasFar(h, o, avoid) ==> FarBranch(h, o, avoid)
    ensures FarBranch(h, o, avoid) ==> HasFar(h, o, {})
  {
    if HasFar(h, o, avoid) {
      var p: seq<Obj> :| FarWalk(h, p, avoid) && p[0] == o;
      WalkIsBranchWalk(h, p, avoid);
    }
    if FarBranch(h, o, avoid) {
      var p: seq<Obj> :| BranchWalk(h, p, avoid) && p[0] == o;
      BranchWalkReaches(h, p, avoid);
    }
  }

  lemma NoneInAtom(h: Heap, o: Obj, avoid: set<int>)
    requires !IsFar(h, o) && !IsPair(h, o) && !IsVector(h, o)
    ensures !HasFar(h, o, avoid)
  {
    forall p: seq<Obj> | |p| > 0 && p[0] == o ensures !FarWalk(h, p, avoid) {
      assert o.Ref? && o.addr in h ==> Parts(h[p[0].addr]) == [];
    }
  }

  /** on_pathp. */
  method OnPathp(obj: int, path: seq<int>) returns (r: bool)
    ensures r <==> obj in path
  {
    var i := 0;
    while i < |path|
      invariant i <= |path| && obj !in path[..i]
    {
      if path[i] == obj { return true; }
      i := i + 1;
    }
    return false;
  }

  ghost function Nodes(path: seq<int>): set<int> { set i | 0 <= i < |path| :: path[i] }

  /** wrappedp, on every graph.  Only the head of a list is put on the path; its
      tail is followed until Floyd's pointers meet.  The answer is true exactly if a
      far symbol is reached along branches of objects that are not on the path. */
  method Wrappedp(h: Heap, obj: Obj, path: seq<int>) returns (r: bool)
    requires forall a :: a in Nodes(path) ==> a in h
    ensures r <==> FarBranch(h, obj, Nodes(path))
    decreases |h.Keys - Nodes(path)|, 1
  {
    if IsFar(h, obj) {
      FarIsFarBranch(h, obj, Nodes(path));
      return true;
    }
    if !IsPair(h, obj) && !IsVector(h, obj) {
      NoBranch(h, obj, Nodes(path));
      return false;
    }
    var on := OnPathp(obj.addr, path);
    if on {
      NoBranch(h, obj, Nodes(path));
      return false;
    }
    MorePath(h, path, obj.addr);
    if IsVector(h, obj) {
      r := WrappedVector(h, obj, path);
    } else {
      r := WrappedList(h, obj, path);
    }
  }

  lemma MorePath(h: Heap, path: seq<int>, a: int)
    requires a in h && a !in Nodes(path)
    ensures |h.Keys - Nodes(path + [a])| < |h.Keys - Nodes(path)|
  {
    NodesPush(path, a);
    assert a in h.Keys - Nodes(path);
    SubsetSize(h.Keys - Nodes(path + [a]), h.Keys - Nodes(path));
  }

  /** wrappedp(obj, NULL). */
  method ContainsFarSymbol(h: Heap, obj: Obj) returns (r: bool)
    ensures r <==> HasFar(h, obj, {})
  {
    assert Nodes([]) == {};
    r := Wrappedp(h, obj, []);
    FarBranchBetween(h, obj, {});
  }

  lemma NodesPush(path: seq<int>, a: int)
    ensures Nodes(path + [a]) == Nodes(path) + {a}
  {
    forall x | x in Nodes(path) + {a} ensures x in Nodes(path + [a]) {
      if x == a {
        assert (path + [a])[|path|] == a;
      } else {
        var i :| 0 <= i < |path| && path[i] == x;
        assert (path + [a])[i] == x;
      }
    }
  }

  method WrappedVector(h: Heap, obj: Obj, path: seq<int>) returns (r: bool)
    requires IsVector(h, obj) && obj.addr !in Nodes(path) && forall a :: a in Nodes(path) ==> a in h
    ensures r <==> FarBranch(h, obj, Nodes(path))
    decreases |h.Keys - Nodes(path + [obj.addr])|, 2
  {
    hide FarBranch;
    var current, elems := path + [obj.addr], h[obj.addr].elems;
    NodesPush(path, obj.addr);
    FarBranchStep(h, obj, Nodes(path));
    var i := 0;
    while i < |elems|
      invariant i <= |elems| && forall k :: 0 <= k < i ==> !FarBranch(h, elems[k], Nodes(current))
    {
      var found := Wrappedp(h, elems[i], current);
      if found {
        assert Branch(h, obj, elems[i]);
        return true;
      }
      i := i + 1;
    }
    return false;
  }

  method WrappedList(h: Heap, obj: Obj, path: seq<int>) returns (r: bool)
    requires IsPair(h, obj) && obj.addr !in Nodes(path) && forall a :: a in Nodes(path) ==> a in h
    ensures r <==> FarBranch(h, obj, Nodes(path))
    decreases |h.Keys - Nodes(path + [obj.addr])|, 2
  {
    hide FarBranch, Nth, BranchAt, Listed;
    var current := path + [obj.addr];
    var lst, slow, advanceSlow := obj, obj, false;
    ghost var i := 0;
    NoneListed(h, obj);
    while IsPair(h, lst)
      invariant lst == Nth(h, obj, i) && advanceSlow == (i % 2 == 1) && slow == Nth(h, obj, i / 2)
      invariant 0 <= i <= 2 * |h| && Listed(h, obj, i) && (i > 0 ==> lst != slow)
      invariant forall k :: 0 <= k < i ==> !FarBranch(h, BranchAt(h, obj, k), Nodes(current))
      decreases 2 * |h| - i
    {
      OneListed(h, obj, i);
      var found := Wrappedp(h, Car(h, lst), current);
      if found {
        ListHas(h, obj, path, i);
        return true;
      }
      if advanceSlow {
        ListedAt(h, obj, i, i / 2);
        slow := Cdr(h, slow);
      }
      advanceSlow := !advanceSlow;
      i := i + 1;
      if Cdr(h, lst) == slow {
        CycleHasNone(h, obj, path, i);
        return false;
      }
      lst := Cdr(h, lst);
    }
    ListEnds(h, obj, i);
    r := Wrappedp(h, lst, current);
    if r { ListHas(h, obj, path, i); } else { ListHasNone(h, obj, path, i); }
  }

  /** The first n pairs, in which the cycle has not closed. */
  ghost predicate Listed(h: Heap, o: Obj, n: nat) {
    (forall k :: 0 <= k < n ==> IsPair(h, Nth(h, o, k))) && forall k :: 0 < k < n ==> Nth(h, o, k) != Nth(h, o, k / 2)
  }

  lemma NoneListed(h: Heap, o: Obj)
    ensures Listed(h, o, 0) && Nth(h, o, 0) == o
  {
  }

  lemma OneListed(h: Heap, o: Obj, n: nat)
    requires Listed(h, o, n) && IsPair(h, Nth(h, o, n)) && (n > 0 ==> Nth(h, o, n) != Nth(h, o, n / 2))
    ensures Listed(h, o, n + 1) && n + 1 <= 2 * |h|
    ensures Nth(h, o, n + 1) == Cdr(h, Nth(h, o, n)) && BranchAt(h, o, n) == Car(h, Nth(h, o, n))
  {
    Bounded(h, o, n + 1);
  }

  lemma ListedAt(h: Heap, o: Obj, n: nat, k: nat)
    requires Listed(h, o, n) && k < n
    ensures IsPair(h, Nth(h, o, k)) && Nth(h, o, k + 1) == Cdr(h, Nth(h, o, k))
  {
  }

  lemma ListEnds(h: Heap, o: Obj, n: nat)
    requires Listed(h, o, n) && !IsPair(h, Nth(h, o, n))
    ensures Ends(h, o, n) && BranchAt(h, o, n) == Nth(h, o, n)
  {
  }

  lemma ListHas(h: Heap, obj: Obj, path: seq<int>, k: nat)
    requires IsPair(h, obj) && obj.addr !in Nodes(path) && FarBranch(h, BranchAt(h, obj, k), Nodes(path + [obj.addr]))
    ensures FarBranch(h, obj, Nodes(path))
  {
    hide FarBranch, BranchAt;
    NodesPush(path, obj.addr);
    assert Branch(h, obj, BranchAt(h, obj, k));
    FarBranchStep(h, obj, Nodes(path));
  }

  /** No car of the n pairs and not the end: nowhere. */
  lemma ListHasNone(h: Heap, obj: Obj, path: seq<int>, n: nat)
    requires Ends(h, obj, n) && IsPair(h, obj) && obj.addr !in Nodes(path)
    requires forall k :: 0 <= k <= n ==> !FarBranch(h, BranchAt(h, obj, k), Nodes(path + [obj.addr]))
    ensures !FarBranch(h, obj, Nodes(path))
  {
    hide FarBranch;
    NodesPush(path, obj.addr);
    FarBranchStep(h, obj, Nodes(path));
    forall k: nat ensures !FarBranch(h, BranchAt(h, obj, k), Nodes(path + [obj.addr])) {
      if k > n {
        NthStays(h, obj, n, k);
        assert BranchAt(h, obj, k) == BranchAt(h, obj, n);
      }
    }
  }

  /** No car before the cycle closes: nowhere. */
  lemma CycleHasNone(h: Heap, obj: Obj, path: seq<int>, n: nat)
    requires n > 0 && Nth(h, obj, n) == Nth(h, obj, n / 2) && IsPair(h, obj) && obj.addr !in Nodes(path)
    requires forall k :: 0 <= k < n ==> !FarBranch(h, BranchAt(h, obj, k), Nodes(path + [obj.addr]))
    ensures !FarBranch(h, obj, Nodes(path))
  {
    hide FarBranch, Nth;
    NodesPush(path, obj.addr);
    FarBranchStep(h, obj, Nodes(path));
    forall k: nat ensures !FarBranch(h, BranchAt(h, obj, k), Nodes(path + [obj.addr])) {
      var m := OnlyThose(h, obj, n / 2, n, k);
      assert BranchAt(h, obj, k) == BranchAt(h, obj, m);
    }
  }

  lemma {:induction false} NthStays(h: Heap, o: Obj, n: nat, k: nat)
    requires !IsPair(h, Nth(h, o, n)) && n <= k
    ensures Nth(h, o, k) == Nth(h, o, n)
    decreases k
  {
    if n < k { NthStays(h, o, n, k - 1); }
  }
}
