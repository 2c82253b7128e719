/** The mark and sweep collector (src/storage-gc.c, fatty storage): recursive
    marking of a cyclic heap, a sweep onto the freelist, heap growth, and the
    table of protected variables. */
module Collector {
  import opened Forms

  const CELL_SIZE := 16

  /** A word that refers to a cell, or a constant. */
  datatype Obj = Const(val: int) | Ref(addr: int)

  const NULL := Const(0)

  datatype Cell =
    | Free(next: Obj)
    | Cons(car: Obj, cdr: Obj)
    | Symbol(vcell: Obj)
    | Closure(exp: Obj, env: Obj)
    | Macro(rules: Obj)
    | Farsymbol(sym: Obj)
    | Subpat(obj: Obj)
    | ValuePacket(values: Obj)
    | Vector(elems: seq<Obj>)
    | Other

  /** What mark_obj follows, in its order. */
  function Kids(c: Cell): seq<Obj> {
    match c
    case Cons(a, d) => [a, d]
    case Symbol(v) => [v]
    case Closure(e, v) => [e, v]
    case Macro(r) => [r]
    case Farsymbol(s) => [s]
    case Subpat(o) => [o]
    case ValuePacket(v) => [v]
    case Vector(elems) => elems
    case _ => []
  }

  type Heap = map<int, Cell>

  /* ---- Reachability ---- */

  ghost predicate Path(h: Heap, p: seq<int>) {
    |p| > 0 && (forall i :: 0 <= i < |p| ==> p[i] in h) &&
    forall i {:trigger h[p[i]]} :: 0 <= i < |p| - 1 ==> Ref(p[i + 1]) in Kids(h[p[i]])
  }

  ghost predicate Reaches(h: Heap, roots: set<int>, a: int) {
    exists p: seq<int> :: Path(h, p) && p[0] in roots && p[|p| - 1] == a
  }

  /** A field of the cell refers to the object. */
  predicate Holds(c: Cell, o: Obj) {
    (c.Cons? && (c.car == o || c.cdr == o)) || (c.Symbol? && c.vcell == o) ||
    (c.Closure? && (c.exp == o || c.env == o)) || (c.Macro? && c.rules == o) || (c.Farsymbol? && c.sym == o) ||
    (c.Subpat? && c.obj == o) || (c.ValuePacket? && c.values == o) || (c.Vector? && o in c.elems)
  }

  /** Each cell has a field that refers to the next. */
  ghost predicate Chained(h: Heap, p: seq<int>) {
    |p| > 0 && (forall i :: 0 <= i < |p| ==> p[i] in h) &&
    forall i {:trigger h[p[i]]} :: 0 <= i < |p| - 1 ==> Holds(h[p[i]], Ref(p[i + 1]))
  }

  lemma ChainedIsPath(h: Heap, p: seq<int>)
    ensures Chained(h, p) <==> Path(h, p)
  {
    forall c, o ensures o in Kids(c) <==> Holds(c, o) { KidsAreFields(c, o); }
  }

  lemma KidsAreFields(c: Cell, o: Obj)
    ensures o in Kids(c) <==> Holds(c, o)
  {
  }

  /** No reference leaves the heap. */
  ghost predicate Closed(h: Heap) {
    forall a, o :: a in h && o in Kids(h[a]) && o.Ref? ==> o.addr in h
  }

  lemma ReachesSelf(h: Heap, a: int)
    requires a in h
    ensures Reaches(h, {a}, a)
  {
    assert Path(h, [a]) && [a][0] in {a} && [a][|[a]| - 1] == a;
  }

  lemma ReachesKid(h: Heap, roots: set<int>, a: int, k: int)
    requires Reaches(h, roots, a) && a in h && k in h && Ref(k) in Kids(h[a])
    ensures Reaches(h, roots, k)
  {
    var p: seq<int> :| Path(h, p) && p[0] in roots && p[|p| - 1] == a;
    var q := p + [k];
    forall i {:trigger h[q[i]]} | 0 <= i < |q| - 1 ensures Ref(q[i + 1]) in Kids(h[q[i]]) {
      if i < |p| - 1 { assert q[i] == p[i] && q[i + 1] == p[i + 1] && Ref(p[i + 1]) in Kids(h[p[i]]); }
    }
    assert Path(h, q) && q[0] in roots && q[|q| - 1] == k;
  }

  lemma ReachesOn(h: Heap, roots: set<int>, a: int, b: int)
    requires Reaches(h, roots, a) && Reaches(h, {a}, b)
    ensures Reaches(h, roots, b)
  {
    var p: seq<int> :| Path(h, p) && p[0] in roots && p[|p| - 1] == a;
    var q: seq<int> :| Path(h, q) && q[0] in {a} && q[|q| - 1] == b;
    var r := p + q[1..];
    forall i {:trigger h[r[i]]} | 0 <= i < |r| - 1 ensures Ref(r[i + 1]) in Kids(h[r[i]]) {
      if i < |p| - 1 { assert r[i] == p[i] && r[i + 1] == p[i + 1] && Ref(p[i + 1]) in Kids(h[p[i]]); }
      else {
        var j := i - (|p| - 1);
        assert r[i] == q[j] && r[i + 1] == q[j + 1] && Ref(q[j + 1]) in Kids(h[q[j]]);
      }
    }
    assert Path(h, r) && r[0] in roots && r[|r| - 1] == b;
  }

  /** A set that contains the roots and what its members refer to contains
      everything that can be reached. */
  lemma {:induction false} ClosedSetReaches(h: Heap, roots: set<int>, m: set<int>, p: seq<int>)
    requires Path(h, p) && p[0] in roots && roots <= m && Saturated(h, m, {}, NULL)
    ensures p[|p| - 1] in m
    decreases |p|
  {
    if |p| > 1 {
      var q := p[..|p| - 1];
      assert forall i :: 0 <= i < |q| ==> q[i] == p[i];
      assert Path(h, q) by {
        forall i {:trigger h[q[i]]} | 0 <= i < |q| - 1 ensures Ref(q[i + 1]) in Kids(h[q[i]]) {
          assert q[i] == p[i] && Ref(p[i + 1]) in Kids(h[p[i]]);
        }
      }
      ClosedSetReaches(h, roots, m, q);
      var a := p[|p| - 2];
      assert h[a] == h[p[|p| - 2]] && Ref(p[|p| - 1]) in Kids(h[a]);
    }
  }

  lemma SaturatedReaches(h: Heap, roots: set<int>, m: set<int>)
    requires roots <= m && Saturated(h, m, {}, NULL)
    ensures forall a :: Reaches(h, roots, a) ==> a in m
  {
    forall a | Reaches(h, roots, a) ensures a in m {
      var p: seq<int> :| Path(h, p) && p[0] in roots && p[|p| - 1] == a;
      ClosedSetReaches(h, roots, m, p);
    }
  }

  /** Every marked cell that is not gray has its kids marked, `o` excepted. */
  ghost predicate Saturated(h: Heap, marked: set<int>, gray: set<int>, o: Obj) {
    forall a, k :: a in marked && a !in gray && a in h && k in Kids(h[a]) && k.Ref? ==> k.addr in marked || k == o
  }

  /* ---- The freelist ---- */

  function Head(free: seq<int>): Obj {
    if free == [] then NULL else Ref(free[0])
  }

  /** The freelist runs through exactly the free cells, each of them once. */
  ghost predicate Freelist(h: Heap, head: Obj, free: seq<int>) {
    head == Head(free) &&
    (forall i :: 0 <= i < |free| ==> free[i] in h && h[free[i]] == Free(Head(free[i + 1..]))) &&
    (forall a :: a in h && h[a].Free? ==> a in free) &&
    (forall i, j :: 0 <= i < j < |free| ==> free[i] != free[j])
  }

  lemma FreelistPush(h: Heap, head: Obj, free: seq<int>, a: int)
    requires Freelist(h, head, free) && (a in h ==> !h[a].Free?)
    ensures Freelist(h[a := Free(head)], Ref(a), [a] + free)
  {
    var h', free' := h[a := Free(head)], [a] + free;
    forall i | 0 <= i < |free'| ensures free'[i] in h' && h'[free'[i]] == Free(Head(free'[i + 1..])) {
      if i == 0 { assert free'[1..] == free; }
      else { assert free'[i] == free[i - 1] && free'[i + 1..] == free[i..]; }
    }
    forall b | b in h' && h'[b].Free? ensures b in free' { if b != a { assert b in free; } }
  }

  lemma FreelistPop(h: Heap, head: Obj, free: seq<int>, c: Cell)
    requires Freelist(h, head, free) && free != [] && !c.Free?
    ensures Freelist(h[free[0] := c], Head(free[1..]), free[1..]) && h[free[0]].next == Head(free[1..])
  {
    var rest := free[1..];
    forall i | 0 <= i < |rest| ensures h[free[0] := c][rest[i]] == Free(Head(rest[i + 1..])) {
      assert rest[i] == free[i + 1] && rest[i + 1..] == free[i + 2..];
    }
    forall b | b in h[free[0] := c] && h[free[0] := c][b].Free? ensures b in rest {
      assert b in free;
      var i :| 0 <= i < |free| && free[i] == b;
      assert rest[i - 1] == b;
    }
  }

  /* ---- Heaps ---- */

  predicate InHeap(base: int, size: nat, a: int) {
    base <= a < base + CELL_SIZE * size && (a - base) % CELL_SIZE == 0
  }

  predicate InHeaps(heaps: seq<int>, size: nat, a: int) {
    exists i :: 0 <= i < |heaps| && InHeap(heaps[i], size, a)
  }

  ghost predicate Disjoint(heaps: seq<int>, size: nat) {
    forall i, j, a :: 0 <= i < j < |heaps| && InHeap(heaps[i], size, a) ==> !InHeap(heaps[j], size, a)
  }

  lemma DisjointGrown(heaps: seq<int>, base: int, size: nat)
    requires Disjoint(heaps, size) && forall a :: InHeap(base, size, a) ==> !InHeaps(heaps, size, a)
    ensures Disjoint(heaps + [base], size)
  {
    var heaps' := heaps + [base];
    forall i, j, a | 0 <= i < j < |heaps'| && InHeap(heaps'[i], size, a) ensures !InHeap(heaps'[j], size, a) {
      if j < |heaps| { assert heaps'[i] == heaps[i] && heaps'[j] == heaps[j]; }
      else { assert heaps'[i] == heaps[i] && InHeaps(heaps, size, a); }
    }
  }

  /** What a collection leaves of the heap `h`. */
  ghost predicate Collected(h: Heap, roots: set<int>, h': Heap) {
    h'.Keys == h.Keys &&
    forall a :: a in h ==>
      if h[a].Free? || Reaches(h, roots, a) then h'[a] == h[a] else h'[a].Free?
  }

  ghost function Garbage(h: Heap, roots: set<int>): set<int> {
    set a | a in h && !h[a].Free? && !Reaches(h, roots, a)
  }

  function CountEmpty(slots: seq<Option<int>>): nat {
    if slots == [] then 0 else CountEmpty(slots[1..]) + if slots[0].None? then 1 else 0
  }

  datatype Allocation = Allocated(addr: int) | HeapExhausted | NoFreeCell

  class Storage {
    const heapSize: nat
    const threshold: nat
    const maxHeaps: nat
    var heaps: seq<int>               // the addresses of the heaps
    var lowest: int
    var highest: int
    var cells: Heap
    var marked: set<int>              // the cells whose mark bit is set
    var freelist: Obj
    var slots: seq<Option<int>>       // protected variables; None is an empty slot
    var emptySlots: nat
    var vars: map<int, Obj>           // the values of the variables
    var vectorElements: seq<Obj>      // the elements of a vector under allocation
    var symbolHash: seq<Obj>
    ghost var free: seq<int>

    ghost predicate Valid() reads this {
      HeapsOk() && Closed(cells) && RootsOk() && marked == {} && Freelist(cells, freelist, free) &&
      |heaps| <= maxHeaps && emptySlots == CountEmpty(slots)
    }

    ghost predicate HeapsOk() reads this {
      (forall a :: a in cells <==> InHeaps(heaps, heapSize, a)) &&
      (forall i :: 0 <= i < |heaps| ==>
        heaps[i] % CELL_SIZE == 0 && lowest <= heaps[i] && heaps[i] + CELL_SIZE * heapSize <= highest) &&
      Disjoint(heaps, heapSize)
    }

    ghost predicate RootsOk() reads this {
      (forall i :: 0 <= i < |slots| && slots[i].Some? ==> slots[i].value in vars) &&
      (forall v :: v in vars && vars[v].Ref? ==> vars[v].addr in cells) &&
      (forall o :: o in vectorElements && o.Ref? ==> o.addr in cells) &&
      (forall o :: o in symbolHash && o.Ref? ==> o.addr in cells)
    }

    /** The storage before its first heap. */
    constructor (heapSize: nat, threshold: nat, maxHeaps: nat, topAddress: int, symbolHash: seq<Obj>)
      requires forall o :: o in symbolHash ==> o.Const?
      ensures Valid() && cells == map[] && heaps == [] && free == [] && slots == [] && vars == map[]
      ensures this.heapSize == heapSize && this.threshold == threshold && this.maxHeaps == maxHeaps
    {
      this.heapSize, this.threshold, this.maxHeaps, this.symbolHash := heapSize, threshold, maxHeaps, symbolHash;
      heaps, lowest, highest, cells, marked := [], topAddress, 0, map[], {};
      freelist, free, slots, emptySlots, vars, vectorElements := NULL, [], [], 0, map[], [];
    }

    /** The cells that are live by themselves: those that a stack word, a protected
        variable, a vector under allocation or the symbol table refers to. */
    ghost function Roots(stack: seq<int>): set<int> reads this {
      RootsWith(stack, vectorElements)
    }

    ghost function RootsWith(stack: seq<int>, elements: seq<Obj>): set<int> reads this {
      (set w | w in stack && w in cells) +
      (set i | 0 <= i < |slots| && slots[i].Some? && slots[i].value in vars && vars[slots[i].value].Ref?
        :: vars[slots[i].value].addr) +
      (set o | o in elements && o.Ref? :: o.addr) + (set o | o in symbolHash && o.Ref? :: o.addr)
    }

    /** Something outside the heap refers to the cell. */
    ghost predicate HeldOutside(stack: seq<int>, a: int) reads this {
      (a in stack && a in cells) || Ref(a) in symbolHash || Ref(a) in vectorElements ||
      exists i :: 0 <= i < |slots| && slots[i].Some? && slots[i].value in vars && vars[slots[i].value] == Ref(a)
    }

    /** A chain of fields leads to the cell from something outside the heap. */
    ghost predicate Live(stack: seq<int>, a: int) reads this {
      exists p: seq<int> :: Chained(cells, p) && HeldOutside(stack, p[0]) && p[|p| - 1] == a
    }

    lemma LiveIsReached(stack: seq<int>, a: int)
      ensures Live(stack, a) <==> Reaches(cells, Roots(stack), a)
    {
      forall b ensures HeldOutside(stack, b) <==> b in Roots(stack) { HeldIsRoot(stack, b); }
      if Live(stack, a) {
        var p: seq<int> :| Chained(cells, p) && HeldOutside(stack, p[0]) && p[|p| - 1] == a;
        ChainedIsPath(cells, p);
      }
      if Reaches(cells, Roots(stack), a) {
        var p: seq<int> :| Path(cells, p) && p[0] in Roots(stack) && p[|p| - 1] == a;
        ChainedIsPath(cells, p);
        assert HeldOutside(stack, p[0]);
      }
    }

    /** An allocation takes no live cell. */
    lemma LiveNotSpare(stack: seq<int>, a: int)
      requires a in cells
      ensures Spare(cells, Roots(stack), a) <==> cells[a].Free? || !Live(stack, a)
    {
      hide Live, Reaches;
      LiveIsReached(stack, a);
    }

    lemma HeldIsRoot(stack: seq<int>, b: int)
      ensures HeldOutside(stack, b) <==> b in Roots(stack)
    {
      if b in Roots(stack) {
        if o :| o in vectorElements && o == Ref(b) { }
        if o :| o in symbolHash && o == Ref(b) { }
      }
    }

    /** within_heapp */
    method WithinHeap(ptr: int) returns (within: bool)
      requires HeapsOk()
      ensures within <==> ptr in cells
    {
      if ptr % CELL_SIZE != 0 || ptr < lowest || highest <= ptr { return false; }
      var i := 0;
      while i < |heaps|
        invariant 0 <= i <= |heaps| && forall j :: 0 <= j < i ==> !InHeap(heaps[j], heapSize, ptr)
      {
        if heaps[i] <= ptr && ptr < heaps[i] + CELL_SIZE * heapSize {
          assert InHeap(heaps[i], heapSize, ptr);
          return true;
        }
        i := i + 1;
      }
      within := false;
    }

    /** mark_obj: marks `obj` and all that it leads to, and nothing else. */
    method MarkObj(obj: Obj, ghost gray: set<int>)
      requires Closed(cells) && marked <= cells.Keys && (obj.Ref? ==> obj.addr in cells)
      requires Saturated(cells, marked, gray, NULL)
      modifies this`marked
      ensures old(marked) <= marked <= cells.Keys && (obj.Ref? ==> obj.addr in marked)
      ensures Saturated(cells, marked, gray, NULL)
      ensures forall a :: a in marked && a !in old(marked) ==> obj.Ref? && Reaches(cells, {obj.addr}, a)
      decreases cells.Keys - marked, 1
    {
      var o := obj;
      if obj.Ref? { ReachesSelf(cells, obj.addr); }
      while true
        invariant old(marked) <= marked <= cells.Keys && (o.Ref? ==> o.addr in cells)
        invariant o == obj || (obj.Ref? && obj.addr in marked)
        invariant Saturated(cells, marked, gray, o)
        invariant o.Ref? ==> obj.Ref? && Reaches(cells, {obj.addr}, o.addr)
        invariant forall a :: a in marked && a !in old(marked) ==> obj.Ref? && Reaches(cells, {obj.addr}, a)
        decreases cells.Keys - marked
      {
        if o.Const? { return; }
        if o.addr in marked { return; }
        marked := marked + {o.addr};
        ghost var at := o.addr;
        o := MarkAllButLast(o.addr, gray, obj);
        if o.Ref? { ReachesKid(cells, {obj.addr}, at, o.addr); }
      }
    }

    /** The switch of mark_obj on the cell just marked: all kids but the last are
        marked recursively, and the last one is left to the loop. */
    method MarkAllButLast(at: int, ghost gray: set<int>, ghost obj: Obj) returns (last: Obj)
      requires Closed(cells) && marked <= cells.Keys && at in marked
      requires obj.Ref? && Reaches(cells, {obj.addr}, at) && Saturated(cells, marked, gray + {at}, NULL)
      modifies this`marked
      ensures old(marked) <= marked <= cells.Keys && Saturated(cells, marked, gray, last)
      ensures last.Ref? ==> last in Kids(cells[at])
      ensures forall a :: a in marked && a !in old(marked) ==> Reaches(cells, {obj.addr}, a)
      decreases cells.Keys - marked, 4
    {
      match cells[at] {
        case Cons(car, cdr) => MarkKid(car, gray, obj, at); return cdr;
        case Symbol(vcell) => return vcell;
        case Closure(exp, env) => MarkKid(exp, gray, obj, at); return env;
        case Macro(rules) => return rules;
        case Farsymbol(sym) => return sym;
        case Subpat(sub) => return sub;
        case ValuePacket(values) => return values;
        case Vector(elems) => MarkElements(elems, gray, obj, at); return NULL;
        case _ => return NULL;
      }
    }

    /** The recursive call on a kid of the cell `at` that was just marked. */
    method MarkKid(kid: Obj, ghost gray: set<int>, ghost obj: Obj, ghost at: int)
      requires Closed(cells) && marked <= cells.Keys && at in marked && kid in Kids(cells[at])
      requires obj.Ref? && Reaches(cells, {obj.addr}, at) && Saturated(cells, marked, gray + {at}, NULL)
      modifies this`marked
      ensures old(marked) <= marked <= cells.Keys && (kid.Ref? ==> kid.addr in marked)
      ensures Saturated(cells, marked, gray + {at}, NULL)
      ensures forall a :: a in marked && a !in old(marked) ==> Reaches(cells, {obj.addr}, a)
      decreases cells.Keys - marked, 2
    {
      MarkObj(kid, gray + {at});
      forall a | a in marked && a !in old(marked) ensures Reaches(cells, {obj.addr}, a) {
        ReachesKid(cells, {obj.addr}, at, kid.addr);
        ReachesOn(cells, {obj.addr}, kid.addr, a);
      }
    }

    method MarkElements(elems: seq<Obj>, ghost gray: set<int>, ghost obj: Obj, ghost at: int)
      requires Closed(cells) && marked <= cells.Keys && at in marked && Kids(cells[at]) == elems
      requires obj.Ref? && Reaches(cells, {obj.addr}, at) && Saturated(cells, marked, gray + {at}, NULL)
      modifies this`marked
      ensures old(marked) <= marked <= cells.Keys && Saturated(cells, marked, gray, NULL)
      ensures forall a :: a in marked && a !in old(marked) ==> Reaches(cells, {obj.addr}, a)
      decreases cells.Keys - marked, 3
    {
      var i := 0;
      while i < |elems|
        invariant 0 <= i <= |elems| && old(marked) <= marked <= cells.Keys
        invariant Saturated(cells, marked, gray + {at}, NULL)
        invariant forall j :: 0 <= j < i && elems[j].Ref? ==> elems[j].addr in marked
        invariant forall a :: a in marked && a !in old(marked) ==> Reaches(cells, {obj.addr}, a)
      {
        ghost var before := marked;
        MarkKid(elems[i], gray, obj, at);
        i := i + 1;
      }
    }

    /** gc_mark: stack words, protected variables, the vector under allocation and
        the symbol table. */
    method Mark(stack: seq<int>)
      requires HeapsOk() && Closed(cells) && RootsOk() && marked == {}
      modifies this`marked
      ensures marked <= cells.Keys && forall a :: a in marked <==> a in cells && Reaches(cells, Roots(stack), a)
    {
      MarkStack(stack);
      MarkProtected(stack);
      MarkLocations(vectorElements, stack);
      MarkLocations(symbolHash, stack);
      RootsMarked(stack);
      SaturatedReaches(cells, Roots(stack), marked);
    }

    /** gc_mark_locations_n: words of the stack that are not the address of a cell
        are ignored. */
    method MarkStack(stack: seq<int>)
      requires HeapsOk() && Closed(cells) && Marking(stack)
      modifies this`marked
      ensures Marking(stack) && old(marked) <= marked
      ensures forall j :: 0 <= j < |stack| && stack[j] in cells ==> stack[j] in marked
    {
      hide Saturated, Reaches;
      var i := 0;
      while i < |stack|
        invariant 0 <= i <= |stack| && Marking(stack) && old(marked) <= marked
        invariant forall j :: 0 <= j < i && stack[j] in cells ==> stack[j] in marked
      {
        var within := WithinHeap(stack[i]);
        if within { MarkRoot(Ref(stack[i]), stack); }
        i := i + 1;
      }
    }

    /** gc_mark_protected_var */
    method MarkProtected(ghost stack: seq<int>)
      requires Closed(cells) && RootsOk() && Marking(stack)
      modifies this`marked
      ensures Marking(stack) && old(marked) <= marked
      ensures forall j ::
        0 <= j < |slots| && slots[j].Some? && vars[slots[j].value].Ref? ==> vars[slots[j].value].addr in marked
    {
      hide Saturated, Reaches;
      var i := 0;
      while i < |slots|
        invariant 0 <= i <= |slots| && Marking(stack) && old(marked) <= marked
        invariant forall j ::
          0 <= j < i && slots[j].Some? && vars[slots[j].value].Ref? ==> vars[slots[j].value].addr in marked
      {
        if slots[i].Some? {
          SlotIsRoot(i, stack);
          MarkRoot(vars[slots[i].value], stack);
        }
        i := i + 1;
      }
    }

    lemma RootsMarked(stack: seq<int>)
      requires RootsOk() && forall j :: 0 <= j < |stack| && stack[j] in cells ==> stack[j] in marked
      requires forall j ::
        0 <= j < |slots| && slots[j].Some? && vars[slots[j].value].Ref? ==> vars[slots[j].value].addr in marked
      requires forall o :: o in vectorElements && o.Ref? ==> o.addr in marked
      requires forall o :: o in symbolHash && o.Ref? ==> o.addr in marked
      ensures Roots(stack) <= marked
    {
      forall a | a in Roots(stack) ensures a in marked {
        if i :| 0 <= i < |slots| && slots[i].Some? && slots[i].value in vars && vars[slots[i].value] == Ref(a) {}
      }
    }

    lemma SlotIsRoot(i: nat, stack: seq<int>)
      requires RootsOk() && i < |slots| && slots[i].Some?
      ensures slots[i].value in vars
      ensures var o := vars[slots[i].value]; o.Ref? ==> o.addr in cells && o.addr in Roots(stack)
    {
      var v := slots[i].value;
      assert vars[v].Ref? ==> vars[v].addr in cells;
    }

    ghost predicate Marking(stack: seq<int>) reads this {
      marked <= cells.Keys && Saturated(cells, marked, {}, NULL) &&
      forall a :: a in marked ==> Reaches(cells, Roots(stack), a)
    }

    method MarkRoot(o: Obj, ghost stack: seq<int>)
      requires Closed(cells) && Marking(stack) && (o.Ref? ==> o.addr in cells && o.addr in Roots(stack))
      modifies this`marked
      ensures Marking(stack) && old(marked) <= marked && (o.Ref? ==> o.addr in marked)
    {
      MarkObj(o, {});
      forall a | a in marked && a !in old(marked) ensures Reaches(cells, Roots(stack), a) {
        var p: seq<int> :| Path(cells, p) && p[0] in {o.addr} && p[|p| - 1] == a;
        assert p[0] in Roots(stack);
      }
    }

    /** gc_mark_definite_locations_n */
    method MarkLocations(start: seq<Obj>, ghost stack: seq<int>)
      requires Closed(cells) && Marking(stack)
      requires forall o :: o in start && o.Ref? ==> o.addr in cells && o.addr in Roots(stack)
      modifies this`marked
      ensures Marking(stack) && old(marked) <= marked && forall o :: o in start && o.Ref? ==> o.addr in marked
    {
      hide Saturated, Reaches;
      var i := 0;
      while i < |start|
        invariant 0 <= i <= |start| && Marking(stack) && old(marked) <= marked
        invariant forall j :: 0 <= j < i && start[j].Ref? ==> start[j].addr in marked
      {
        MarkRoot(start[i], stack);
        i := i + 1;
      }
    }

    /** gc_sweep: unmarks the marked cells and reclaims the other allocated ones;
        cells that are free already keep their place in the freelist. */
    method Sweep() returns (collected: nat)
      requires HeapsOk() && marked <= cells.Keys && Freelist(cells, freelist, free)
      modifies this`marked, this`cells, this`freelist, this`free
      ensures marked == {} && cells.Keys == old(cells).Keys && Freelist(cells, freelist, free)
      ensures forall a :: a in cells ==>
        if old(cells)[a].Free? || a in old(marked) then cells[a] == old(cells)[a] else cells[a].Free?
      ensures collected == |set a | a in old(cells) && !old(cells)[a].Free? && a !in old(marked)|
    {
      hide Freelist;
      collected := 0;
      ghost var h0, m0, seen: set<int>, swept: set<int> := cells, marked, {}, {};
      var i := 0;
      while i < |heaps|
        invariant 0 <= i <= |heaps| && heaps == old(heaps)
        invariant Sweeping(h0, m0, cells, marked, freelist, free, seen, swept) && collected == |swept|
        invariant forall a :: a in seen <==> InHeaps(heaps[..i], heapSize, a)
      {
        forall a | InHeap(heaps[i], heapSize, a) ensures a in cells && a !in seen {
          assert InHeaps(heaps, heapSize, a);
          assert forall j :: 0 <= j < i ==> heaps[..i][j] == heaps[j] && !InHeap(heaps[j], heapSize, a);
        }
        var n;
        n, seen, swept := SweepHeap(i, h0, m0, seen, swept);
        collected := collected + n;
        HeapsGrown(heaps[..i], heaps[i], heapSize);
        assert heaps[..i + 1] == heaps[..i] + [heaps[i]];
        i := i + 1;
      }
      assert heaps[..i] == heaps;
      assert forall a :: a in h0 ==> InHeaps(heaps, heapSize, a);
      assert forall a :: a in h0.Keys ==> a in seen;
      assert seen == h0.Keys;
      assert swept == set a | a in h0 && !h0[a].Free? && a !in m0;
    }

    /** The inner loop of gc_sweep, over the cells of one heap. */
    method SweepHeap(i: nat, ghost h0: Heap, ghost m0: set<int>, ghost seen0: set<int>, ghost swept0: set<int>)
      returns (collected: nat, ghost seen: set<int>, ghost swept: set<int>)
      requires i < |heaps| && (forall a :: InHeap(heaps[i], heapSize, a) ==> a in cells && a !in seen0)
      requires Sweeping(h0, m0, cells, marked, freelist, free, seen0, swept0)
      modifies this`marked, this`cells, this`freelist, this`free
      ensures Sweeping(h0, m0, cells, marked, freelist, free, seen, swept)
      ensures |swept| == |swept0| + collected
      ensures forall a :: a in seen <==> a in seen0 || InHeap(heaps[i], heapSize, a)
    {
      hide Freelist;
      collected, seen, swept := 0, seen0, swept0;
      var k := 0;
      while k < heapSize
        invariant 0 <= k <= heapSize && cells.Keys == old(cells).Keys
        invariant Sweeping(h0, m0, cells, marked, freelist, free, seen, swept) && |swept| == |swept0| + collected
        invariant forall a :: a in seen <==> a in seen0 || InHeap(heaps[i], k, a)
      {
        var cell := heaps[i] + CELL_SIZE * k;
        NextCell(heaps[i], k, heapSize);
        SweepOne(h0, m0, cells, marked, freelist, free, seen, swept, cell);
        if cell in marked {
          marked := marked - {cell};
        } else if !cells[cell].Free? {
          cells := cells[cell := Free(freelist)];
          freelist := Ref(cell);
          free, swept := [cell] + free, swept + {cell};
          collected := collected + 1;
        }
        seen := seen + {cell};
        k := k + 1;
      }
    }

    /** add_heap; `base` is what the memory allocator returns. */
    method AddHeap(base: int) returns (ok: bool)
      requires HeapsOk() && Freelist(cells, freelist, free)
      requires base % CELL_SIZE == 0 && forall a :: InHeap(base, heapSize, a) ==> a !in cells
      modifies this`heaps, this`lowest, this`highest, this`cells, this`freelist, this`free
      ensures HeapsOk() && Freelist(cells, freelist, free) && ok == (|old(heaps)| < maxHeaps)
      ensures if ok then |heaps| == |old(heaps)| + 1 else heaps == old(heaps) && cells == old(cells)
      ensures old(cells).Keys <= cells.Keys && forall a :: a in old(cells) ==> cells[a] == old(cells)[a]
      ensures forall a :: a in cells && a !in old(cells) ==> cells[a].Free?
      ensures |free| == |old(free)| + (if ok then heapSize else 0)
    {
      hide Freelist, Disjoint;
      if maxHeaps <= |heaps| { return false; }
      if highest < base + CELL_SIZE * heapSize { highest := base + CELL_SIZE * heapSize; }
      if base < lowest { lowest := base; }
      LinkCells(base);
      assert forall a :: a in old(cells) <==> InHeaps(old(heaps), heapSize, a);
      assert forall a :: a in old(cells).Keys ==> a in cells.Keys;
      HeapsGrown(heaps, base, heapSize);
      DisjointGrown(heaps, base, heapSize);
      heaps := heaps + [base];
      ok := true;
    }

    /** gc_mark_and_sweep without the growth of the heap: exactly the allocated
        cells that the roots reach survive. */
    method MarkAndSweep(stack: seq<int>) returns (collected: nat)
      requires Valid()
      modifies this`marked, this`cells, this`freelist, this`free
      ensures Valid() && Collected(old(cells), old(Roots(stack)), cells)
      ensures forall a :: a in old(cells) && !old(cells)[a].Free? ==>
        if old(Live(stack, a)) then cells[a] == old(cells)[a] else cells[a].Free?
      ensures collected == |Garbage(old(cells), old(Roots(stack)))|
    {
      hide Freelist, Disjoint, Reaches;
      forall a ensures Live(stack, a) <==> Reaches(cells, Roots(stack), a) { LiveIsReached(stack, a); }
      Mark(stack);
      ghost var m := marked;
      collected := Sweep();
      assert forall a :: a in m <==> a in old(cells) && Reaches(old(cells), old(Roots(stack)), a);
      assert Garbage(old(cells), old(Roots(stack))) == set a | a in old(cells) && !old(cells)[a].Free? && a !in m;
      CollectedClosed(old(cells), old(Roots(stack)), cells);
    }

    /** scm_alloc_cell, together with storing the content `c` in the new cell.  It
        fails iff there is no free cell, too little garbage to do without a new
        heap, and no heap to add; with a threshold and a heap size of at least 1
        it always finds a cell or stops with the heap exhausted. */
    method Alloc(stack: seq<int>, base: int, c: Cell) returns (r: Allocation)
      requires Valid() && !c.Free? && forall o :: o in Kids(c) && o.Ref? ==> o.addr in cells
      requires base % CELL_SIZE == 0 && forall a :: InHeap(base, heapSize, a) ==> a !in cells
      modifies this
      ensures Valid() && slots == old(slots) && vars == old(vars)
      ensures r == HeapExhausted <==>
        old(freelist) == NULL && |Garbage(old(cells), old(Roots(stack)))| < threshold && |old(heaps)| >= maxHeaps
      ensures r == NoFreeCell <==>
        old(freelist) == NULL &&
        (|Garbage(old(cells), old(Roots(stack)))| < threshold ==> |old(heaps)| < maxHeaps && heapSize == 0) &&
        |Garbage(old(cells), old(Roots(stack)))| == 0
      ensures threshold >= 1 && heapSize >= 1 ==> r != NoFreeCell
      ensures r.Allocated? ==>
        r.addr in cells && cells[r.addr] == c && (r.addr in old(cells) ==> Spare(old(cells), old(Roots(stack)), r.addr))
      ensures forall a ::
        a in old(cells) && !Spare(old(cells), old(Roots(stack)), a) ==> a in cells && cells[a] == old(cells)[a]
    {
      hide Reaches, Disjoint, Freelist, Closed, InHeaps, Garbage, Live, Storage.RootsWith;
      ghost var h0, roots := cells, Roots(stack);
      FreelistEnds(cells, freelist, free);
      if freelist == NULL {
        var collected := MarkAndSweep(stack);
        FreeAfter(h0, roots, cells, freelist, free);
        FreelistEnds(cells, freelist, free);
        if collected < threshold {
          ghost var h1 := cells;
          var ok := AddHeap(base);
          if !ok { return HeapExhausted; }
          GrownClosed(h1, cells);
        }
        FreelistEnds(cells, freelist, free);
      }
      if freelist == NULL { return NoFreeCell; }
      var addr := Take(c);
      r := Allocated(addr);
    }

    /** Takes the first cell of the freelist. */
    method Take(c: Cell) returns (addr: int)
      requires Valid() && freelist != NULL && !c.Free? && forall o :: o in Kids(c) && o.Ref? ==> o.addr in cells
      modifies this`cells, this`freelist, this`free
      ensures Valid() && old(freelist) == Ref(addr) && addr in old(cells) && old(cells)[addr].Free?
      ensures cells == old(cells)[addr := c] && free == old(free)[1..]
    {
      hide Disjoint, Freelist, Closed, InHeaps;
      FreelistEnds(cells, freelist, free);
      FreelistPop(cells, freelist, free, c);
      StoreClosed(cells, freelist.addr, c);
      addr := freelist.addr;
      var next := cells[addr].next;
      cells := cells[addr := c];
      freelist := next;
      free := free[1..];
    }

    /** scm_alloc_vector_cell: an allocation with the elements among the roots. */
    method AllocVector(stack: seq<int>, base: int, elements: seq<Obj>) returns (r: Allocation)
      requires Valid() && forall o :: o in elements && o.Ref? ==> o.addr in cells
      requires base % CELL_SIZE == 0 && forall a :: InHeap(base, heapSize, a) ==> a !in cells
      modifies this
      ensures Valid() && vectorElements == [] && slots == old(slots) && vars == old(vars)
      ensures r == HeapExhausted <==>
        old(freelist) == NULL && |Garbage(old(cells), old(RootsWith(stack, elements)))| < threshold &&
        |old(heaps)| >= maxHeaps
      ensures r == NoFreeCell <==>
        old(freelist) == NULL &&
        (|Garbage(old(cells), old(RootsWith(stack, elements)))| < threshold ==>
          |old(heaps)| < maxHeaps && heapSize == 0) &&
        |Garbage(old(cells), old(RootsWith(stack, elements)))| == 0
      ensures threshold >= 1 && heapSize >= 1 ==> r != NoFreeCell
      ensures r.Allocated? && r.addr in old(cells) ==> Spare(old(cells), old(RootsWith(stack, elements)), r.addr)
      ensures forall a :: a in old(cells) && !Spare(old(cells), old(RootsWith(stack, elements)), a) ==>
        a in cells && cells[a] == old(cells)[a]
      ensures forall a, o ::
        a in old(cells) && o in elements && o.Ref? && !old(cells)[a].Free? && Reaches(old(cells), {o.addr}, a) ==>
        a in cells && cells[a] == old(cells)[a]
      ensures r.Allocated? ==> r.addr in cells && cells[r.addr] == Vector(elements)
    {
      hide Freelist, Closed, Disjoint, InHeaps, Garbage;
      vectorElements := elements;
      ghost var h, roots := cells, Roots(stack);
      assert roots == old(RootsWith(stack, elements));
      forall a, o | a in h && o in elements && o.Ref? && !h[a].Free? && Reaches(h, {o.addr}, a)
        ensures !Spare(h, roots, a)
      {
        assert o.addr in roots;
        ReachesMore(h, {o.addr}, roots, a);
      }
      r := Alloc(stack, base, Vector(elements));
      vectorElements := [];
    }

    /* ---- Protected variables ---- */

    /** locate_protected_var */
    method Locate(v: Option<int>) returns (slot: Option<nat>)
      ensures slot.None? ==> v !in slots
      ensures slot.Some? ==> slot.value < |slots| && slots[slot.value] == v
    {
      var i := 0;
      while i < |slots|
        invariant 0 <= i <= |slots| && v !in slots[..i]
      {
        if slots[i] == v { return Some(i); }
        i := i + 1;
      }
      slot := None;
    }

    /** scm_gc_protect: an empty slot is reused before the table grows. */
    method Protect(v: int)
      requires Valid() && v in vars
      modifies this`slots, this`emptySlots
      ensures Valid() && multiset(slots) ==
        (if None in old(slots) then multiset(old(slots)) - multiset{None} else multiset(old(slots))) + multiset{Some(v)}
    {
      hide Freelist, Closed, Disjoint, InHeaps, CountEmpty;
      EmptyCount(slots);
      if emptySlots > 0 {
        var slot := Locate(None);
        EmptySet(slots, slot.value, Some(v));
        SlotSet(slots, slot.value, Some(v));
        slots := slots[slot.value := Some(v)];
        emptySlots := emptySlots - 1;
      } else {
        EmptyAppend(slots, Some(v));
        slots := slots + [Some(v)];
      }
    }

    /** scm_gc_unprotect: empties one slot of the variable, if it has one. */
    method Unprotect(v: int)
      requires Valid()
      modifies this`slots, this`emptySlots
      ensures Valid() && |slots| == |old(slots)|
      ensures multiset(slots) ==
        if Some(v) in old(slots) then multiset(old(slots)) - multiset{Some(v)} + multiset{None}
        else multiset(old(slots))
    {
      hide Freelist, Closed, Disjoint, InHeaps;
      var slot := Locate(Some(v));
      if slot.Some? {
        EmptySet(slots, slot.value, None);
        SlotSet(slots, slot.value, None);
        slots := slots[slot.value := None];
        emptySlots := emptySlots + 1;
      }
    }

    /** The cells of the new heap are put on the freelist in address order. */
    method LinkCells(base: int)
      requires Freelist(cells, freelist, free) && forall a :: InHeap(base, heapSize, a) ==> a !in cells
      modifies this`cells, this`freelist, this`free
      ensures Freelist(cells, freelist, free) && |free| == |old(free)| + heapSize
      ensures forall a :: a in cells <==> a in old(cells) || InHeap(base, heapSize, a)
      ensures forall a :: a in old(cells) ==> cells[a] == old(cells)[a]
      ensures forall a :: a in cells && a !in old(cells) ==> cells[a].Free?
    {
      hide Freelist;
      var next, k := freelist, heapSize;
      while k > 0
        invariant 0 <= k <= heapSize && Freelist(cells, next, free) && |free| == |old(free)| + heapSize - k
        invariant forall a :: a in cells <==> a in old(cells) || (InHeap(base, heapSize, a) && !InHeap(base, k, a))
        invariant forall a :: a in old(cells) ==> cells[a] == old(cells)[a]
        invariant forall a :: a in cells && a !in old(cells) ==> cells[a].Free?
      {
        k := k - 1;
        var cell := base + CELL_SIZE * k;
        NextCell(base, k, heapSize);
        FreelistPush(cells, next, free, cell);
        cells := cells[cell := Free(next)];
        free := [cell] + free;
        next := Ref(cell);
      }
      freelist := next;
    }
  }

  /** A cell that an allocation may take: free, or garbage. */
  ghost predicate Spare(h: Heap, roots: set<int>, a: int) {
    a in h && (h[a].Free? || !Reaches(h, roots, a))
  }

  lemma CollectedClosed(h: Heap, roots: set<int>, h': Heap)
    requires Closed(h) && Collected(h, roots, h')
    ensures Closed(h')
  {}

  lemma ReachesMore(h: Heap, roots: set<int>, more: set<int>, a: int)
    requires Reaches(h, roots, a) && roots <= more
    ensures Reaches(h, more, a)
  {
    var p: seq<int> :| Path(h, p) && p[0] in roots && p[|p| - 1] == a;
    assert p[0] in more;
  }

  lemma {:induction false} EmptyCount(slots: seq<Option<int>>)
    ensures CountEmpty(slots) > 0 <==> None in slots
  {
    if slots != [] { EmptyCount(slots[1..]); assert slots == [slots[0]] + slots[1..]; }
  }

  lemma {:induction false} EmptySet(slots: seq<Option<int>>, i: nat, v: Option<int>)
    requires i < |slots|
    ensures CountEmpty(slots[i := v]) ==
      CountEmpty(slots) - (if slots[i].None? then 1 else 0) + if v.None? then 1 else 0
  {
    if i > 0 {
      EmptySet(slots[1..], i - 1, v);
      assert slots[i := v][1..] == slots[1..][i - 1 := v];
    } else {
      assert slots[i := v][1..] == slots[1..];
    }
  }

  lemma {:induction false} EmptyAppend(slots: seq<Option<int>>, v: Option<int>)
    ensures CountEmpty(slots + [v]) == CountEmpty(slots) + if v.None? then 1 else 0
  {
    if slots != [] {
      EmptyAppend(slots[1..], v);
      assert (slots + [v])[1..] == slots[1..] + [v];
    }
  }

  lemma SlotSet(slots: seq<Option<int>>, i: nat, v: Option<int>)
    requires i < |slots|
    ensures multiset(slots[i := v]) == multiset(slots) - multiset{slots[i]} + multiset{v}
    ensures slots[i] in slots
  {}

  lemma StoreClosed(h: Heap, a: int, c: Cell)
    requires Closed(h) && forall o :: o in Kids(c) && o.Ref? ==> o.addr in h
    ensures Closed(h[a := c])
  {}

  lemma FreelistEnds(h: Heap, head: Obj, free: seq<int>)
    requires Freelist(h, head, free)
    ensures head == NULL <==> free == []
    ensures head != NULL ==> head == Ref(free[0]) && head.addr in h && h[head.addr].Free?
    ensures free == [] ==> forall a :: a in h ==> !h[a].Free?
  {}

  lemma GrownClosed(h: Heap, h': Heap)
    requires Closed(h) && h.Keys <= h'.Keys && (forall a :: a in h ==> h'[a] == h[a])
    requires forall a :: a in h' && a !in h ==> h'[a].Free?
    ensures Closed(h')
  {}

  /** If no cell was free before, the freelist is what was collected. */
  lemma FreeAfter(h: Heap, roots: set<int>, h': Heap, head: Obj, free: seq<int>)
    requires (forall a :: a in h ==> !h[a].Free?) && Collected(h, roots, h') && Freelist(h', head, free)
    ensures head == NULL <==> |Garbage(h, roots)| == 0
  {
    if free != [] { assert free[0] in Garbage(h, roots); }
    if g :| g in Garbage(h, roots) { assert g in free; }
    else { assert Garbage(h, roots) == {}; }
  }

  /** The state of a sweep: the cells in `seen` are done, those in `swept` were
      reclaimed, and all others are as before. */
  ghost predicate Sweeping(h0: Heap, m0: set<int>, h: Heap, m: set<int>, head: Obj, free: seq<int>, seen: set<int>,
                           swept: set<int>) {
    h.Keys == h0.Keys && seen <= h0.Keys && m == m0 - seen && Freelist(h, head, free) &&
    swept == (set a | a in seen && !h0[a].Free? && a !in m0) &&
    forall a :: a in h ==> if a in swept then h[a].Free? else h[a] == h0[a]
  }

  lemma SweepOne(h0: Heap, m0: set<int>, h: Heap, m: set<int>, head: Obj, free: seq<int>, seen: set<int>,
                 swept: set<int>, a: int)
    requires Sweeping(h0, m0, h, m, head, free, seen, swept) && a in h && a !in seen
    ensures a in m ==> Sweeping(h0, m0, h, m - {a}, head, free, seen + {a}, swept)
    ensures a !in m && h[a].Free? ==> Sweeping(h0, m0, h, m, head, free, seen + {a}, swept)
    ensures a !in m && !h[a].Free? ==>
      Sweeping(h0, m0, h[a := Free(head)], m, Ref(a), [a] + free, seen + {a}, swept + {a}) && a !in swept
  {
    if a !in m && !h[a].Free? { FreelistPush(h, head, free, a); }
  }

  lemma NextCell(base: int, k: nat, size: nat)
    requires k < size
    ensures InHeap(base, size, base + CELL_SIZE * k) && !InHeap(base, k, base + CELL_SIZE * k)
    ensures forall a :: InHeap(base, k + 1, a) <==> InHeap(base, k, a) || a == base + CELL_SIZE * k
    ensures forall a :: !InHeap(base, 0, a)
  {}

  lemma HeapsGrown(heaps: seq<int>, base: int, size: nat)
    ensures forall a :: InHeaps(heaps + [base], size, a) <==> InHeaps(heaps, size, a) || InHeap(base, size, a)
  {
    var heaps' := heaps + [base];
    forall a ensures InHeaps(heaps', size, a) <==> InHeaps(heaps, size, a) || InHeap(base, size, a) {
      if InHeaps(heaps, size, a) {
        var i :| 0 <= i < |heaps| && InHeap(heaps[i], size, a);
        assert heaps'[i] == heaps[i];
      }
      if InHeap(base, size, a) { assert heaps'[|heaps|] == base; }
    }
  }
}
