/** The heap of pairs on which the matcher of src/macro.c works: what a form, a
    binding list and an accumulator look like there, and what relinking (merge_subs,
    reverse!) does to them. */
module PairHeap {
  import opened Forms
  import opened Patterns

  datatype Obj = Nil | Ref(addr: nat) | Vec(elems: seq<Obj>) | Id(id: Ident) | Atom(val: int)
  datatype Cell = Cell(car: Obj, cdr: Obj)
  type Heap = seq<Cell>

  /** `o` is the form `f` in heap `h`, using pairs of `F` only. */
  ghost predicate Represents(h: Heap, F: set<nat>, o: Obj, f: Form)
    decreases f
  {
    match f
    case FNil => o == Nil
    case FPair(a, d) =>
      o.Ref? && o.addr in F && o.addr < |h| &&
      Represents(h, F, h[o.addr].car, a) && Represents(h, F, h[o.addr].cdr, d)
    case FVec(items) => o.Vec? && RepresentsAll(h, F, o.elems, items)
    case FId(x) => o == Id(x)
    case FAtom(v) => o == Atom(v)
  }

  ghost predicate RepresentsAll(h: Heap, F: set<nat>, os: seq<Obj>, f: Form)
    decreases f
  {
    match f
    case FNil => os == []
    case FPair(a, d) => os != [] && Represents(h, F, os[0], a) && RepresentsAll(h, F, os[1..], d)
    case _ => false
  }

  function Link(addrs: seq<nat>, i: nat, end: Obj): Obj {
    if i < |addrs| then Ref(addrs[i]) else end
  }

  /** From `o` the cdrs lead through the pairs `addrs` to `end`. */
  ghost predicate IsChain(h: Heap, o: Obj, addrs: seq<nat>, end: Obj) {
    o == Link(addrs, 0, end) &&
    (forall i :: 0 <= i < |addrs| ==> addrs[i] < |h|) &&
    (forall i {:trigger h[addrs[i]]} :: 0 <= i < |addrs| ==> h[addrs[i]].cdr == Link(addrs, i + 1, end))
  }

  /** `o` is the binding `b`: nested proper lists down to forms. */
  ghost predicate Binds(h: Heap, F: set<nat>, o: Obj, b: Binding)
    decreases b
  {
    match b
    case One(f) => Represents(h, F, o, f)
    case Many(bs) =>
      exists addrs: seq<nat> ::
        |addrs| == |bs| && IsChain(h, o, addrs, Nil) &&
        forall i :: 0 <= i < |bs| ==> addrs[i] in F && Binds(h, F, h[addrs[i]].car, bs[i])
  }

  /** The pairs `F` of `h` are the same in `h'`. */
  ghost predicate Kept(h: Heap, F: set<nat>, h': Heap, F': set<nat>) {
    F <= F' && forall a :: a in F && a < |h| ==> a < |h'| && h'[a] == h[a]
  }

  lemma {:induction false} RepresentsKept(h: Heap, F: set<nat>, h': Heap, F': set<nat>, o: Obj, f: Form)
    requires Kept(h, F, h', F') && Represents(h, F, o, f)
    ensures Represents(h', F', o, f)
    decreases f
  {
    match f {
      case FPair(a, d) =>
        RepresentsKept(h, F, h', F', h[o.addr].car, a);
        RepresentsKept(h, F, h', F', h[o.addr].cdr, d);
      case FVec(items) => RepresentsAllKept(h, F, h', F', o.elems, items);
      case _ =>
    }
  }

  lemma {:induction false} RepresentsAllKept(h: Heap, F: set<nat>, h': Heap, F': set<nat>, os: seq<Obj>, f: Form)
    requires Kept(h, F, h', F') && RepresentsAll(h, F, os, f)
    ensures RepresentsAll(h', F', os, f)
    decreases f
  {
    if f.FPair? {
      RepresentsKept(h, F, h', F', os[0], f.car);
      RepresentsAllKept(h, F, h', F', os[1..], f.cdr);
    }
  }

  lemma {:induction false} BindsKept(h: Heap, F: set<nat>, h': Heap, F': set<nat>, o: Obj, b: Binding)
    requires Kept(h, F, h', F') && Binds(h, F, o, b)
    ensures Binds(h', F', o, b)
    decreases b
  {
    match b {
      case One(f) => RepresentsKept(h, F, h', F', o, f);
      case Many(bs) =>
        var addrs: seq<nat> :| |addrs| == |bs| && IsChain(h, o, addrs, Nil) &&
          forall i :: 0 <= i < |bs| ==> addrs[i] in F && Binds(h, F, h[addrs[i]].car, bs[i]);
        forall i | 0 <= i < |bs| ensures addrs[i] in F' && Binds(h', F', h'[addrs[i]].car, bs[i]) {
          BindsKept(h, F, h', F', h[addrs[i]].car, bs[i]);
        }
        assert IsChain(h', o, addrs, Nil);
    }
  }

  /** Nothing older than `lo` changed. */
  ghost predicate SameBelow(h: Heap, h': Heap, lo: nat) {
    lo <= |h| <= |h'| && forall a :: 0 <= a < lo ==> h'[a] == h[a]
  }

  ghost predicate Below(o: Obj, lo: nat) {
    o.Ref? ==> o.addr < lo
  }

  /** The heap has only grown: every pair of `h` is in `h'` unchanged, and what
      was added to the stable set is new. */
  ghost predicate Grown(h: Heap, F: set<nat>, h': Heap, F': set<nat>) {
    h <= h' && F <= F' && forall a :: a in F' && a !in F ==> |h| <= a < |h'|
  }

  /** `s` is the binding list `end` with the bindings `bs` pushed by cells
      `spine`, all made at or after `lo` and none shared with stable data. */
  ghost predicate Stacked(h: Heap, F: set<nat>, s: Obj, spine: seq<nat>, bs: seq<Binding>, end: Obj, lo: nat) {
    |spine| == |bs| && IsChain(h, s, spine, end) &&
    (forall k :: 0 <= k < |spine| ==>
      lo <= spine[k] < |h| && spine[k] !in F && Binds(h, F, h[spine[k]].car, bs[k])) &&
    (forall j, k :: 0 <= j < k < |spine| ==> spine[j] != spine[k])
  }

  lemma GrownOn(h0: Heap, F0: set<nat>, h: Heap, F: set<nat>, h': Heap, F': set<nat>)
    requires Grown(h0, F0, h, F) && F <= F' && SameBelow(h, h', |h0|)
    requires forall a :: a in F' && a !in F ==> |h0| <= a < |h'|
    ensures Grown(h0, F0, h', F')
  {}

  lemma StackedOn(h: Heap, F: set<nat>, h': Heap, F': set<nat>, s: Obj, spine: seq<nat>, bs: seq<Binding>, end: Obj,
                  lo: nat,
                  s': Obj, spine': seq<nat>, bs': seq<Binding>)
    requires Grown(h, F, h', F') && lo <= |h| && (forall a :: a in F ==> a < |h|)
    requires Stacked(h, F, s, spine, bs, end, lo)
    requires Stacked(h', F', s', spine', bs', s, |h|)
    ensures Stacked(h', F', s', spine' + spine, bs' + bs, end, lo)
  {
    var sp, b := spine' + spine, bs' + bs;
    ChainKept(h, h', s, spine, end);
    ChainAppend(h', s', spine', s, spine, end);
    hide IsChain, Binds;
    forall k | 0 <= k < |sp|
      ensures lo <= sp[k] < |h'| && sp[k] !in F' && Binds(h', F', h'[sp[k]].car, b[k])
    {
      if k >= |spine'| {
        assert sp[k] == spine[k - |spine'|] && b[k] == bs[k - |spine'|];
        BindsKept(h, F, h', F', h[sp[k]].car, b[k]);
      } else {
        assert sp[k] == spine'[k] && b[k] == bs'[k];
      }
    }
    forall j, k | 0 <= j < k < |sp| ensures sp[j] != sp[k] {
      if k < |spine'| { assert spine'[j] != spine'[k]; }
      else if j >= |spine'| { assert spine[j - |spine'|] != spine[k - |spine'|]; }
    }
  }

  lemma ChainAppend(h: Heap, o: Obj, a: seq<nat>, mid: Obj, b: seq<nat>, end: Obj)
    requires IsChain(h, o, a, mid) && IsChain(h, mid, b, end)
    ensures IsChain(h, o, a + b, end)
  {
    var ab := a + b;
    forall i {:trigger h[ab[i]]} | 0 <= i < |ab| ensures ab[i] < |h| && h[ab[i]].cdr == Link(ab, i + 1, end) {
      if i < |a| { assert ab[i] == a[i] && h[a[i]].cdr == Link(a, i + 1, mid); }
      else { assert ab[i] == b[i - |a|] && h[b[i - |a|]].cdr == Link(b, i - |a| + 1, end); }
    }
  }

  lemma StackedNone(h: Heap, F: set<nat>, s: Obj, lo: nat)
    ensures Stacked(h, F, s, [], [], s, lo)
  {}

  /** One freshly consed binding. */
  lemma StackedPush(h: Heap, F: set<nat>, o: Obj, b: Binding, end: Obj)
    requires Binds(h, F, o, b) && (forall a :: a in F ==> a < |h|)
    ensures Stacked(h + [Cell(o, end)], F, Ref(|h|), [|h|], [b], end, |h|)
  {
    BindsKept(h, F, h + [Cell(o, end)], F, o, b);
  }

  function Rev(s: seq<nat>): seq<nat> {
    seq(|s|, i requires 0 <= i < |s| => s[|s| - 1 - i])
  }

  ghost predicate Distinct(s: seq<nat>) {
    forall i, j :: 0 <= i < j < |s| ==> s[i] != s[j]
  }

  /** Outside `addrs` nothing changed, and in `addrs` only the cdrs. */
  ghost predicate OnlyCdrs(h: Heap, h': Heap, addrs: seq<nat>) {
    |h'| == |h| &&
    (forall a :: 0 <= a < |h| && a !in Firsts(addrs, |addrs|) ==> h'[a] == h[a]) &&
    (forall i :: 0 <= i < |addrs| ==> addrs[i] < |h| && h'[addrs[i]].car == h[addrs[i]].car)
  }

  /** `o` is the chain `addrs` of cells that hold the bindings `col`. */
  ghost predicate Chained(h: Heap, F: set<nat>, o: Obj, addrs: seq<nat>, col: seq<Binding>, lo: nat) {
    |addrs| == |col| && IsChain(h, o, addrs, Nil) &&
    forall i :: 0 <= i < |addrs| ==>
      lo <= addrs[i] < |h| && addrs[i] !in F && Binds(h, F, h[addrs[i]].car, col[i])
  }

  /** Column j of `rows`, latest row first. */
  ghost function Latest(rows: seq<seq<Binding>>, j: nat): seq<Binding>
    requires forall i :: 0 <= i < |rows| ==> j < |rows[i]|
  {
    seq(|rows|, i requires 0 <= i < |rows| => rows[|rows| - 1 - i][j])
  }

  /** The accumulator of an ellipsis: cells `A` on top of `end`, the car of cell
      j being the chain `C[j]` of column j. */
  ghost predicate Accum(h: Heap, F: set<nat>, acc: Obj, A: seq<nat>, C: seq<seq<nat>>, rows: seq<seq<Binding>>,
                        end: Obj, lo: nat) {
    |C| == |A| && IsChain(h, acc, A, end) && Apart(A, C) &&
    (forall i :: 0 <= i < |rows| ==> |rows[i]| == |A|) &&
    (forall j :: 0 <= j < |A| ==>
      lo <= A[j] < |h| && A[j] !in F && Chained(h, F, h[A[j]].car, C[j], Latest(rows, j), lo))
  }

  ghost predicate Apart(A: seq<nat>, C: seq<seq<nat>>) {
    Distinct(A) &&
    (forall j, k, i :: 0 <= j < |A| && 0 <= k < |C| && 0 <= i < |C[k]| ==> A[j] != C[k][i]) &&
    (forall j, k, i, l :: 0 <= j < |C| && 0 <= k < |C| && 0 <= i < |C[j]| && 0 <= l < |C[k]| && (j != k || i != l)
      ==> C[j][i] != C[k][l])
  }

  /** Two lists of the same length on top of `end`, with no cell in common. */
  ghost predicate Mergeable(h: Heap, to: Obj, from: Obj, end: Obj, A: seq<nat>, spine: seq<nat>) {
    |A| == |spine| && Distinct(A) && Distinct(spine) && IsChain(h, to, A, end) && IsChain(h, from, spine, end) &&
    (forall i, j :: 0 <= i < |A| && 0 <= j < |spine| ==> A[i] != spine[j]) &&
    (forall j :: 0 <= j < |spine| ==> Ref(spine[j]) != end)
  }

  ghost function Firsts(s: seq<nat>, k: nat): set<nat>
    requires k <= |s|
  {
    set i | 0 <= i < k :: s[i]
  }

  /** What merge_subs did to the first k cells: each cell of `from` was moved to
      the front of the chain in the car of the accumulator cell. */
  ghost predicate Merged(h: Heap, h': Heap, A: seq<nat>, from: seq<nat>, k: nat)
    requires k <= |A| == |from|
  {
    |h'| == |h| &&
    (forall j :: 0 <= j < |A| ==> A[j] < |h| && from[j] < |h|) &&
    (forall a :: 0 <= a < |h| && a !in Firsts(A, k) && a !in Firsts(from, k) ==> h'[a] == h[a]) &&
    (forall j :: 0 <= j < k ==>
      h'[A[j]] == Cell(Ref(from[j]), h[A[j]].cdr) && h'[from[j]] == Cell(h[from[j]].car, h[A[j]].car))
  }

  /** What an accumulator and a fresh row of bindings look like to merge_subs. */
  lemma AccumMergeable(h: Heap, F: set<nat>, acc: Obj, A: seq<nat>, C: seq<seq<nat>>, rows: seq<seq<Binding>>,
                       end: Obj, lo: nat,
                       s: Obj, spine: seq<nat>, row: seq<Binding>, lo': nat)
    requires Accum(h, F, acc, A, C, rows, end, lo) && Stacked(h, F, s, spine, row, end, lo')
    requires |row| == |A| && lo <= lo' && Below(end, lo) && (forall j :: 0 <= j < |A| ==> A[j] < lo')
    ensures Mergeable(h, acc, s, end, A, spine)
  {}

  lemma MergedBelow(h: Heap, h': Heap, A: seq<nat>, spine: seq<nat>, lo: nat)
    requires |A| == |spine| && Merged(h, h', A, spine, |A|) && lo <= |h|
    requires forall j :: 0 <= j < |A| ==> lo <= A[j] && lo <= spine[j]
    ensures SameBelow(h, h', lo)
  {}

  lemma MergedRest(h: Heap, h': Heap, to: Obj, from: Obj, end: Obj, A: seq<nat>, spine: seq<nat>, k: nat)
    requires Mergeable(h, to, from, end, A, spine) && k < |A| && Merged(h, h', A, spine, k)
    ensures h'[A[k]] == h[A[k]] && h'[spine[k]] == h[spine[k]]
    ensures h[A[k]].cdr == Link(A, k + 1, end) && h[spine[k]].cdr == Link(spine, k + 1, end)
  {}

  lemma MergedNext(h: Heap, h1: Heap, h2: Heap, A: seq<nat>, spine: seq<nat>, k: nat)
    requires |A| == |spine| && Distinct(A) && Distinct(spine) && k < |A| && Merged(h, h1, A, spine, k)
    requires forall i, j :: 0 <= i < |A| && 0 <= j < |spine| ==> A[i] != spine[j]
    requires h1[A[k]] == h[A[k]] && h1[spine[k]] == h[spine[k]]
    requires h2 == h1[spine[k] := Cell(h1[spine[k]].car, h1[A[k]].car)][A[k] := Cell(Ref(spine[k]), h1[A[k]].cdr)]
    ensures Merged(h, h2, A, spine, k + 1)
  {
    forall a | 0 <= a < |h| && a !in Firsts(A, k + 1) && a !in Firsts(spine, k + 1) ensures h2[a] == h[a] {
      assert a != A[k] && a != spine[k] && a !in Firsts(A, k) && a !in Firsts(spine, k);
    }
    forall j | 0 <= j < k
      ensures h2[A[j]] == Cell(Ref(spine[j]), h[A[j]].cdr) && h2[spine[j]] == Cell(h[spine[j]].car, h[A[j]].car)
    {
      assert A[j] != A[k] && A[j] != spine[k] && spine[j] != spine[k] && spine[j] != A[k];
    }
  }

  ghost function Pushed(C: seq<seq<nat>>, from: seq<nat>): seq<seq<nat>>
    requires |C| == |from|
  {
    seq(|C|, j requires 0 <= j < |C| => [from[j]] + C[j])
  }

  lemma ChainedKept(h: Heap, F: set<nat>, h': Heap, F': set<nat>, o: Obj, addrs: seq<nat>, col: seq<Binding>, lo: nat)
    requires Chained(h, F, o, addrs, col, lo) && Kept(h, F, h', F') && |h| <= |h'|
    requires forall i :: 0 <= i < |addrs| ==> h'[addrs[i]] == h[addrs[i]] && addrs[i] !in F'
    ensures Chained(h', F', o, addrs, col, lo)
  {
    forall i | 0 <= i < |addrs| ensures Binds(h', F', h'[addrs[i]].car, col[i]) {
      BindsKept(h, F, h', F', h[addrs[i]].car, col[i]);
    }
  }

  lemma AccumKept(h: Heap, F: set<nat>, h': Heap, F': set<nat>, acc: Obj, A: seq<nat>, C: seq<seq<nat>>,
                  rows: seq<seq<Binding>>, end: Obj, lo: nat)
    requires Accum(h, F, acc, A, C, rows, end, lo) && Grown(h, F, h', F') && (forall a :: a in F ==> a < |h|)
    ensures Accum(h', F', acc, A, C, rows, end, lo)
  {
    forall j | 0 <= j < |A| ensures Chained(h', F', h'[A[j]].car, C[j], Latest(rows, j), lo) {
      ChainedKept(h, F, h', F', h[A[j]].car, C[j], Latest(rows, j), lo);
    }
  }

  /** The chain of a column after one more row. */
  lemma ChainedPush(h: Heap, h': Heap, F: set<nat>, o: Obj, addrs: seq<nat>, col: seq<Binding>, lo: nat, from: nat,
                    b: Binding)
    requires Chained(h, F, o, addrs, col, lo) && Kept(h, F, h', F) && |h'| == |h|
    requires forall i :: 0 <= i < |addrs| ==> h'[addrs[i]] == h[addrs[i]]
    requires lo <= from < |h| && from !in F && Binds(h, F, h[from].car, b)
    requires h'[from] == Cell(h[from].car, o)
    ensures Chained(h', F, Ref(from), [from] + addrs, [b] + col, lo)
  {
    ChainedKept(h, F, h', F, o, addrs, col, lo);
    BindsKept(h, F, h', F, h[from].car, b);
    ChainCons(h', o, from, addrs, Nil);
    hide IsChain, Binds;
    var addrs', col' := [from] + addrs, [b] + col;
    forall i | 0 <= i < |addrs'|
      ensures lo <= addrs'[i] < |h'| && addrs'[i] !in F && Binds(h', F, h'[addrs'[i]].car, col'[i])
    {
      if i > 0 { assert addrs'[i] == addrs[i - 1] && col'[i] == col[i - 1]; }
    }
  }

  lemma ChainCons(h: Heap, o: Obj, a: nat, addrs: seq<nat>, end: Obj)
    requires IsChain(h, o, addrs, end) && a < |h| && h[a].cdr == o
    ensures IsChain(h, Ref(a), [a] + addrs, end)
  {
    var addrs' := [a] + addrs;
    forall i {:trigger h[addrs'[i]]} | 0 <= i < |addrs'|
      ensures addrs'[i] < |h| && h[addrs'[i]].cdr == Link(addrs', i + 1, end)
    {
      if i > 0 { assert addrs'[i] == addrs[i - 1]; assert h[addrs[i - 1]].cdr == Link(addrs, i, end); }
    }
  }

  /** A merge adds one row to the accumulator. */
  lemma MergedAccum(h: Heap, h': Heap, F: set<nat>, acc: Obj, A: seq<nat>, C: seq<seq<nat>>, rows: seq<seq<Binding>>,
                    end: Obj, lo: nat,
                    s: Obj, from: seq<nat>, row: seq<Binding>, lo': nat)
    requires Accum(h, F, acc, A, C, rows, end, lo) && Stacked(h, F, s, from, row, end, lo')
    requires lo <= lo' && Before(A, C, lo')
    requires |row| == |A| && Merged(h, h', A, from, |A|) && lo <= |h|
    ensures |C| == |from| && Accum(h', F, acc, A, Pushed(C, from), rows + [row], end, lo) &&
      Before(A, Pushed(C, from), |h'|)
    ensures Kept(h, F, h', F) && SameBelow(h, h', lo)
  {
    PushedApart(A, C, from, lo');
    ChainKept(h, h', acc, A, end);
    MergedKeeps(h, h', F, A, C, from, lo');
    MergedBelow(h, h', A, from, lo);
    MergedColumns(h, h', F, A, C, rows, lo, from, row);
  }

  lemma MergedColumns(h: Heap, h': Heap, F: set<nat>, A: seq<nat>, C: seq<seq<nat>>, rows: seq<seq<Binding>>, lo: nat,
                      from: seq<nat>, row: seq<Binding>)
    requires |A| == |C| == |from| == |row| && Merged(h, h', A, from, |A|) && Kept(h, F, h', F)
    requires forall j, i :: 0 <= j < |C| && 0 <= i < |C[j]| && C[j][i] < |h| ==> h'[C[j][i]] == h[C[j][i]]
    requires forall j :: 0 <= j < |from| ==> lo <= from[j] && from[j] !in F && Binds(h, F, h[from[j]].car, row[j])
    requires forall i :: 0 <= i < |rows| ==> |rows[i]| == |A|
    requires forall j :: 0 <= j < |A| ==> A[j] !in F && Chained(h, F, h[A[j]].car, C[j], Latest(rows, j), lo)
    ensures forall i :: 0 <= i < |rows + [row]| ==> |(rows + [row])[i]| == |A|
    ensures forall j :: 0 <= j < |A| ==>
      A[j] < |h'| && Chained(h', F, h'[A[j]].car, Pushed(C, from)[j], Latest(rows + [row], j), lo)
  {
    forall j | 0 <= j < |A|
      ensures A[j] < |h'| && Chained(h', F, h'[A[j]].car, Pushed(C, from)[j], Latest(rows + [row], j), lo)
    {
      MergedColumn(h, h', F, A[j], C, rows, lo, from, row, j);
    }
  }

  lemma MergedColumn(h: Heap, h': Heap, F: set<nat>, a: nat, C: seq<seq<nat>>, rows: seq<seq<Binding>>, lo: nat,
                     from: seq<nat>, row: seq<Binding>, j: nat)
    requires (forall i :: 0 <= i < |rows| ==> j < |rows[i]|) && j < |row| && j < |C| == |from|
    requires a < |h| && Chained(h, F, h[a].car, C[j], Latest(rows, j), lo) && Kept(h, F, h', F) && |h'| == |h|
    requires forall i :: 0 <= i < |C[j]| ==> h'[C[j][i]] == h[C[j][i]]
    requires lo <= from[j] < |h| && from[j] !in F && Binds(h, F, h[from[j]].car, row[j])
    requires h'[a].car == Ref(from[j]) && h'[from[j]] == Cell(h[from[j]].car, h[a].car)
    ensures Chained(h', F, h'[a].car, Pushed(C, from)[j], Latest(rows + [row], j), lo)
  {
    assert Latest(rows + [row], j) == [row[j]] + Latest(rows, j);
    assert Pushed(C, from)[j] == [from[j]] + C[j];
    ChainedPush(h, h', F, h[a].car, C[j], Latest(rows, j), lo, from[j], row[j]);
  }

  lemma ChainKept(h: Heap, h': Heap, o: Obj, addrs: seq<nat>, end: Obj)
    requires IsChain(h, o, addrs, end) && |h| <= |h'|
    requires forall i :: 0 <= i < |addrs| ==> h'[addrs[i]].cdr == h[addrs[i]].cdr
    ensures IsChain(h', o, addrs, end)
  {}

  ghost predicate Before(A: seq<nat>, C: seq<seq<nat>>, lo: nat) {
    (forall j :: 0 <= j < |A| ==> A[j] < lo) &&
    (forall j, i :: 0 <= j < |C| && 0 <= i < |C[j]| ==> C[j][i] < lo)
  }

  lemma MergedKeeps(h: Heap, h': Heap, F: set<nat>, A: seq<nat>, C: seq<seq<nat>>, from: seq<nat>, lo: nat)
    requires |A| == |C| == |from| && Apart(A, C) && Before(A, C, lo) && Merged(h, h', A, from, |A|)
    requires forall j :: 0 <= j < |A| ==> lo <= from[j] && from[j] !in F && A[j] !in F
    ensures Kept(h, F, h', F)
    ensures forall j, i :: 0 <= j < |C| && 0 <= i < |C[j]| && C[j][i] < |h| ==> h'[C[j][i]] == h[C[j][i]]
  {
    forall j, i | 0 <= j < |C| && 0 <= i < |C[j]| && C[j][i] < |h| ensures h'[C[j][i]] == h[C[j][i]] {
      assert C[j][i] !in Firsts(A, |A|) && C[j][i] !in Firsts(from, |A|);
    }
  }

  lemma PushedApart(A: seq<nat>, C: seq<seq<nat>>, from: seq<nat>, lo: nat)
    requires |A| == |C| == |from| && Apart(A, C) && Distinct(from)
    requires Before(A, C, lo) && forall j :: 0 <= j < |A| ==> lo <= from[j]
    ensures Apart(A, Pushed(C, from))
  {
    var C' := Pushed(C, from);
    forall j, k, i, l | 0 <= j < |C'| && 0 <= k < |C'| && 0 <= i < |C'[j]| && 0 <= l < |C'[k]| && (j != k || i != l)
      ensures C'[j][i] != C'[k][l]
    {
      if i > 0 && l > 0 { assert C[j][i - 1] != C[k][l - 1]; }
    }
    forall j, k, i | 0 <= j < |A| && 0 <= k < |C'| && 0 <= i < |C'[k]| ensures A[j] != C'[k][i] {
      if i > 0 { assert A[j] != C[k][i - 1]; }
    }
  }

  ghost function All(C: seq<seq<nat>>): set<nat> {
    set j, i | 0 <= j < |C| && 0 <= i < |C[j]| :: C[j][i]
  }

  /** What the closing loop of match_reppat did: every chain is reversed. */
  ghost predicate Reversed(h: Heap, h': Heap, A: seq<nat>, C: seq<seq<nat>>, k: nat)
    requires k <= |A| == |C|
  {
    |h'| == |h| &&
    (forall j :: 0 <= j < |A| ==> A[j] < |h|) &&
    (forall j, i :: 0 <= j < |C| && 0 <= i < |C[j]| ==> C[j][i] < |h| && h'[C[j][i]].car == h[C[j][i]].car) &&
    (forall a :: 0 <= a < |h| && a !in Firsts(A, |A|) && a !in All(C) ==> h'[a] == h[a]) &&
    (forall j :: 0 <= j < |A| ==> h'[A[j]].cdr == h[A[j]].cdr) &&
    (forall j :: 0 <= j < k ==> IsChain(h', h'[A[j]].car, Rev(C[j]), Nil)) &&
    (forall j :: k <= j < |A| ==> h'[A[j]].car == h[A[j]].car && IsChain(h', h'[A[j]].car, C[j], Nil))
  }

  lemma ReversedStart(h: Heap, F: set<nat>, acc: Obj, A: seq<nat>, C: seq<seq<nat>>, rows: seq<seq<Binding>>,
                      end: Obj, lo: nat)
    requires Accum(h, F, acc, A, C, rows, end, lo)
    ensures |A| == |C| && Reversed(h, h, A, C, 0) && acc == Link(A, 0, end)
  {}

  /** The cell that the closing loop of match_reppat meets next. */
  lemma ReversedHead(h: Heap, h': Heap, F: set<nat>, acc: Obj, A: seq<nat>, C: seq<seq<nat>>, rows: seq<seq<Binding>>,
                     end: Obj, lo: nat, k: nat)
    requires Accum(h, F, acc, A, C, rows, end, lo) && k <= |A| && Reversed(h, h', A, C, k) && Link(A, k, end) != end
    ensures k < |A| && A[k] < |h'| && IsChain(h', h'[A[k]].car, C[k], Nil) && Distinct(C[k])
    ensures h'[A[k]].cdr == Link(A, k + 1, end) && Link(A, k, end) == Ref(A[k])
    ensures forall i :: 0 <= i < |C[k]| ==> C[k][i] != A[k]
    ensures Apart(A, C)
  {}

  /** At the end of the list the loop has seen every cell. */
  lemma AccumAbove(h: Heap, F: set<nat>, acc: Obj, A: seq<nat>, C: seq<seq<nat>>, rows: seq<seq<Binding>>, end: Obj,
                   lo: nat, k: nat)
    requires Accum(h, F, acc, A, C, rows, end, lo) && k <= |A| && Link(A, k, end) == end && Below(end, lo)
    ensures k == |A|
  {}

  /** One step of it: the chain of cell k is reversed and stored in its car. */
  lemma ReversedNext(h: Heap, h1: Heap, h2: Heap, A: seq<nat>, C: seq<seq<nat>>, k: nat, list: Obj)
    requires k < |A| == |C| && Apart(A, C) && Reversed(h, h1, A, C, k)
    requires OnlyCdrs(h1, h2, C[k]) && IsChain(h2, list, Rev(C[k]), Nil) && A[k] < |h2| && h2[A[k]] == h1[A[k]]
    ensures Reversed(h, h2[A[k] := Cell(list, h2[A[k]].cdr)], A, C, k + 1)
  {
    hide Apart, IsChain;
    var h3 := h2[A[k] := Cell(list, h2[A[k]].cdr)];
    ChainsApart(A, C, k);
    forall j | 0 <= j < |A| && j != k ensures h3[A[j]] == h1[A[j]] {}
    forall j, i | 0 <= j < |C| && j != k && 0 <= i < |C[j]| ensures h3[C[j][i]] == h1[C[j][i]] {}
    ReversedChains(h, h1, h2, h3, A, C, k, list);
    assert Firsts(C[k], |C[k]|) <= All(C) && A[k] in Firsts(A, |A|);
  }

  lemma ChainsApart(A: seq<nat>, C: seq<seq<nat>>, k: nat)
    requires Apart(A, C) && k < |A| == |C|
    ensures forall j :: 0 <= j < |A| ==> A[j] !in Firsts(C[k], |C[k]|) && (j != k ==> A[j] != A[k])
    ensures forall j, i :: 0 <= j < |C| && j != k && 0 <= i < |C[j]| ==>
      C[j][i] !in Firsts(C[k], |C[k]|) && C[j][i] != A[k]
  {}

  lemma ReversedChains(h: Heap, h1: Heap, h2: Heap, h3: Heap, A: seq<nat>, C: seq<seq<nat>>, k: nat, list: Obj)
    requires k < |A| == |C| && Reversed(h, h1, A, C, k) && |h3| == |h2| == |h1|
    requires forall j :: 0 <= j < |A| && j != k ==> h3[A[j]] == h1[A[j]]
    requires forall j, i :: 0 <= j < |C| && j != k && 0 <= i < |C[j]| ==> h3[C[j][i]] == h1[C[j][i]]
    requires forall i :: 0 <= i < |C[k]| ==> h3[C[k][i]] == h2[C[k][i]]
    requires IsChain(h2, list, Rev(C[k]), Nil) && h3[A[k]].car == list
    ensures forall j :: 0 <= j <= k ==> IsChain(h3, h3[A[j]].car, Rev(C[j]), Nil)
    ensures forall j :: k < j < |A| ==> IsChain(h3, h3[A[j]].car, C[j], Nil)
  {
    forall j | 0 <= j < k ensures IsChain(h3, h3[A[j]].car, Rev(C[j]), Nil) {
      RevKept(h1, h3, h1[A[j]].car, C[j]);
    }
    RevKept(h2, h3, list, C[k]);
    forall j | k < j < |A| ensures IsChain(h3, h3[A[j]].car, C[j], Nil) {
      ChainKept(h1, h3, h1[A[j]].car, C[j], Nil);
    }
  }

  lemma RevKept(h: Heap, h': Heap, o: Obj, addrs: seq<nat>)
    requires |h'| == |h| && IsChain(h, o, Rev(addrs), Nil)
    requires forall i :: 0 <= i < |addrs| ==> addrs[i] < |h| && h'[addrs[i]] == h[addrs[i]]
    ensures IsChain(h', o, Rev(addrs), Nil)
  {
    forall i | 0 <= i < |Rev(addrs)| ensures h'[Rev(addrs)[i]] == h[Rev(addrs)[i]] {
      assert Rev(addrs)[i] == addrs[|addrs| - 1 - i];
    }
    ChainKept(h, h', o, Rev(addrs), Nil);
  }

  lemma ReversedBelow(h: Heap, h': Heap, A: seq<nat>, C: seq<seq<nat>>, lo: nat)
    requires |A| == |C| && Reversed(h, h', A, C, |A|) && lo <= |h|
    requires forall j :: 0 <= j < |A| ==> lo <= A[j]
    requires forall j, i :: 0 <= j < |C| && 0 <= i < |C[j]| ==> lo <= C[j][i]
    ensures SameBelow(h, h', lo)
  {
    assert forall a :: a in All(C) ==> lo <= a;
  }

  /** The reversed chains are the columns in source order; from now on they are
      stable. */
  lemma ReversedStacked(h: Heap, h': Heap, F: set<nat>, acc: Obj, A: seq<nat>, C: seq<seq<nat>>,
                        rows: seq<seq<Binding>>, end: Obj, lo: nat)
    requires Accum(h, F, acc, A, C, rows, end, lo) && Reversed(h, h', A, C, |A|) && lo <= |h|
    ensures Stacked(h', F + All(C), acc, A, Transpose(rows, |A|), end, lo)
    ensures Kept(h, F, h', F + All(C)) && SameBelow(h, h', lo) && |h'| == |h|
    ensures forall a :: a in All(C) ==> lo <= a < |h|
  {
    ReversedBelow(h, h', A, C, lo);
    assert forall a :: a in F && a < |h| ==> h'[a] == h[a];
    ChainKept(h, h', acc, A, end);
    forall j | 0 <= j < |A| ensures A[j] !in All(C) && Binds(h', F + All(C), h'[A[j]].car, Column(rows, j)) {
      assert Chained(h, F, h[A[j]].car, C[j], Latest(rows, j), lo);
      assert forall i :: 0 <= i < |C[j]| ==> C[j][i] in All(C);
      ReversedColumn(h, h', F, F + All(C), h[A[j]].car, C[j], h'[A[j]].car, rows, j, lo);
    }
  }

  lemma ReversedColumn(h: Heap, h': Heap, F: set<nat>, F': set<nat>, o: Obj, addrs: seq<nat>, o': Obj,
                       rows: seq<seq<Binding>>, j: nat, lo: nat)
    requires (forall i :: 0 <= i < |rows| ==> j < |rows[i]|) && Chained(h, F, o, addrs, Latest(rows, j), lo)
    requires Kept(h, F, h', F') && |h'| == |h| && IsChain(h', o', Rev(addrs), Nil)
    requires forall i :: 0 <= i < |addrs| ==> addrs[i] in F' && h'[addrs[i]].car == h[addrs[i]].car
    ensures Binds(h', F', o', Column(rows, j))
  {
    ReversedChain(h, h', F, F', o, addrs, o', Latest(rows, j), lo);
    assert Backward(Latest(rows, j)) == Column(rows, j).items;
  }

  ghost function Backward(col: seq<Binding>): seq<Binding> {
    seq(|col|, i requires 0 <= i < |col| => col[|col| - 1 - i])
  }

  lemma ReversedChain(h: Heap, h': Heap, F: set<nat>, F': set<nat>, o: Obj, addrs: seq<nat>, o': Obj,
                      col: seq<Binding>, lo: nat)
    requires Chained(h, F, o, addrs, col, lo)
    requires Kept(h, F, h', F') && IsChain(h', o', Rev(addrs), Nil)
    requires forall i :: 0 <= i < |addrs| ==> addrs[i] in F' && addrs[i] < |h'| && h'[addrs[i]].car == h[addrs[i]].car
    ensures Binds(h', F', o', Many(Backward(col)))
  {
    forall k | 0 <= k < |addrs| ensures addrs[k] in F' && Binds(h', F', h'[addrs[k]].car, col[k]) {
      BindsKept(h, F, h', F', h[addrs[k]].car, col[k]);
    }
    BackwardBinds(h', F', o', addrs, col);
  }

  lemma ManyBinds(h: Heap, F: set<nat>, o: Obj, addrs: seq<nat>, bs: seq<Binding>)
    requires |addrs| == |bs| && IsChain(h, o, addrs, Nil)
    requires forall i :: 0 <= i < |bs| ==> addrs[i] in F && Binds(h, F, h[addrs[i]].car, bs[i])
    ensures Binds(h, F, o, Many(bs))
  {}

  lemma BackwardBinds(h: Heap, F: set<nat>, o: Obj, addrs: seq<nat>, col: seq<Binding>)
    requires |addrs| == |col| && IsChain(h, o, Rev(addrs), Nil)
    requires forall k :: 0 <= k < |addrs| ==> addrs[k] < |h| && addrs[k] in F && Binds(h, F, h[addrs[k]].car, col[k])
    ensures Binds(h, F, o, Many(Backward(col)))
  {
    hide Binds, IsChain;
    var back, bs := Rev(addrs), Backward(col);
    forall i | 0 <= i < |bs| ensures back[i] < |h| && back[i] in F && Binds(h, F, h[back[i]].car, bs[i]) {
      var k := |addrs| - 1 - i;
      assert back[i] == addrs[k] && bs[i] == col[k];
    }
    ManyBinds(h, F, o, back, bs);
  }

  ghost function Elements(f: Form, n: nat): (es: seq<Form>)
    requires n <= CountPairs(f)
    ensures |es| == n
  {
    if n == 0 then [] else [f.car] + Elements(f.cdr, n - 1)
  }

  ghost function Ones(es: seq<Form>): seq<Binding> {
    seq(|es|, i requires 0 <= i < |es| => One(es[i]))
  }

  /** (pvar ...) matches every element, and binds the list of them. */
  lemma {:induction false} PvarRows(same: (Ident, Ident) -> bool, f: Form, n: nat)
    requires n <= CountPairs(f)
    ensures MatchRows(same, PVar, f, n).Some?
    ensures Transpose(MatchRows(same, PVar, f, n).value, 1) == [Many(Ones(Elements(f, n)))]
  {
    if n > 0 {
      PvarRows(same, f.cdr, n - 1);
      var rows, rest := MatchRows(same, PVar, f, n).value, MatchRows(same, PVar, f.cdr, n - 1).value;
      assert rows == [[One(f.car)]] + rest;
      forall i | 0 <= i < n ensures rows[i][0] == One(Elements(f, n)[i]) {
        if i > 0 {
          assert Transpose(rest, 1)[0].items[i - 1] == rest[i - 1][0];
        }
      }
    }
    assert Column(MatchRows(same, PVar, f, n).value, 0).items == Ones(Elements(f, n));
  }

  /** A list of the form is itself a binding list, shared without copying. */
  lemma {:induction false} ListBinds(h: Heap, F: set<nat>, o: Obj, f: Form) returns (addrs: seq<nat>)
    requires Represents(h, F, o, f) && IsList(f)
    ensures |addrs| == CountPairs(f) && IsChain(h, o, addrs, Nil)
    ensures forall i :: 0 <= i < |addrs| ==>
      addrs[i] in F && Represents(h, F, h[addrs[i]].car, Elements(f, |addrs|)[i])
    ensures Binds(h, F, o, Many(Ones(Elements(f, CountPairs(f)))))
    decreases f
  {
    if f.FNil? {
      addrs := [];
    } else {
      var rest := ListBinds(h, F, h[o.addr].cdr, f.cdr);
      addrs := [o.addr] + rest;
      ChainCons(h, h[o.addr].cdr, o.addr, rest, Nil);
    }
    OnesBind(h, F, o, addrs, Elements(f, CountPairs(f)));
  }

  lemma OnesBind(h: Heap, F: set<nat>, o: Obj, addrs: seq<nat>, es: seq<Form>)
    requires |addrs| == |es| && IsChain(h, o, addrs, Nil)
    requires forall i :: 0 <= i < |addrs| ==> addrs[i] in F && Represents(h, F, h[addrs[i]].car, es[i])
    ensures Binds(h, F, o, Many(Ones(es)))
  {
    forall i | 0 <= i < |es| ensures addrs[i] in F && Binds(h, F, h[addrs[i]].car, Ones(es)[i]) {}
  }
}
