/** Reading what the matcher left in the heap of pairs: the list of binding lists,
    each nested as deep as its variable, down to forms.  This is where the matcher
    hands over to the transcriber. */
module BindingLists {
  import opened Forms
  import opened Patterns
  import opened PairHeap
  import opened Matcher
  import opened Templates
  import opened Nesting

  method ReadForm(cells: Heap, o: Obj, ghost F: set<nat>, ghost f: Form) returns (r: Form)
    requires Represents(cells, F, o, f)
    ensures r == f
    decreases f
  {
    match o
    case Nil => r := FNil;
    case Ref(a) =>
      var car := ReadForm(cells, cells[a].car, F, f.car);
      var cdr := ReadForm(cells, cells[a].cdr, F, f.cdr);
      r := FPair(car, cdr);
    case Vec(elems) =>
      var items := ReadItems(cells, elems, F, f.items);
      r := FVec(items);
    case Id(x) => r := FId(x);
    case Atom(v) => r := FAtom(v);
  }

  method ReadItems(cells: Heap, os: seq<Obj>, ghost F: set<nat>, ghost f: Form) returns (r: Form)
    requires RepresentsAll(cells, F, os, f)
    ensures r == f
    decreases f
  {
    if os == [] { return FNil; }
    var car := ReadForm(cells, os[0], F, f.car);
    var cdr := ReadItems(cells, os[1..], F, f.cdr);
    r := FPair(car, cdr);
  }

  /** The cells of a list of bindings. */
  ghost predicate ListOf(h: Heap, F: set<nat>, o: Obj, addrs: seq<nat>, items: seq<Binding>) {
    |addrs| == |items| && IsChain(h, o, addrs, Nil) &&
    forall i :: 0 <= i < |items| ==> Binds(h, F, h[addrs[i]].car, items[i])
  }

  lemma BindsList(h: Heap, F: set<nat>, o: Obj, b: Binding) returns (addrs: seq<nat>)
    requires Binds(h, F, o, b) && b.Many?
    ensures ListOf(h, F, o, addrs, b.items) && |addrs| == |b.items| && o == Link(addrs, 0, Nil)
  {
    addrs :| |addrs| == |b.items| && IsChain(h, o, addrs, Nil) &&
      forall i :: 0 <= i < |b.items| ==> addrs[i] in F && Binds(h, F, h[addrs[i]].car, b.items[i]);
  }

  lemma ListNext(h: Heap, F: set<nat>, o: Obj, addrs: seq<nat>, items: seq<Binding>, k: nat)
    requires ListOf(h, F, o, addrs, items) && k < |addrs|
    ensures addrs[k] < |h| && h[addrs[k]].cdr == Link(addrs, k + 1, Nil)
    ensures k < |items| && Binds(h, F, h[addrs[k]].car, items[k])
  {
  }

  lemma NestedPart(b: Binding, depth: nat, k: nat)
    requires Nested(b, depth) && depth > 0 && (b.Many? ==> k < |b.items|)
    ensures b.Many? && Nested(b.items[k], depth - 1)
  {
  }

  lemma NestedIs(h: Heap, F: set<nat>, o: Obj, b: Binding, depth: nat)
    requires Nested(b, depth) && Binds(h, F, o, b)
    ensures depth > 0 <==> b.Many?
    ensures depth == 0 ==> Represents(h, F, o, b.form)
  {
  }

  /** The binding of a variable under `depth` ellipses. */
  method ReadBinding(cells: Heap, o: Obj, depth: nat, ghost F: set<nat>, ghost b: Binding) returns (r: Binding)
    requires Binds(cells, F, o, b) && Nested(b, depth)
    ensures r == b
    decreases b
  {
    hide Represents, Binds, Nested, ListOf;
    NestedIs(cells, F, o, b, depth);
    if depth == 0 {
      var form := ReadForm(cells, o, F, b.form);
      return One(form);
    }
    ghost var addrs := BindsList(cells, F, o, b);
    var items: seq<Binding>, ls := [], o;
    while ls.Ref?
      invariant |items| <= |addrs| && ls == Link(addrs, |items|, Nil) && items == b.items[..|items|]
      decreases |addrs| - |items|
    {
      ghost var k := |items|;
      ListNext(cells, F, o, addrs, b.items, k);
      NestedPart(b, depth, k);
      var item := ReadBinding(cells, cells[ls.addr].car, depth - 1, F, b.items[k]);
      items, ls := items + [item], cells[ls.addr].cdr;
    }
    r := Many(items);
  }

  /** The bindings of a match: the list that the matcher returns. */
  method ReadBindings(cells: Heap, sub: Obj, depths: seq<nat>, ghost F: set<nat>, ghost spine: seq<nat>,
                      ghost bs: seq<Binding>, ghost lo: nat)
    returns (r: seq<Binding>)
    requires Stacked(cells, F, sub, spine, bs, Nil, lo) && NestedAll(bs, depths, 0)
    ensures r == bs
  {
    hide Binds, Nested;
    var ls := sub;
    r := [];
    while ls.Ref?
      invariant |r| <= |spine| && ls == Link(spine, |r|, Nil) && r == bs[..|r|]
      decreases |spine| - |r|
    {
      var k := |r|;
      assert cells[spine[k]].cdr == Link(spine, k + 1, Nil);
      assert Nested(bs[k], depths[k] - 0);
      var b := ReadBinding(cells, cells[ls.addr].car, depths[k], F, bs[k]);
      r, ls := r + [b], cells[ls.addr].cdr;
    }
  }

  /** match, with the bindings read back. */
  method MatchAndRead(m: MatchContext, pat: Pat, o: Obj, ghost f: Form) returns (verdict: Verdict, bs: seq<Binding>)
    requires m.Valid() && Wf(pat) && Represents(m.cells, m.frozen, o, f)
    modifies m
    ensures m.Valid() && Represents(m.cells, m.frozen, o, f)
    ensures verdict == Judge(m.cmp, pat, f) && (verdict == Yes <==> MatchSpec(m.same, pat, f).Some?)
    ensures verdict == Yes ==> bs == MatchSpec(m.same, pat, f).value
  {
    hide Represents, Stacked, Rel, MatchSpec, Judge, Grown, NestedAll, Wf;
    ghost var h, F := m.cells, m.frozen;
    JudgeIsMatch(m.cmp, pat, f);
    verdict := m.Match(pat, o, f);
    GrownKept(h, F, m.cells, m.frozen);
    RepresentsKept(h, F, m.cells, m.frozen, o, f);
    bs := [];
    if verdict == Yes {
      ghost var all := MatchSpec(m.same, pat, f).value;
      MatchIsRelation(m.same, pat, f, all);
      MatchNested(m.same, pat, f, 0);
      ghost var spine: seq<nat> :| Stacked(m.cells, m.frozen, m.sub.value, spine, all, Nil, |h|);
      bs := ReadBindings(m.cells, m.sub.value, Depths(pat, 0), m.frozen, spine, all, |h|);
    }
  }
}
