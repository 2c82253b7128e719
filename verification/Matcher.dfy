/** The two-pass matcher of src/macro.c.  It conses the bindings onto `sub` and
    relinks those cells in place; its contracts say that no pair older than the
    call is ever written, so the form under match is left alone. */
module Matcher {
  import opened Forms
  import opened Patterns
  import opened PairHeap

  class MatchContext {
    const cmp: (Ident, Ident) -> Verdict // scm_identifierequalp in the scope of the use
    const same: (Ident, Ident) -> bool := Agrees(cmp)
    var cells: Heap
    var sub: Option<Obj>                 // None is SCM_INVALID: the first pass
    ghost var frozen: set<nat>           // pairs of forms and of finished binding lists

    ghost predicate Valid() reads this {
      (forall a :: a in frozen ==> a < |cells|) && (sub.Some? ==> Below(sub.value, |cells|))
    }

    /** A match in a heap of pairs and vectors. */
    constructor (cmp: (Ident, Ident) -> Verdict, cells: Heap, ghost frozen: set<nat>)
      requires forall a :: a in frozen ==> a < |cells|
      ensures Valid() && this.cmp == cmp && this.cells == cells && this.frozen == frozen && sub == None
    {
      this.cmp, this.cells, this.frozen, sub := cmp, cells, frozen, None;
    }

    /** match: the form is matched twice, the second time collecting.  Stray is the
        error of a comparison on the way. */
    method Match(pattern: Pat, form: Obj, ghost f: Form) returns (verdict: Verdict)
      requires Valid() && Wf(pattern) && Represents(cells, frozen, form, f)
      modifies this
      ensures Valid() && Grown(old(cells), old(frozen), cells, frozen) && verdict == Judge(cmp, pattern, f)
      ensures sub.Some? <==> verdict == Yes
      ensures sub.Some? <==> exists bs: seq<Binding> :: Rel(same, pattern, f, bs)
      ensures forall bs: seq<Binding> :: Rel(same, pattern, f, bs) ==>
        exists spine: seq<nat> :: Stacked(cells, frozen, sub.value, spine, bs, Nil, |old(cells)|)
    {
      hide Stacked, Represents, Rel, MatchSpec, Judge, Grown, Wf;
      sub := None;
      JudgeIsMatch(cmp, pattern, f);
      ghost var none;
      verdict, none := MatchRec(pattern, form, f);
      if verdict == Yes {
        sub := Some(Nil);
        ghost var h, F := cells, frozen;
        GrownKept(old(cells), old(frozen), h, F);
        RepresentsKept(old(cells), old(frozen), h, F, form, f);
        var again, spine := MatchRec(pattern, form, f);
        assert again == Yes;
        ghost var bs := MatchSpec(same, pattern, f).value;
        MatchIsRelation(same, pattern, f, bs);
        forall b | Rel(same, pattern, f, b) ensures b == bs { MatchIsRelation(same, pattern, f, b); }
        StackedLower(cells, frozen, sub.value, spine, bs, Nil, |h|, |old(cells)|);
        GrownTwice(old(cells), old(frozen), h, F, cells, frozen);
      } else {
        forall b ensures !Rel(same, pattern, f, b) { MatchIsRelation(same, pattern, f, b); }
      }
    }

    method MatchRec(p: Pat, o: Obj, ghost f: Form) returns (verdict: Verdict, ghost spine: seq<nat>)
      requires Valid() && Wf(p) && Represents(cells, frozen, o, f)
      modifies this
      ensures Valid() && Grown(old(cells), old(frozen), cells, frozen) && sub.Some? == old(sub).Some?
      ensures verdict == Judge(cmp, p, f) && (verdict == Yes <==> MatchSpec(same, p, f).Some?)
      ensures verdict == Yes && sub.Some? ==>
        Stacked(cells, frozen, sub.value, spine, MatchSpec(same, p, f).value, old(sub).value, |old(cells)|)
      decreases p, 2
    {
      hide Stacked;
      var pat, form := p, o;
      ghost var g: Form, acc: seq<Binding> := f, [];
      spine := [];
      CatNil(MatchSpec(same, p, f));
      if sub.Some? { StackedNone(cells, frozen, sub.value, |cells|); }
      while pat.PPair?
        invariant Valid() && Grown(old(cells), old(frozen), cells, frozen) && sub.Some? == old(sub).Some?
        invariant (pat == p || pat < p) && Wf(pat) && Represents(cells, frozen, form, g)
        invariant MatchSpec(same, p, f) == Cat(MatchSpec(same, pat, g), acc) && Judge(cmp, p, f) == Judge(cmp, pat, g)
        invariant sub.Some? ==> Stacked(cells, frozen, sub.value, spine, acc, old(sub).value, |old(cells)|)
        decreases pat
      {
        ghost var h, F, s, before := cells, frozen, sub, acc;
        if pat.car.PRep? {
          var done, more := MatchReppat(pat, form, g);
          if done == Yes && sub.Some? {
            StackedOn(h, F, cells, frozen, s.value, spine, acc, old(sub).value, |old(cells)|,
                      sub.value, more, MatchSpec(same, pat, g).value);
          }
          return done, more + spine;
        }
        if !form.Ref? { return No, []; }
        var done, more := MatchRec(pat.car, cells[form.addr].car, g.car);
        if done != Yes { return done, []; }
        if sub.Some? {
          StackedOn(h, F, cells, frozen, s.value, spine, acc, old(sub).value, |old(cells)|,
                    sub.value, more, MatchSpec(same, pat.car, g.car).value);
          spine := more + spine;
        }
        acc := MatchSpec(same, pat.car, g.car).value + acc;
        CatCat(MatchSpec(same, pat.cdr, g.cdr), MatchSpec(same, pat.car, g.car).value, before);
        form := cells[form.addr].cdr;
        RepresentsKept(h, F, cells, frozen, form, g.cdr);
        pat, g := pat.cdr, g.cdr;
      }
      ghost var h, F, s := cells, frozen, sub;
      ghost var more;
      verdict, more := MatchAtom(pat, form, g);
      if verdict == Yes && sub.Some? {
        StackedOn(h, F, cells, frozen, s.value, spine, acc, old(sub).value, |old(cells)|,
                  sub.value, more, MatchSpec(same, pat, g).value);
      }
      spine := more + spine;
    }

    /** The part of match_rec after the loop over pairs. */
    method MatchAtom(pat: Pat, form: Obj, ghost f: Form) returns (verdict: Verdict, ghost spine: seq<nat>)
      requires Valid() && Wf(pat) && !pat.PPair? && Represents(cells, frozen, form, f)
      modifies this
      ensures Valid() && Grown(old(cells), old(frozen), cells, frozen) && sub.Some? == old(sub).Some?
      ensures verdict == Judge(cmp, pat, f) && (verdict == Yes <==> MatchSpec(same, pat, f).Some?)
      ensures verdict == Yes && sub.Some? ==>
        Stacked(cells, frozen, sub.value, spine, MatchSpec(same, pat, f).value, old(sub).value, |old(cells)|)
      decreases pat, 1
    {
      spine := [];
      match pat {
        case PVar =>
          if sub.Some? { spine := Push(form, One(f)); }
          return Yes, spine;
        case PNil => return if form.Nil? then Yes else No, [];
        case PVec(items) =>
          if !form.Vec? { return No, []; }
          VectorFits(same, items, f.items);
          verdict, spine := MatchVector(items, form.elems, f.items);
        case PId(x) => return if form.Id? then cmp(x, form.id) else No, [];
        case PAtom(v) => return if form == Atom(v) then Yes else No, [];
        case PRep(_, _) => assert false;
      }
    }

    /** ctx->sub = CONS(o, ctx->sub) */
    method Push(o: Obj, ghost b: Binding) returns (ghost spine: seq<nat>)
      requires Valid() && sub.Some? && Binds(cells, frozen, o, b)
      modifies this`cells, this`sub
      ensures Valid() && old(cells) <= cells && sub.Some?
      ensures Stacked(cells, frozen, sub.value, spine, [b], old(sub).value, |old(cells)|)
    {
      StackedPush(cells, frozen, o, b, sub.value);
      spine := [|cells|];
      cells, sub := cells + [Cell(o, sub.value)], Some(Ref(|cells|));
    }

    method MatchVector(items: Pat, elems: seq<Obj>, ghost f: Form) returns (verdict: Verdict, ghost spine: seq<nat>)
      requires Valid() && Wf(items) && PatList(items) && RepLast(items) && RepresentsAll(cells, frozen, elems, f)
      modifies this
      ensures Valid() && Grown(old(cells), old(frozen), cells, frozen) && sub.Some? == old(sub).Some?
      ensures verdict == if FitsVector(items, CountPairs(f)) then Judge(cmp, items, f) else No
      ensures verdict == Yes <==> MatchSpec(same, items, f).Some?
      ensures verdict == Yes && sub.Some? ==>
        Stacked(cells, frozen, sub.value, spine, MatchSpec(same, items, f).value, old(sub).value, |old(cells)|)
      decreases items, 2
    {
      hide Stacked;
      spine := [];
      var plen, repeats := PatPairs(items), EndsInRep(items);
      VectorFits(same, items, f);
      RepresentsLength(cells, frozen, elems, f);
      if sub.Some? { StackedNone(cells, frozen, sub.value, |cells|); }
      if plen == 0 { return if elems == [] then Yes else No, []; }
      if repeats {
        if |elems| < plen - 1 { return No, []; }
      } else if plen != |elems| {
        return No, [];
      }
      var len := if repeats then plen - 1 else plen;
      var pat, i := items, 0;
      ghost var g: Form, acc: seq<Binding> := f, [];
      CatNil(MatchSpec(same, items, f));
      while i < len
        invariant 0 <= i <= len && PatPairs(pat) == plen - i && |elems| >= len
        invariant Valid() && Grown(old(cells), old(frozen), cells, frozen) && sub.Some? == old(sub).Some?
        invariant (pat == items || pat < items) && Wf(pat) && PatList(pat) && RepLast(pat) && EndsInRep(pat) == repeats
        invariant RepresentsAll(cells, frozen, elems[i..], g)
        invariant MatchSpec(same, items, f) == Cat(MatchSpec(same, pat, g), acc)
        invariant Judge(cmp, items, f) == Judge(cmp, pat, g)
        invariant sub.Some? ==> Stacked(cells, frozen, sub.value, spine, acc, old(sub).value, |old(cells)|)
      {
        ghost var h, F, s, before := cells, frozen, sub, acc;
        assert !pat.car.PRep? && g.FPair?;
        var done, more := MatchRec(pat.car, elems[i], g.car);
        if done != Yes { return done, []; }
        if sub.Some? {
          StackedOn(h, F, cells, frozen, s.value, spine, acc, old(sub).value, |old(cells)|,
                    sub.value, more, MatchSpec(same, pat.car, g.car).value);
          spine := more + spine;
        }
        acc := MatchSpec(same, pat.car, g.car).value + acc;
        CatCat(MatchSpec(same, pat.cdr, g.cdr), MatchSpec(same, pat.car, g.car).value, before);
        RepresentsAllKept(h, F, cells, frozen, elems[i..][1..], g.cdr);
        assert elems[i..][1..] == elems[i + 1..];
        pat, g, i := pat.cdr, g.cdr, i + 1;
      }
      if repeats {
        ghost var h, F, s := cells, frozen, sub;
        var done, more := MatchRepvec(pat, elems, i, g);
        if done == Yes && sub.Some? {
          StackedOn(h, F, cells, frozen, s.value, spine, acc, old(sub).value, |old(cells)|,
                    sub.value, more, MatchSpec(same, pat, g).value);
        }
        return done, more + spine;
      }
      assert pat.PNil? && g.FNil?;
      assert [] + acc == acc;
      return Yes, spine;
    }

    /** match_reppat on a list: (reppat <ellipsis> <pattern> ... . <pattern>) */
    method MatchReppat(arg: Pat, o: Obj, ghost f: Form) returns (verdict: Verdict, ghost spine: seq<nat>)
      requires Valid() && Wf(arg) && arg.PPair? && arg.car.PRep? && Represents(cells, frozen, o, f)
      modifies this
      ensures Valid() && Grown(old(cells), old(frozen), cells, frozen) && sub.Some? == old(sub).Some?
      ensures verdict == Judge(cmp, arg, f) && (verdict == Yes <==> MatchSpec(same, arg, f).Some?)
      ensures verdict == Yes && sub.Some? ==>
        Stacked(cells, frozen, sub.value, spine, MatchSpec(same, arg, f).value, old(sub).value, |old(cells)|)
      decreases arg, 1
    {
      hide Stacked, Transpose, Column, MatchSpec, MatchRows, Judge, JudgeRows;
      RepSpec(same, arg, f);
      RepJudge(cmp, arg, f);
      var pat, tail, n, form := arg.car.pat, arg.cdr, -1, o;
      spine := [];
      if !tail.PNil? {
        var k := CountObjPairs(o, f);
        n := k - PatPairs(tail);
        if n < 0 { return No, []; }
      }
      ghost var N: nat, last := CountPairs(f) - PatPairs(tail), sub;
      var rest: Obj;
      if pat.PVar? {
        rest, spine := MatchPvars(tail, n, o, f);
        PvarRows(same, f, N);
        PvarJudge(cmp, f, N);
      } else {
        verdict, rest, spine := MatchRepeats(pat, tail, n, o, f);
        if verdict != Yes { return verdict, []; }
      }
      ghost var h, F, s, row := cells, frozen, sub, Transpose(MatchRows(same, pat, f, N).value, PvCount(pat));
      assert sub.Some? && (pat.PVar? && tail.PNil? ==> IsList(f)) ==>
        Stacked(cells, frozen, sub.value, spine, row, last.value, |old(cells)|);
      var done, more := MatchRec(tail, rest, Tail(f, N));
      if done == Yes && sub.Some? {
        if tail.PNil? { NilSpec(same, Tail(f, N)); TailNil(f, N); }
        assert Stacked(h, F, s.value, spine, row, last.value, |old(cells)|);
        StackedOn(h, F, cells, frozen, s.value, spine, row, last.value, |old(cells)|,
                  sub.value, more, MatchSpec(same, tail, Tail(f, N)).value);
      }
      return done, more + spine;
    }

    method CountObjPairs(o: Obj, ghost f: Form) returns (n: nat)
      requires Represents(cells, frozen, o, f)
      ensures n == CountPairs(f)
    {
      var ls := o;
      ghost var g := f;
      n := 0;
      while ls.Ref?
        invariant Represents(cells, frozen, ls, g) && n + CountPairs(g) == CountPairs(f)
        decreases g
      {
        ls, g, n := cells[ls.addr].cdr, g.cdr, n + 1;
      }
    }

    /** (pvar <ellipsis> . tail): binds the form itself if nothing follows the
        ellipsis, and a copy of its first elements otherwise. */
    method MatchPvars(tail: Pat, n: int, o: Obj, ghost f: Form) returns (rest: Obj, ghost spine: seq<nat>)
      requires Valid() && Represents(cells, frozen, o, f) && PatPairs(tail) <= CountPairs(f)
      requires n == if tail.PNil? then -1 else CountPairs(f) - PatPairs(tail)
      modifies this
      ensures Valid() && Grown(old(cells), old(frozen), cells, frozen) && sub.Some? == old(sub).Some?
      ensures Represents(cells, frozen, rest, Tail(f, CountPairs(f) - PatPairs(tail)))
      ensures sub.Some? && (tail.PNil? ==> IsList(f)) ==>
        Stacked(cells, frozen, sub.value, spine, [Many(Ones(Elements(f, CountPairs(f) - PatPairs(tail))))],
                old(sub).value, |old(cells)|)
    {
      hide Stacked, Binds, MatchSpec;
      spine := [];
      rest := o;
      if tail.PNil? {
        ghost var g: Form, i: nat := f, 0;
        while rest.Ref?
          invariant cells == old(cells) && sub == old(sub) && frozen == old(frozen)
          invariant Represents(cells, frozen, rest, g) && i + CountPairs(g) == CountPairs(f) && g == Tail(f, i)
          decreases g
        {
          TailNext(f, i);
          rest, g, i := cells[rest.addr].cdr, g.cdr, i + 1;
        }
        if sub.Some? {
          if IsList(f) {
            var _ := ListBinds(cells, frozen, o, f);
            StackedPush(cells, frozen, o, Many(Ones(Elements(f, CountPairs(f)))), sub.value);
          }
          spine := [|cells|];
          cells, sub := cells + [Cell(o, sub.value)], Some(Ref(|cells|));
          RepresentsKept(old(cells), frozen, cells, frozen, rest, g);
        }
      } else {
        var accum;
        accum, rest := CopyElements(n, o, f);
        if sub.Some? {
          ghost var h := cells;
          spine := Push(accum, Many(Ones(Elements(f, n))));
          RepresentsKept(h, frozen, cells, frozen, rest, Tail(f, n));
          StackedLower(cells, frozen, sub.value, spine, [Many(Ones(Elements(f, n)))], old(sub).value, |h|,
            |old(cells)|);
        }
      }
    }

    /** A new list of the first n elements, built through a queue. */
    method CopyElements(n: nat, o: Obj, ghost f: Form) returns (accum: Obj, rest: Obj)
      requires Valid() && Represents(cells, frozen, o, f) && n <= CountPairs(f)
      modifies this`cells, this`frozen
      ensures Valid() && Grown(old(cells), old(frozen), cells, frozen)
      ensures Binds(cells, frozen, accum, Many(Ones(Elements(f, n))))
      ensures Represents(cells, frozen, rest, Tail(f, n))
    {
      hide Queue, Copied, IsChain, Binds;
      accum, rest := Nil, o;
      var i := 0;
      ghost var addrs: seq<nat> := [];
      QueueStart(cells, frozen, f, n);
      while i < n
        invariant 0 <= i <= n && Valid() && frozen == old(frozen) && sub == old(sub)
        invariant Queue(old(cells), cells, accum, addrs, i)
        invariant Copied(cells, frozen, addrs, f, n, i)
        invariant Represents(cells, frozen, rest, Tail(f, i))
      {
        ghost var h, addrs0, accum0 := cells, addrs, accum;
        TailNext(f, i);
        // SCM_QUEUE_ADD: fill the hole at the end with a new pair
        var elem := cells[rest.addr].car;
        rest := cells[rest.addr].cdr;
        if i == 0 {
          accum := Ref(|cells|);
          cells := cells + [Cell(elem, Nil)];
        } else {
          cells := cells[|cells| - 1 := Cell(cells[|cells| - 1].car, Ref(|cells|))] + [Cell(elem, Nil)];
        }
        addrs := addrs + [|h|];
        QueueAdded(old(cells), h, cells, frozen, accum0, accum, addrs0, f, n, i, elem);
        RepresentsKept(h, frozen, cells, frozen, rest, Tail(f, i + 1));
        i := i + 1;
      }
      QueueEnd(old(cells), cells, frozen, accum, addrs, f, n);
      RepresentsKept(cells, frozen, cells, frozen + Firsts(addrs, |addrs|), rest, Tail(f, n));
      frozen := frozen + Firsts(addrs, |addrs|);
    }

    /** The reppat against the elements of the form in front of the tail. */
    method MatchRepeats(pat: Pat, tail: Pat, k: int, o: Obj, ghost f: Form)
      returns (verdict: Verdict, rest: Obj, ghost spine: seq<nat>)
      requires Valid() && Wf(pat) && Represents(cells, frozen, o, f) && PatPairs(tail) <= CountPairs(f)
      requires k == if tail.PNil? then -1 else CountPairs(f) - PatPairs(tail)
      modifies this
      ensures Valid() && Grown(old(cells), old(frozen), cells, frozen) && sub.Some? == old(sub).Some?
      ensures verdict == JudgeRows(cmp, pat, f, CountPairs(f) - PatPairs(tail))
      ensures verdict == Yes <==> MatchRows(same, pat, f, CountPairs(f) - PatPairs(tail)).Some?
      ensures verdict == Yes ==> Represents(cells, frozen, rest, Tail(f, CountPairs(f) - PatPairs(tail)))
      ensures verdict == Yes && sub.Some? ==>
        Stacked(cells, frozen, sub.value, spine,
                Transpose(MatchRows(same, pat, f, CountPairs(f) - PatPairs(tail)).value, PvCount(pat)),
                old(sub).value, |old(cells)|)
      decreases pat, 6
    {
      hide Represents, Stacked, Accum, Before, Transpose, MatchRows, JudgeRows, Grown, SameBelow, Extended, Wf;
      ghost var N: nat, h0, F0, lo := CountPairs(f) - PatPairs(tail), cells, frozen, |cells|;
      var subSave := sub;
      var accum, A := Populate(PvCount(pat));
      GrownKept(h0, F0, cells, frozen);
      RepresentsKept(h0, F0, cells, frozen, o, f);
      ghost var h, F, C, rows := cells, frozen, [], [];
      verdict, rest, C, rows := MatchElements(pat, k, o, f, N, accum, subSave, A, lo);
      GrownExtended(h0, F0, h, F, cells, frozen);
      if verdict != Yes { return verdict, Nil, []; }
      ghost var h1, F1 := cells, frozen;
      spine := Finish(accum, subSave, A, C, rows, lo);
      GrownOn(h0, F0, h1, F1, cells, frozen);
      RepresentsKept(h1, F1, cells, frozen, rest, Tail(f, N));
    }

    /** The loop over the elements, which adds their bindings to the accumulator. */
    method MatchElements(pat: Pat, k: int, o: Obj, ghost f: Form, ghost N: nat, accum: Option<Obj>,
                         subSave: Option<Obj>,
                         ghost A: seq<nat>, ghost lo: nat)
      returns (verdict: Verdict, rest: Obj, ghost C: seq<seq<nat>>, ghost rows: seq<seq<Binding>>)
      requires Valid() && Wf(pat) && Represents(cells, frozen, o, f) && N <= CountPairs(f)
      requires k == N || (k < 0 && N == CountPairs(f))
      requires sub.Some? == subSave.Some? == accum.Some? && |A| == PvCount(pat) && lo <= |cells|
      requires subSave.Some? ==> (Below(subSave.value, lo) &&
        Accum(cells, frozen, accum.value, A, Empties(|A|), [], subSave.value, lo) && Before(A, Empties(|A|), |cells|))
      modifies this
      ensures Valid() && sub.Some? == subSave.Some? && Extended(old(cells), old(frozen), cells, frozen, lo) &&
        lo <= |cells|
      ensures verdict == JudgeRows(cmp, pat, f, N) && (verdict == Yes <==> MatchRows(same, pat, f, N).Some?)
      ensures verdict == Yes ==> Represents(cells, frozen, rest, Tail(f, N)) && MatchRows(same, pat, f, N) == Some(rows)
      ensures verdict == Yes && accum.Some? ==> Accum(cells, frozen, accum.value, A, C, rows, subSave.value, lo)
      decreases pat, 5
    {
      hide Represents, Accum, Before, Repeated, MatchRows, MatchSpec, Judge, JudgeRows, JudgedUpTo, Extended, Wf, Tail;
      var n := k;
      ghost var h0, F0, i: nat, g := cells, frozen, 0, f;
      rest, C, rows := o, Empties(|A|), [];
      ExtendedStart(h0, F0, lo);
      RepeatedStart(same, pat, f, N);
      JudgedStart(cmp, pat, f, N);
      RepresentsParts(cells, frozen, rest, g);
      while rest.Ref? && n != 0
        invariant Valid() && Extended(h0, F0, cells, frozen, lo) && lo <= |cells|
        invariant i <= N && n == (if k < 0 then k - i else N - i)
        invariant Represents(cells, frozen, rest, g) && (rest.Ref? <==> g.FPair?)
        invariant Repeated(same, pat, f, N, g, i, rows)
        invariant JudgedUpTo(cmp, pat, f, N, g, i)
        invariant sub.Some? == subSave.Some? == accum.Some?
        invariant subSave.Some? ==>
          (Accum(cells, frozen, accum.value, A, C, rows, subSave.value, lo) && Before(A, C, |cells|))
        decreases g
      {
        ghost var h, F := cells, frozen;
        RepresentsParts(cells, frozen, rest, g);
        RepeatedLess(same, pat, f, N, g, i, rows);
        var done, C', row := MatchElement(pat, cells[rest.addr].car, g.car, accum, subSave, A, C, rows, lo);
        ExtendedTwice(h0, F0, h, F, cells, frozen, lo);
        JudgedNext(cmp, pat, f, N, g, i);
        if done != Yes {
          RepeatedFail(same, pat, f, N, g, i, rows);
          return done, Nil, C, rows;
        }
        RepeatedNext(same, pat, f, N, g, i, rows, row);
        rows, C := rows + [row], C';
        RepresentsKept(h, F, cells, frozen, h[rest.addr].cdr, g.cdr);
        KeptCell(h, F, cells, frozen, rest.addr);
        RepresentsParts(cells, frozen, h[rest.addr].cdr, g.cdr);
        rest, n, g, i := cells[rest.addr].cdr, n - 1, g.cdr, i + 1;
      }
      RepeatedEnd(same, pat, f, N, g, i, rows);
      JudgedEnd(cmp, pat, f, N, g);
      verdict := Yes;
    }

    /** match_reppat on a vector: the reppat takes the elements from i on. */
    method MatchRepvec(arg: Pat, elems: seq<Obj>, start: nat, ghost f: Form)
      returns (verdict: Verdict, ghost spine: seq<nat>)
      requires Valid() && Wf(arg) && arg.PPair? && arg.car.PRep? && arg.cdr.PNil?
      requires start <= |elems| && RepresentsAll(cells, frozen, elems[start..], f)
      modifies this
      ensures Valid() && Grown(old(cells), old(frozen), cells, frozen) && sub.Some? == old(sub).Some?
      ensures verdict == Judge(cmp, arg, f) && (verdict == Yes <==> MatchSpec(same, arg, f).Some?)
      ensures verdict == Yes && sub.Some? ==>
        Stacked(cells, frozen, sub.value, spine, MatchSpec(same, arg, f).value, old(sub).value, |old(cells)|)
      decreases arg, 1
    {
      hide Stacked, Accum, Before, Transpose, Repeated, MatchRows, MatchSpec, Judge, JudgeRows, JudgedUpTo, Grown,
           SameBelow, Extended, Represents, RepresentsAll, Tail;
      var pat, subSave, i := arg.car.pat, sub, start;
      ghost var N := CountPairs(f);
      ghost var h0, F0, lo := cells, frozen, |cells|;
      spine := [];
      RepSpec(same, arg, f);
      RepJudge(cmp, arg, f);
      var accum, A := Populate(PvCount(pat));
      ghost var C: seq<seq<nat>>, rows: seq<seq<Binding>>, g := Empties(|A|), [], f;
      GrownKept(h0, F0, cells, frozen);
      RepresentsAllKept(h0, F0, cells, frozen, elems[start..], f);
      RepresentsLength(cells, frozen, elems[start..], f);
      RepeatedStart(same, pat, f, N);
      JudgedStart(cmp, pat, f, N);
      while i < |elems|
        invariant start <= i <= |elems| && N == |elems| - start && |A| == PvCount(pat)
        invariant Valid() && Grown(h0, F0, cells, frozen) && lo <= |cells|
        invariant RepresentsAll(cells, frozen, elems[i..], g)
        invariant Repeated(same, pat, f, N, g, i - start, rows)
        invariant JudgedUpTo(cmp, pat, f, N, g, i - start)
        invariant sub.Some? == subSave.Some? == accum.Some?
        invariant subSave.Some? ==>
          (Accum(cells, frozen, accum.value, A, C, rows, subSave.value, lo) && Before(A, C, |cells|))
      {
        ghost var h, F := cells, frozen;
        RepresentsAllParts(cells, frozen, elems[i..], g);
        RepeatedLess(same, pat, f, N, g, i - start, rows);
        var done, C', row := MatchElement(pat, elems[i], g.car, accum, subSave, A, C, rows, lo);
        GrownExtended(h0, F0, h, F, cells, frozen);
        JudgedNext(cmp, pat, f, N, g, i - start);
        if done != Yes { RepeatedFail(same, pat, f, N, g, i - start, rows); return done, []; }
        RepeatedNext(same, pat, f, N, g, i - start, rows, row);
        rows, C := rows + [row], C';
        RepresentsAllKept(h, F, cells, frozen, elems[i..][1..], g.cdr);
        assert elems[i..][1..] == elems[i + 1..];
        g, i := g.cdr, i + 1;
      }
      RepeatedEnd(same, pat, f, N, g, i - start, rows);
      JudgedEnd(cmp, pat, f, N, g);
      RepresentsAllParts(cells, frozen, elems[i..], g);
      ghost var h1, F1 := cells, frozen;
      spine := Finish(accum, subSave, A, C, rows, lo);
      GrownOn(h0, F0, h1, F1, cells, frozen);
      NilSpec(same, g);
      NilJudge(cmp, g);
      assert [] + Transpose(rows, PvCount(pat)) == Transpose(rows, PvCount(pat));
      verdict := Yes;
    }

    /** One repetition: match the element on top of sub_save and merge what it
        bound into the accumulator. */
    method MatchElement(pat: Pat, o: Obj, ghost f: Form, accum: Option<Obj>, subSave: Option<Obj>,
                        ghost A: seq<nat>, ghost C: seq<seq<nat>>, ghost rows: seq<seq<Binding>>, ghost lo: nat)
      returns (verdict: Verdict, ghost C': seq<seq<nat>>, ghost row: seq<Binding>)
      requires Valid() && Wf(pat) && Represents(cells, frozen, o, f) && accum.Some? == subSave.Some?
      requires |A| == PvCount(pat) && lo <= |cells| && (subSave.Some? ==> Below(subSave.value, lo))
      requires accum.Some? ==>
        Accum(cells, frozen, accum.value, A, C, rows, subSave.value, lo) && Before(A, C, |cells|)
      modifies this
      ensures Valid() && sub.Some? == subSave.Some?
      ensures Extended(old(cells), old(frozen), cells, frozen, lo) && Kept(old(cells), old(frozen), cells, frozen)
      ensures lo <= |cells|
      ensures verdict == Judge(cmp, pat, f) && (verdict == Yes <==> MatchSpec(same, pat, f).Some?)
      ensures verdict == Yes ==> row == MatchSpec(same, pat, f).value
      ensures verdict == Yes && accum.Some? ==>
        Accum(cells, frozen, accum.value, A, C', rows + [row], subSave.value, lo) && Before(A, C', |cells|)
      decreases pat, 4
    {
      hide Stacked, IsChain, Chained, Apart, Mergeable, Merged;
      sub, C', row := subSave, C, [];
      ghost var lo' := |cells|;
      ghost var spine;
      verdict, spine := MatchRec(pat, o, f);
      if verdict == Yes {
        row := MatchSpec(same, pat, f).value;
        if accum.Some? {
          AccumKept(old(cells), old(frozen), cells, frozen, accum.value, A, C, rows, subSave.value, lo);
        }
        ghost var h := cells;
        if accum.Some? {
          AccumMergeable(h, frozen, accum.value, A, C, rows, subSave.value, lo, sub.value, spine, row, lo');
        }
        MergeSubs(accum, sub, subSave, A, spine);
        if accum.Some? {
          MergedAccum(h, cells, frozen, accum.value, A, C, rows, subSave.value, lo, sub.value, spine, row, lo');
          C' := Pushed(C, spine);
        }
      }
    }

    /** The accumulator: one empty binding list for each variable of the reppat. */
    method Populate(pvcount: nat) returns (accum: Option<Obj>, ghost A: seq<nat>)
      requires Valid()
      modifies this`cells
      ensures Valid() && Grown(old(cells), frozen, cells, frozen) && accum.Some? == sub.Some?
      ensures |A| == pvcount
      ensures accum.Some? ==>
        Accum(cells, frozen, accum.value, A, Empties(|A|), [], sub.value, |old(cells)|) &&
          Before(A, Empties(|A|), |cells|)
    {
      accum, A := sub, [];
      ghost var h0 := cells;
      if sub.Some? {
        var n := pvcount;
        while n > 0
          invariant |A| == pvcount - n && accum.Some? && sub == old(sub) && frozen == old(frozen)
          invariant Populated(h0, cells, accum.value, A, sub.value)
        {
          PopulatedNext(h0, cells, accum.value, A, sub.value);
          cells := cells + [Cell(Nil, accum.value)];
          A := [|cells| - 1] + A;
          accum, n := Some(Ref(|cells| - 1)), n - 1;
        }
        PopulatedAccum(h0, cells, frozen, accum.value, A, sub.value);
      } else {
        A := seq(pvcount, _ => 0);
      }
    }

    /** merge_subs: moves each cell of `from` onto the list in the car of the
        corresponding cell of `to`. */
    method MergeSubs(to0: Option<Obj>, from0: Option<Obj>, end: Option<Obj>, ghost A: seq<nat>, ghost spine: seq<nat>)
      requires to0.Some? == from0.Some? == end.Some?
      requires to0.Some? ==> Mergeable(cells, to0.value, from0.value, end.value, A, spine)
      modifies this`cells
      ensures to0.Some? ==> Merged(old(cells), cells, A, spine, |A|)
      ensures to0.None? ==> cells == old(cells)
    {
      var to, from := to0, from0;
      ghost var k := 0;
      while from != end
        invariant to.Some? == from.Some? == end.Some? == to0.Some?
        invariant to.None? ==> cells == old(cells)
        invariant to.Some? ==> (k <= |A| && Merged(old(cells), cells, A, spine, k))
        invariant to.Some? ==> (to.value == Link(A, k, end.value) && from.value == Link(spine, k, end.value))
        decreases |spine| - k
      {
        MergedRest(old(cells), cells, to0.value, from0.value, end.value, A, spine, k);
        ghost var h := cells;
        var f, t := from.value.addr, to.value.addr;
        var next := cells[f].cdr;
        cells := cells[f := Cell(cells[f].car, cells[t].car)];
        cells := cells[t := Cell(Ref(f), cells[t].cdr)];
        to := Some(cells[t].cdr);
        from := Some(next);
        MergedNext(old(cells), h, cells, A, spine, k);
        k := k + 1;
      }
    }

    /** reverse! */
    method ReverseX(in0: Obj, ghost addrs: seq<nat>) returns (out: Obj)
      requires IsChain(cells, in0, addrs, Nil) && Distinct(addrs)
      modifies this`cells
      ensures OnlyCdrs(old(cells), cells, addrs) && IsChain(cells, out, Rev(addrs), Nil)
    {
      var ls := in0;
      out := Nil;
      ghost var k := 0;
      while ls.Ref?
        invariant k <= |addrs| && ls == Link(addrs, k, Nil)
        invariant OnlyCdrs(old(cells), cells, addrs)
        invariant forall i {:trigger addrs[i]} :: k <= i < |addrs| ==> cells[addrs[i]] == old(cells)[addrs[i]]
        invariant IsChain(cells, out, Rev(addrs[..k]), Nil)
        decreases |addrs| - k
      {
        assert old(cells)[addrs[k]].cdr == Link(addrs, k + 1, Nil);
        ReverseNext(cells, out, addrs, k);
        var next := cells[ls.addr].cdr;
        cells := cells[ls.addr := Cell(cells[ls.addr].car, out)];
        out, ls, k := ls, next, k + 1;
      }
      assert addrs[..k] == addrs;
    }

    /** The closing loop of match_reppat: puts every binding list in order. */
    method Finish(accum0: Option<Obj>, subSave: Option<Obj>, ghost A: seq<nat>, ghost C: seq<seq<nat>>,
                  ghost rows: seq<seq<Binding>>, ghost lo: nat)
      returns (ghost spine: seq<nat>)
      requires Valid() && accum0.Some? == subSave.Some? && lo <= |cells|
      requires accum0.Some? ==> Accum(cells, frozen, accum0.value, A, C, rows, subSave.value, lo)
      requires subSave.Some? ==> Below(subSave.value, lo)
      modifies this
      ensures Valid() && sub.Some? == subSave.Some? && |cells| == |old(cells)| && SameBelow(old(cells), cells, lo)
      ensures Kept(old(cells), old(frozen), cells, frozen) && forall a :: a in frozen && a !in old(frozen) ==> lo <= a
      ensures sub.Some? ==> Stacked(cells, frozen, sub.value, spine, Transpose(rows, |A|), subSave.value, lo)
    {
      hide Accum, Reversed, Stacked, All, IsChain, Distinct;
      var accum := accum0;
      sub, spine := accum0, A;
      ghost var k := 0;
      if accum.Some? { ReversedStart(cells, frozen, accum.value, A, C, rows, subSave.value, lo); }
      while accum != subSave
        invariant accum.Some? == subSave.Some? == accum0.Some? && sub == accum0 && frozen == old(frozen)
        invariant accum.None? ==> cells == old(cells)
        invariant accum.Some? ==> (k <= |A| == |C| && Reversed(old(cells), cells, A, C, k))
        invariant accum.Some? ==> accum.value == Link(A, k, subSave.value)
        decreases |A| - k
      {
        ghost var h := cells;
        ReversedHead(old(cells), cells, frozen, accum0.value, A, C, rows, subSave.value, lo, k);
        var a := accum.value.addr;
        var list := ReverseX(cells[a].car, C[k]);
        assert cells[a] == h[a] by { assert forall i :: 0 <= i < |C[k]| ==> C[k][i] != a; }
        ReversedNext(old(cells), h, cells, A, C, k, list);
        cells := cells[a := Cell(list, cells[a].cdr)];
        accum, k := Some(cells[a].cdr), k + 1;
      }
      if accum.Some? {
        AccumAbove(old(cells), frozen, accum0.value, A, C, rows, subSave.value, lo, k);
        ReversedStacked(old(cells), cells, frozen, sub.value, A, C, rows, subSave.value, lo);
        frozen := frozen + All(C);
      }
    }
  }

  lemma RepresentsParts(h: Heap, F: set<nat>, o: Obj, f: Form)
    requires Represents(h, F, o, f)
    ensures o.Ref? <==> f.FPair?
    ensures o.Ref? ==>
      (o.addr in F && o.addr < |h| && Represents(h, F, h[o.addr].car, f.car) && Represents(h, F, h[o.addr].cdr, f.cdr))
  {}

  lemma RepresentsAllParts(h: Heap, F: set<nat>, os: seq<Obj>, f: Form)
    requires RepresentsAll(h, F, os, f)
    ensures
      if os == [] then f.FNil?
      else f.FPair? && Represents(h, F, os[0], f.car) && RepresentsAll(h, F, os[1..], f.cdr)
  {}

  /** Stable pairs and those below `lo` are as they were, and pairs that became
      stable are new. */
  ghost predicate Extended(h: Heap, F: set<nat>, h': Heap, F': set<nat>, lo: nat) {
    Kept(h, F, h', F') && SameBelow(h, h', lo) && forall a :: a in F' && a !in F ==> |h| <= a
  }

  lemma ExtendedStart(h: Heap, F: set<nat>, lo: nat)
    requires lo <= |h|
    ensures Extended(h, F, h, F, lo)
  {}

  lemma ExtendedTwice(h0: Heap, F0: set<nat>, h1: Heap, F1: set<nat>, h2: Heap, F2: set<nat>, lo: nat)
    requires Extended(h0, F0, h1, F1, lo) && Extended(h1, F1, h2, F2, lo)
    requires forall a :: a in F0 ==> a < |h0|
    ensures Extended(h0, F0, h2, F2, lo)
  {}

  lemma GrownExtended(h0: Heap, F0: set<nat>, h1: Heap, F1: set<nat>, h2: Heap, F2: set<nat>)
    requires Grown(h0, F0, h1, F1) && Extended(h1, F1, h2, F2, |h0|) && forall a :: a in F2 ==> a < |h2|
    ensures Grown(h0, F0, h2, F2) && F1 <= F2
  {}

  lemma KeptCell(h: Heap, F: set<nat>, h': Heap, F': set<nat>, a: nat)
    requires Kept(h, F, h', F') && a in F && a < |h|
    ensures a < |h'| && h'[a] == h[a]
  {}

  lemma NilSpec(same: (Ident, Ident) -> bool, f: Form)
    ensures MatchSpec(same, PNil, f) == if f.FNil? then Some([]) else None
  {}

  lemma NilJudge(cmp: (Ident, Ident) -> Verdict, f: Form)
    ensures Judge(cmp, PNil, f) == if f.FNil? then Yes else No
  {}

  /** Judge on (reppat <ellipsis> . tail), unfolded once. */
  lemma RepJudge(cmp: (Ident, Ident) -> Verdict, arg: Pat, f: Form)
    requires arg.PPair? && arg.car.PRep?
    ensures
      var n := CountPairs(f) - PatPairs(arg.cdr);
      Judge(cmp, arg, f) ==
      if n < 0 then No
      else if JudgeRows(cmp, arg.car.pat, f, n) != Yes then JudgeRows(cmp, arg.car.pat, f, n)
      else Judge(cmp, arg.cdr, Tail(f, n))
  {}

  lemma {:induction false} PvarJudge(cmp: (Ident, Ident) -> Verdict, f: Form, n: nat)
    requires n <= CountPairs(f)
    ensures JudgeRows(cmp, PVar, f, n) == Yes
  {
    if n > 0 { PvarJudge(cmp, f.cdr, n - 1); }
  }

  /** The first i repetitions match, so the verdict is that of the others. */
  ghost predicate JudgedUpTo(cmp: (Ident, Ident) -> Verdict, q: Pat, f: Form, N: nat, g: Form, i: nat) {
    i <= N <= CountPairs(f) && N - i <= CountPairs(g) && JudgeRows(cmp, q, f, N) == JudgeRows(cmp, q, g, N - i)
  }

  lemma JudgedStart(cmp: (Ident, Ident) -> Verdict, q: Pat, f: Form, N: nat)
    requires N <= CountPairs(f)
    ensures JudgedUpTo(cmp, q, f, N, f, 0)
  {}

  lemma JudgedNext(cmp: (Ident, Ident) -> Verdict, q: Pat, f: Form, N: nat, g: Form, i: nat)
    requires JudgedUpTo(cmp, q, f, N, g, i) && i < N
    ensures if Judge(cmp, q, g.car) == Yes then JudgedUpTo(cmp, q, f, N, g.cdr, i + 1)
            else JudgeRows(cmp, q, f, N) == Judge(cmp, q, g.car)
  {}

  lemma JudgedEnd(cmp: (Ident, Ident) -> Verdict, q: Pat, f: Form, N: nat, g: Form)
    requires JudgedUpTo(cmp, q, f, N, g, N)
    ensures JudgeRows(cmp, q, f, N) == Yes
  {}

  lemma CatNil(o: Option<seq<Binding>>)
    ensures Cat(o, []) == o
  {
    if o.Some? { assert o.value + [] == o.value; }
  }

  lemma CatCat(o: Option<seq<Binding>>, a: seq<Binding>, b: seq<Binding>)
    ensures Cat(Cat(o, a), b) == Cat(o, a + b)
  {
    if o.Some? { assert o.value + a + b == o.value + (a + b); }
  }

  lemma {:induction false} TailNext(f: Form, i: nat)
    requires i < CountPairs(f)
    ensures Tail(f, i).FPair? && Tail(f, i).cdr == Tail(f, i + 1)
    ensures CountPairs(Tail(f, i)) == CountPairs(f) - i
  {
    if i > 0 { TailNext(f.cdr, i - 1); }
  }

  lemma {:induction false} TailNil(f: Form, n: nat)
    requires n <= CountPairs(f) && Tail(f, n).FNil?
    ensures IsList(f) && n == CountPairs(f)
  {
    if n > 0 { TailNil(f.cdr, n - 1); }
  }

  lemma {:induction false} ElementsAt(f: Form, n: nat)
    requires n <= CountPairs(f)
    ensures forall i :: 0 <= i < n ==> Tail(f, i).FPair? && Elements(f, n)[i] == Tail(f, i).car
  {
    if n > 0 {
      ElementsAt(f.cdr, n - 1);
      forall i | 0 <= i < n ensures Tail(f, i).FPair? && Elements(f, n)[i] == Tail(f, i).car {
        if i > 0 { assert Tail(f, i) == Tail(f.cdr, i - 1); }
      }
    }
  }

  lemma StackedLower(h: Heap, F: set<nat>, s: Obj, spine: seq<nat>, bs: seq<Binding>, end: Obj, lo: nat, lo': nat)
    requires Stacked(h, F, s, spine, bs, end, lo) && lo' <= lo
    ensures Stacked(h, F, s, spine, bs, end, lo')
  {}

  ghost function Empties(w: nat): (C: seq<seq<nat>>)
    ensures |C| == w
  {
    seq(w, _ => [])
  }

  ghost function CatRows(rows: seq<seq<Binding>>, o: Option<seq<seq<Binding>>>): Option<seq<seq<Binding>>> {
    if o.None? then None else Some(rows + o.value)
  }

  lemma CatRowsNil(o: Option<seq<seq<Binding>>>)
    ensures CatRows([], o) == o
  {
    if o.Some? { assert [] + o.value == o.value; }
  }

  lemma CatRowsNext(rows: seq<seq<Binding>>, row: seq<Binding>, o: Option<seq<seq<Binding>>>)
    ensures CatRows(rows, if o.None? then None else Some([row] + o.value)) == CatRows(rows + [row], o)
  {
    if o.Some? { assert rows + ([row] + o.value) == rows + [row] + o.value; }
  }

  lemma {:induction false} RepresentsLength(h: Heap, F: set<nat>, os: seq<Obj>, f: Form)
    requires RepresentsAll(h, F, os, f)
    ensures CountPairs(f) == |os| && IsList(f)
    decreases f
  {
    if f.FPair? { RepresentsLength(h, F, os[1..], f.cdr); }
  }

  lemma ReverseNext(h: Heap, out: Obj, addrs: seq<nat>, k: nat)
    requires k < |addrs| && addrs[k] < |h| && Distinct(addrs) && IsChain(h, out, Rev(addrs[..k]), Nil)
    ensures IsChain(h[addrs[k] := Cell(h[addrs[k]].car, out)], Ref(addrs[k]), Rev(addrs[..k + 1]), Nil)
  {
    var h', done := h[addrs[k] := Cell(h[addrs[k]].car, out)], Rev(addrs[..k]);
    assert forall i :: 0 <= i < |done| ==> done[i] == addrs[k - 1 - i];
    ChainKept(h, h', out, done, Nil);
    ChainCons(h', out, addrs[k], done, Nil);
    assert Rev(addrs[..k + 1]) == [addrs[k]] + done;
  }

  /** A queue: the i cells allocated since `h0`, linked in order from `accum`. */
  ghost predicate Queue(h0: Heap, h: Heap, accum: Obj, addrs: seq<nat>, i: nat) {
    |addrs| == i && |h| == |h0| + i && h0 <= h &&
    (forall k :: 0 <= k < i ==> addrs[k] == |h0| + k) && IsChain(h, accum, addrs, Nil)
  }

  ghost predicate Copied(h: Heap, F: set<nat>, addrs: seq<nat>, f: Form, n: nat, i: nat)
    requires n <= CountPairs(f)
  {
    i <= n && i <= |addrs| &&
    forall k :: 0 <= k < i ==> addrs[k] < |h| && Represents(h, F, h[addrs[k]].car, Elements(f, n)[k])
  }

  lemma QueueStart(h: Heap, F: set<nat>, f: Form, n: nat)
    requires n <= CountPairs(f)
    ensures Queue(h, h, Nil, [], 0) && Copied(h, F, [], f, n, 0)
  {}

  lemma QueueEnd(h0: Heap, h: Heap, F: set<nat>, accum: Obj, addrs: seq<nat>, f: Form, n: nat)
    requires n <= CountPairs(f) && Queue(h0, h, accum, addrs, n) && Copied(h, F, addrs, f, n, n)
    ensures Binds(h, F + Firsts(addrs, |addrs|), accum, Many(Ones(Elements(f, n))))
    ensures Grown(h0, F, h, F + Firsts(addrs, |addrs|)) && Kept(h, F, h, F + Firsts(addrs, |addrs|))
    ensures forall a :: a in Firsts(addrs, |addrs|) ==> |h0| <= a < |h|
  {
    var F' := F + Firsts(addrs, |addrs|);
    forall k | 0 <= k < n ensures addrs[k] in F' && Represents(h, F', h[addrs[k]].car, Elements(f, n)[k]) {
      RepresentsKept(h, F, h, F', h[addrs[k]].car, Elements(f, n)[k]);
    }
    OnesBind(h, F', accum, addrs, Elements(f, n));
  }

  lemma QueueChain(h: Heap, h': Heap, accum: Obj, addrs: seq<nat>, elem: Obj)
    requires IsChain(h, accum, addrs, Nil) || (addrs == [] && accum == Ref(|h|))
    requires forall k :: 0 <= k < |addrs| ==> addrs[k] == |h| - |addrs| + k
    requires h' == (if addrs == [] then h else h[|h| - 1 := Cell(h[|h| - 1].car, Ref(|h|))]) + [Cell(elem, Nil)]
    requires addrs == [] ==> accum == Ref(|h|)
    ensures IsChain(h', accum, addrs + [|h|], Nil)
  {
    var addrs' := addrs + [|h|];
    forall k {:trigger h'[addrs'[k]]} | 0 <= k < |addrs'|
      ensures addrs'[k] < |h'| && h'[addrs'[k]].cdr == Link(addrs', k + 1, Nil)
    {
      if k < |addrs| { assert addrs'[k] == addrs[k] && h[addrs[k]].cdr == Link(addrs, k + 1, Nil); }
    }
  }

  lemma QueueAdded(h0: Heap, h: Heap, h': Heap, F: set<nat>, accum0: Obj, accum: Obj, addrs: seq<nat>, f: Form,
                   n: nat, i: nat, elem: Obj)
    requires n <= CountPairs(f) && i < n && (forall a :: a in F ==> a < |h0|)
    requires Queue(h0, h, accum0, addrs, i) && accum == if i == 0 then Ref(|h|) else accum0
    requires Copied(h, F, addrs, f, n, i) && Tail(f, i).FPair? && Represents(h, F, elem, Tail(f, i).car)
    requires h' == (if i == 0 then h else h[|h| - 1 := Cell(h[|h| - 1].car, Ref(|h|))]) + [Cell(elem, Nil)]
    ensures Queue(h0, h', accum, addrs + [|h|], i + 1) && Copied(h', F, addrs + [|h|], f, n, i + 1)
    ensures Kept(h, F, h', F)
  {
    hide Represents, IsChain, Elements;
    ElementsAt(f, n);
    var addrs' := addrs + [|h|];
    RepresentsKept(h, F, h', F, elem, Elements(f, n)[i]);
    forall k | 0 <= k < i ensures Represents(h', F, h'[addrs'[k]].car, Elements(f, n)[k]) {
      RepresentsKept(h, F, h', F, h[addrs[k]].car, Elements(f, n)[k]);
    }
    QueueChain(h, h', accum, addrs, elem);
  }

  /** The cells allocated since `h0` are a stack of empty lists on `end`. */
  ghost predicate Populated(h0: Heap, h: Heap, accum: Obj, A: seq<nat>, end: Obj) {
    h0 <= h && |h| == |h0| + |A| && IsChain(h, accum, A, end) &&
    (forall j :: 0 <= j < |A| ==> A[j] == |h0| + |A| - 1 - j) &&
    (forall a :: |h0| <= a < |h| ==> h[a].car == Nil)
  }

  lemma PopulatedNext(h0: Heap, h: Heap, accum: Obj, A: seq<nat>, end: Obj)
    requires Populated(h0, h, accum, A, end)
    ensures Populated(h0, h + [Cell(Nil, accum)], Ref(|h|), [|h|] + A, end)
  {
    ChainKept(h, h + [Cell(Nil, accum)], accum, A, end);
    ChainCons(h + [Cell(Nil, accum)], accum, |h|, A, end);
  }

  lemma PopulatedAccum(h0: Heap, h: Heap, F: set<nat>, accum: Obj, A: seq<nat>, end: Obj)
    requires Populated(h0, h, accum, A, end) && (forall a :: a in F ==> a < |h0|)
    ensures Accum(h, F, accum, A, Empties(|A|), [], end, |h0|) && Before(A, Empties(|A|), |h|)
  {}

  lemma GrownTwice(h0: Heap, F0: set<nat>, h1: Heap, F1: set<nat>, h2: Heap, F2: set<nat>)
    requires Grown(h0, F0, h1, F1) && Grown(h1, F1, h2, F2)
    ensures Grown(h0, F0, h2, F2)
  {}

  lemma GrownKept(h: Heap, F: set<nat>, h': Heap, F': set<nat>)
    requires Grown(h, F, h', F')
    ensures Kept(h, F, h', F') && |h| <= |h'|
  {}

  /** After i repetitions: `rows` are the bindings of the first i elements of
      `f` and `g` is what follows them. */
  ghost predicate Repeated(same: (Ident, Ident) -> bool, q: Pat, f: Form, N: nat, g: Form, i: nat,
                           rows: seq<seq<Binding>>) {
    i <= N <= CountPairs(f) && g == Tail(f, i) && CountPairs(g) == CountPairs(f) - i && |rows| == i &&
    (forall j :: 0 <= j < |rows| ==> |rows[j]| == PvCount(q)) &&
    MatchRows(same, q, f, N) == CatRows(rows, MatchRows(same, q, g, N - i))
  }

  lemma RepeatedStart(same: (Ident, Ident) -> bool, q: Pat, f: Form, N: nat)
    requires N <= CountPairs(f)
    ensures Repeated(same, q, f, N, f, 0, [])
  {
    CatRowsNil(MatchRows(same, q, f, N));
  }

  lemma RepeatedLess(same: (Ident, Ident) -> bool, q: Pat, f: Form, N: nat, g: Form, i: nat, rows: seq<seq<Binding>>)
    requires Repeated(same, q, f, N, g, i, rows)
    ensures i <= N && |rows| == i && CountPairs(g) == CountPairs(f) - i
  {}

  lemma RepeatedNext(same: (Ident, Ident) -> bool, q: Pat, f: Form, N: nat, g: Form, i: nat, rows: seq<seq<Binding>>,
                     row: seq<Binding>)
    requires Repeated(same, q, f, N, g, i, rows) && i < N && MatchSpec(same, q, g.car) == Some(row)
    ensures Repeated(same, q, f, N, g.cdr, i + 1, rows + [row])
  {
    TailNext(f, i);
    CatRowsNext(rows, row, MatchRows(same, q, g.cdr, N - i - 1));
  }

  lemma RepeatedFail(same: (Ident, Ident) -> bool, q: Pat, f: Form, N: nat, g: Form, i: nat, rows: seq<seq<Binding>>)
    requires Repeated(same, q, f, N, g, i, rows) && i < N && MatchSpec(same, q, g.car).None?
    ensures MatchRows(same, q, f, N).None?
  {}

  lemma RepeatedEnd(same: (Ident, Ident) -> bool, q: Pat, f: Form, N: nat, g: Form, i: nat, rows: seq<seq<Binding>>)
    requires Repeated(same, q, f, N, g, i, rows) && (i == N || !g.FPair?)
    ensures i == N && g == Tail(f, N) && MatchRows(same, q, f, N) == Some(rows)
  {
    assert rows + [] == rows;
  }
}
