/** The hash table of a module and the table of toplevels (src/library.c). */
module ModuleTables {
  import opened Forms

  /** (sym . location); a symbol is identified by its address. */
  datatype Entry = Entry(sym: nat, loc: nat)

  const INITIAL_N_BUCKETS := 16

  ghost predicate PowerOfTwo(n: nat)
    decreases n
  {
    n == 1 || (n > 1 && n % 2 == 0 && PowerOfTwo(n / 2))
  }

  /** SYMBOL_HASH: masking with a power of two less one is the remainder. */
  function Hash(sym: nat, n: nat): (h: nat)
    requires n > 0
    ensures h < n
  {
    (sym / 16) % n
  }

  /** Searching an alist. */
  function Assq(es: seq<Entry>, sym: nat): Option<nat> {
    if es == [] then None else if es[0].sym == sym then Some(es[0].loc) else Assq(es[1..], sym)
  }

  ghost predicate UniqueKeys(es: seq<Entry>) {
    forall i, j :: 0 <= i < j < |es| ==> es[i].sym != es[j].sym
  }

  lemma {:induction false} AssqIs(es: seq<Entry>, sym: nat)
    ensures Assq(es, sym).None? <==> forall i :: 0 <= i < |es| ==> es[i].sym != sym
    ensures UniqueKeys(es) ==> forall i :: 0 <= i < |es| && es[i].sym == sym ==> Assq(es, sym) == Some(es[i].loc)
  {
    if es != [] {
      AssqIs(es[1..], sym);
      assert forall i :: 0 < i < |es| ==> es[i] == es[1..][i - 1];
      assert forall i :: 0 <= i < |es[1..]| ==> es[1..][i] == es[i + 1];
    }
  }

  lemma {:induction false} AssqSnoc(es: seq<Entry>, e: Entry, sym: nat)
    ensures Assq(es + [e], sym) ==
      if Assq(es, sym).Some? then Assq(es, sym) else if e.sym == sym then Some(e.loc) else None
  {
    if es == [] {
      assert [e][1..] == [];
    } else {
      assert (es + [e])[1..] == es[1..] + [e];
      AssqSnoc(es[1..], e, sym);
    }
  }

  function Total(bs: seq<seq<Entry>>): nat {
    if bs == [] then 0 else |bs[0]| + Total(bs[1..])
  }

  lemma {:induction false} TotalUpdate(bs: seq<seq<Entry>>, i: nat, b: seq<Entry>)
    requires i < |bs|
    ensures Total(bs[i := b]) == Total(bs) - |bs[i]| + |b|
  {
    if i == 0 {
      assert bs[0 := b][1..] == bs[1..];
    } else {
      assert bs[i := b][1..] == bs[1..][i - 1 := b];
      TotalUpdate(bs[1..], i - 1, b);
    }
  }

  lemma {:induction false} TotalSnoc(bs: seq<seq<Entry>>, b: seq<Entry>)
    ensures Total(bs + [b]) == Total(bs) + |b|
  {
    if bs == [] {
      assert [b][1..] == [];
    } else {
      assert (bs + [b])[1..] == bs[1..] + [b];
      TotalSnoc(bs[1..], b);
    }
  }

  lemma {:induction false} TotalEmpty(bs: seq<seq<Entry>>)
    requires forall i :: 0 <= i < |bs| ==> bs[i] == []
    ensures Total(bs) == 0
  {
    if bs != [] {
      assert forall i :: 0 <= i < |bs[1..]| ==> bs[1..][i] == bs[i + 1];
      TotalEmpty(bs[1..]);
    }
  }

  /** Entries are in the bucket of their hash, keys are unique. */
  ghost predicate Proper(bs: seq<seq<Entry>>) {
    |bs| > 0 && forall i ::
      0 <= i < |bs| ==> UniqueKeys(bs[i]) && forall k :: 0 <= k < |bs[i]| ==> Hash(bs[i][k].sym, |bs|) == i
  }

  function Get(bs: seq<seq<Entry>>, sym: nat): Option<nat>
    requires |bs| > 0
  {
    Assq(bs[Hash(sym, |bs|)], sym)
  }

  function Prepended(bs: seq<seq<Entry>>, e: Entry): seq<seq<Entry>>
    requires |bs| > 0
  {
    var i := Hash(e.sym, |bs|);
    bs[i := [e] + bs[i]]
  }

  /** A new key in front of its bucket. */
  lemma PrependKeeps(bs: seq<seq<Entry>>, e: Entry)
    requires Proper(bs) && Get(bs, e.sym).None?
    ensures Proper(Prepended(bs, e)) && Total(Prepended(bs, e)) == Total(bs) + 1 && |Prepended(bs, e)| == |bs|
    ensures forall s :: Get(Prepended(bs, e), s) == if s == e.sym then Some(e.loc) else Get(bs, s)
  {
    var i := Hash(e.sym, |bs|);
    AssqIs(bs[i], e.sym);
    TotalUpdate(bs, i, [e] + bs[i]);
    assert ([e] + bs[i])[1..] == bs[i];
    forall j | 0 <= j < |bs|
      ensures UniqueKeys(Prepended(bs, e)[j]) &&
        forall k :: 0 <= k < |Prepended(bs, e)[j]| ==> Hash(Prepended(bs, e)[j][k].sym, |bs|) == j
    {
      if j == i { assert forall k :: 0 < k < |[e] + bs[i]| ==> ([e] + bs[i])[k] == bs[i][k - 1]; }
    }
  }

  lemma {:induction false} DoubleIsPower(n: nat)
    requires PowerOfTwo(n)
    ensures PowerOfTwo(2 * n)
  {
    assert 2 * n / 2 == n;
  }

  /** What of the old buckets is in the new ones: those before i, and of bucket i
      the first k entries. */
  ghost predicate Moved(bs: seq<seq<Entry>>, wide: seq<seq<Entry>>, i: nat, k: nat)
    requires |bs| > 0
  {
    i <= |bs| && (if i < |bs| then k <= |bs[i]| else k == 0) && Proper(wide) && Total(wide) == Total(bs[..i]) + k &&
    forall s :: Get(wide, s) ==
      if Hash(s, |bs|) < i then Get(bs, s) else if Hash(s, |bs|) == i then Assq(bs[i][..k], s) else None
  }

  lemma NothingMoved(bs: seq<seq<Entry>>, wide: seq<seq<Entry>>)
    requires |bs| > 0 && |wide| > 0 && forall i :: 0 <= i < |wide| ==> wide[i] == []
    ensures Moved(bs, wide, 0, 0)
  {
    TotalEmpty(wide);
  }

  lemma OneMoved(bs: seq<seq<Entry>>, wide: seq<seq<Entry>>, i: nat, k: nat)
    requires Proper(bs) && i < |bs| && k < |bs[i]| && Moved(bs, wide, i, k)
    ensures |wide| > 0 && Moved(bs, Prepended(wide, bs[i][k]), i, k + 1)
  {
    var e := bs[i][k];
    AssqIs(bs[i][..k], e.sym);
    PrependKeeps(wide, e);
    forall s ensures Assq(bs[i][..k + 1], s) == if s == e.sym then Some(e.loc) else Assq(bs[i][..k], s) {
      assert bs[i][..k + 1] == bs[i][..k] + [e];
      AssqSnoc(bs[i][..k], e, s);
      AssqIs(bs[i][..k], s);
    }
  }

  lemma BucketMoved(bs: seq<seq<Entry>>, wide: seq<seq<Entry>>, i: nat)
    requires i < |bs| && Moved(bs, wide, i, |bs[i]|)
    ensures Moved(bs, wide, i + 1, 0)
  {
    assert bs[i][..|bs[i]|] == bs[i];
    assert bs[..i + 1] == bs[..i] + [bs[i]];
    TotalSnoc(bs[..i], bs[i]);
  }

  lemma AllMoved(bs: seq<seq<Entry>>, wide: seq<seq<Entry>>)
    requires |bs| > 0 && Moved(bs, wide, |bs|, 0)
    ensures Proper(wide) && Total(wide) == Total(bs) && forall s :: Get(wide, s) == Get(bs, s)
  {
    assert bs[..|bs|] == bs;
  }

  lemma ProperNonempty(bs: seq<seq<Entry>>)
    requires Proper(bs)
    ensures |bs| > 0
  {
  }

  class ModuleTable {
    var buckets: seq<seq<Entry>>
    var nEntries: nat
    ghost var contents: map<nat, nat>

    ghost predicate Valid()
      reads this
    {
      Proper(buckets) && PowerOfTwo(|buckets|) && nEntries == Total(buckets) == |contents| &&
        nEntries <= 2 * |buckets| &&
      forall s :: Get(buckets, s) == if s in contents then Some(contents[s]) else None
    }

    constructor ()
      ensures Valid() && contents == map[]
    {
      buckets, nEntries, contents := seq(INITIAL_N_BUCKETS, _ => []), 0, map[];
      new;
      TotalEmpty(buckets);
      assert PowerOfTwo(1) && PowerOfTwo(2) && PowerOfTwo(4) && PowerOfTwo(8) && PowerOfTwo(16);
    }

    /** module_entry, with scm_module_lookup. */
    method Lookup(sym: nat) returns (r: Option<nat>)
      requires Valid()
      ensures r == if sym in contents then Some(contents[sym]) else None
    {
      var rest := buckets[Hash(sym, |buckets|)];
      while rest != []
        invariant Assq(rest, sym) == Get(buckets, sym)
        decreases |rest|
      {
        if rest[0].sym == sym { return Some(rest[0].loc); }
        rest := rest[1..];
      }
      return None;
    }

    /** module_rehash: twice as many buckets, the same contents. */
    method Rehash()
      requires Proper(buckets) && PowerOfTwo(|buckets|)
      modifies this`buckets
      ensures Proper(buckets) && PowerOfTwo(|buckets|) && |buckets| == 2 * |old(buckets)| &&
        Total(buckets) == Total(old(buckets))
      ensures forall s :: Get(buckets, s) == Get(old(buckets), s)
    {
      hide Proper, PowerOfTwo, Moved;
      ProperNonempty(buckets);
      var bs, n := buckets, 2 * |buckets|;
      var wide: seq<seq<Entry>>, i := seq(n, _ => []), 0;
      NothingMoved(bs, wide);
      while i < |bs|
        invariant i <= |bs| && buckets == bs && |wide| == n && Moved(bs, wide, i, 0)
      {
        var k := 0;
        while k < |bs[i]|
          invariant k <= |bs[i]| && buckets == bs && |wide| == n && Moved(bs, wide, i, k)
        {
          OneMoved(bs, wide, i, k);
          wide := Prepended(wide, bs[i][k]);
          k := k + 1;
        }
        BucketMoved(bs, wide, i);
        i := i + 1;
      }
      AllMoved(bs, wide);
      DoubleIsPower(|buckets|);
      buckets := wide;
    }

    /** scm_module_bind. */
    method Bind(sym: nat, loc: nat)
      requires Valid()
      modifies this
      ensures Valid() && contents == old(contents)[sym := loc]
    {
      hide PowerOfTwo, Total, Proper, Get, Prepended;
      ProperNonempty(buckets);
      var entry := Lookup(sym);
      if entry.Some? {
        SetCdr(sym, loc);
        contents := contents[sym := loc];
        return;
      }
      nEntries := nEntries + 1;
      if nEntries > |buckets| * 2 {
        Rehash();
        ProperNonempty(buckets);
      }
      PrependKeeps(buckets, Entry(sym, loc));
      buckets := Prepended(buckets, Entry(sym, loc));
      contents := contents[sym := loc];
    }

    /** SET_CDR of the entry of a symbol that has one. */
    method SetCdr(sym: nat, loc: nat)
      requires Valid() && sym in contents
      modifies this`buckets
      ensures Proper(buckets) && |buckets| == |old(buckets)| && Total(buckets) == Total(old(buckets))
      ensures forall s :: Get(buckets, s) == if s == sym then Some(loc) else Get(old(buckets), s)
    {
      var h, k := Hash(sym, |buckets|), 0;
      var bucket := buckets[h];
      AssqIs(bucket, sym);
      while bucket[k].sym != sym
        invariant k < |bucket| && (forall j :: 0 <= j < k ==> bucket[j].sym != sym)
        decreases |bucket| - k
      {
        k := k + 1;
      }
      SetKeeps(buckets, h, k, loc);
      buckets := buckets[h := bucket[k := Entry(sym, loc)]];
    }
  }

  lemma SetKeeps(bs: seq<seq<Entry>>, h: nat, k: nat, loc: nat)
    requires Proper(bs) && h < |bs| && k < |bs[h]|
    ensures
      var sym := bs[h][k].sym;
      var bs' := bs[h := bs[h][k := Entry(sym, loc)]];
      Proper(bs') && Total(bs') == Total(bs) && forall s :: Get(bs', s) == if s == sym then Some(loc) else Get(bs, s)
  {
    var sym := bs[h][k].sym;
    var b := bs[h][k := Entry(sym, loc)];
    var bs' := bs[h := b];
    TotalUpdate(bs, h, b);
    forall s ensures Get(bs', s) == if s == sym then Some(loc) else Get(bs, s) { SetOne(bs[h], k, loc, s); }
    SetOne(bs[h], k, loc, sym);
    forall i | 0 <= i < |bs'|
      ensures UniqueKeys(bs'[i]) && forall j :: 0 <= j < |bs'[i]| ==> Hash(bs'[i][j].sym, |bs'|) == i
    {
      if i == h { assert forall j :: 0 <= j < |b| ==> b[j].sym == bs[h][j].sym; }
    }
  }

  lemma SetOne(es: seq<Entry>, k: nat, loc: nat, s: nat)
    requires UniqueKeys(es) && k < |es|
    ensures UniqueKeys(es[k := Entry(es[k].sym, loc)])
    ensures Assq(es[k := Entry(es[k].sym, loc)], s) == if s == es[k].sym then Some(loc) else Assq(es, s)
  {
    var es' := es[k := Entry(es[k].sym, loc)];
    AssqIs(es, s);
    AssqIs(es', s);
    if s == es[k].sym {
      assert es'[k].sym == s;
    } else if i :| 0 <= i < |es| && es[i].sym == s {
      assert es'[i].sym == s;
    }
  }

  /* ---- Toplevels ---- */

  /** l_toplevels: a vector that is doubled when full.  Slot 0 stands for the
      global environment. */
  class Toplevels {
    var vec: array<Option<nat>>
    var n: nat
    ghost var modules: seq<nat>

    ghost predicate Valid()
      reads this, vec
    {
      1 <= n <= vec.Length && n == |modules| + 1 && vec[0] == None &&
      forall i :: 1 <= i < n ==> vec[i] == Some(modules[i - 1])
    }

    constructor ()
      ensures Valid() && modules == [] && fresh(vec)
    {
      vec := new Option<nat>[16](_ => None);
      n, modules := 1, [];
    }

    /** register_toplevel. */
    method Register(m: nat) returns (id: nat)
      requires Valid()
      modifies this, vec
      ensures Valid() && modules == old(modules) + [m] && id == old(n) == |modules|
      ensures vec == old(vec) || fresh(vec)
    {
      if n == vec.Length {
        var wide := new Option<nat>[2 * n](_ => None);
        var i := 0;
        while i < n
          invariant i <= n <= vec.Length && wide.Length == 2 * n && vec == old(vec) && n == old(n) &&
            modules == old(modules)
          invariant forall k :: 0 <= k < n ==> vec[k] == old(vec[k])
          invariant forall k :: 0 <= k < i ==> wide[k] == vec[k]
        {
          wide[i] := vec[i];
          i := i + 1;
        }
        vec := wide;
      }
      id := n;
      vec[n] := Some(m);
      n, modules := n + 1, modules + [m];
    }

    /** scm_identifier_toplevel: None is SCM_INVALID, Some(None) the global
        environment. */
    method IdentifierToplevel(id: Ident) returns (r: Option<Option<nat>>)
      requires Valid()
      requires id.Far? && id.env < 0 ==> -id.env - 1 < n
      ensures r == ToplevelOf(modules, id)
    {
      if !id.Far? || id.env >= 0 { return None; }
      var toplevel := -id.env - 1;
      return Some(if toplevel == 0 then None else vec[toplevel]);
    }
  }

  function ToplevelOf(modules: seq<nat>, id: Ident): Option<Option<nat>> {
    if !id.Far? || id.env >= 0 then None
    else if id.env == -1 then Some(None)
    else if -id.env - 2 < |modules| then Some(Some(modules[-id.env - 2]))
    else None
  }

  /** Qualifying is undone, also after any number of later modules. */
  lemma QualifyRoundTrip(modules: seq<nat>, more: seq<nat>, stamp: nat, sym: Ident, toplevel: nat)
    requires toplevel <= |modules|
    ensures ToplevelOf(modules + more, Qualify(sym, toplevel, stamp)) ==
      Some(if toplevel == 0 then None else Some(modules[toplevel - 1]))
    ensures Root(Qualify(sym, toplevel, stamp)) == Root(sym)
  {
  }

  /** Identifiers qualified in different toplevels stay different. */
  lemma QualifyInjective(stamp: nat, sym: Ident, t: nat, stamp': nat, sym': Ident, t': nat)
    requires Qualify(sym, t, stamp) == Qualify(sym', t', stamp')
    ensures sym == sym' && t == t'
  {
  }
}
