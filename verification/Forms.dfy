/** S-expressions as values.  A vector is held as the proper list of its items,
    so that one structural recursion covers lists and vectors. */
module Forms {

  datatype Option<+T> = None | Some(value: T)

  /** An identifier is a symbol or a far symbol.  Two far symbols made by
      different calls are different objects (EQ is identity), hence `stamp`.
      `env` is the packed environment: the depth of the capturing environment,
      or -(n + 1) for an identifier qualified by toplevel n. */
  datatype Ident = Sym(name: nat) | Far(stamp: nat, inner: Ident, env: int)

  /** scm_qualify_identifier, with the number of the toplevel. */
  function Qualify(sym: Ident, top: nat, stamp: nat): Ident {
    Far(stamp, sym, -(top + 1))
  }

  /** unwrap_farsymbol: the symbol at the root of an identifier. */
  function Root(id: Ident): (r: Ident)
    ensures r.Sym?
  {
    match id
    case Sym(_) => id
    case Far(_, inner, _) => Root(inner)
  }

  /** The outcome of a comparison or of a match.  Stray is the error for an
      identifier that is used outside the environment where it was captured
      (scm_macro_bad_scope). */
  datatype Verdict = Yes | No | Stray

  datatype Form =
    | FNil
    | FPair(car: Form, cdr: Form)
    | FVec(items: Form)
    | FId(id: Ident)
    | FAtom(val: int)

  /** The number of pairs on the spine (count_pairs in macro.c). */
  function CountPairs(f: Form): nat {
    if f.FPair? then 1 + CountPairs(f.cdr) else 0
  }

  /** What follows the first n pairs. */
  function Tail(f: Form, n: nat): Form
    requires n <= CountPairs(f)
  {
    if n == 0 then f else Tail(f.cdr, n - 1)
  }

  /** The elements of `es` in front of `r`. */
  function Prepend(es: seq<Form>, r: Form): Form {
    if es == [] then r else FPair(es[0], Prepend(es[1..], r))
  }

  predicate IsList(f: Form) {
    f.FNil? || (f.FPair? && IsList(f.cdr))
  }

  /** Vectors hold proper lists of items, at every depth. */
  predicate WfForm(f: Form) {
    match f
    case FPair(a, d) => WfForm(a) && WfForm(d)
    case FVec(items) => IsList(items) && WfForm(items)
    case _ => true
  }

  lemma {:induction false} PrependPairs(es: seq<Form>, r: Form)
    ensures CountPairs(Prepend(es, r)) == |es| + CountPairs(r)
    ensures Tail(Prepend(es, r), |es|) == r
  {
    if es != [] { PrependPairs(es[1..], r); }
  }
}
