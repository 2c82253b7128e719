/** Environments and identifier resolution (src/env.c): frames, toplevels, far
    symbols, qualified identifiers, and the hygiene of wrapped identifiers. */
module Environments {
  import opened Forms

  /** (var ... . rest) */
  datatype Frame = Frame(formals: seq<Ident>, rest: Option<Ident>)

  /** The tail of an environment.  A module maps symbols to locations; variables
      of the global environment and of the builtin module are in value cells. */
  datatype Toplevel = Global | Builtin | Module(bindings: map<Ident, nat>)

  /** frames[0] is the most recent frame; `top` is the number of the toplevel at
      the tail, `tops` are all toplevels by number (l_toplevels). */
  datatype Env = Env(frames: seq<Frame>, top: nat, tops: seq<Toplevel>)

  function TopNumbered(env: Env, n: nat): Toplevel {
    if n < |env.tops| then env.tops[n] else Global
  }

  /** A location: position `pos` of the frame that has `height` - 1 frames below
      it (position |formals| is the rest argument), or a module location. */
  datatype Ref = Slot(height: nat, pos: nat) | Location(loc: nat)

  datatype Lookup = Found(ref: Ref) | Missing | BadScope

  function FramePos(id: Ident, formals: seq<Ident>, rest: Option<Ident>, pos: nat): Option<nat>
    decreases |formals|
  {
    if formals == [] then (if rest == Some(id) then Some(pos) else None)
    else if formals[0] == id then Some(pos)
    else FramePos(id, formals[1..], rest, pos + 1)
  }

  /** The location of `id` in a list of frames, the last of which has height 1. */
  function InFrames(id: Ident, frames: seq<Frame>): Option<Ref> {
    if frames == [] then None
    else
      var p := FramePos(id, frames[0].formals, frames[0].rest, 0);
      if p.Some? then Some(Slot(|frames|, p.value)) else InFrames(id, frames[1..])
  }

  function InToplevel(id: Ident, top: Toplevel): Lookup {
    if top.Module? && id.Sym? && id in top.bindings then Found(Location(top.bindings[id])) else Missing
  }

  /** The lowest n frames: scm_unpack_env. */
  function Lowest(env: Env, n: nat): Env
    requires n <= |env.frames|
  {
    Env(env.frames[|env.frames| - n..], env.top, env.tops)
  }

  predicate Unqualified(id: Ident) {
    id.Far? ==> id.env >= 0
  }

  /** identifier_toplevel: the number of the toplevel where an identifier that no
      frame binds is resolved. */
  function Home(id: Ident, env: Env): nat {
    if id.Far? && id.env < 0 then -id.env - 1 else env.top
  }

  function InFar(id: Ident, env: Env): Lookup
    requires id.Far?
  {
    if id.env < 0 then InToplevel(id.inner, TopNumbered(env, -id.env - 1))
    else if id.env > |env.frames| then BadScope
    else
      var r := InFrames(id.inner, Lowest(env, id.env).frames);
      if r.Some? then Found(r.value) else InToplevel(id.inner, TopNumbered(env, env.top))
  }

  /** scm_lookup_environment */
  function InEnv(id: Ident, env: Env): Lookup {
    var r := InFrames(id, env.frames);
    if r.Some? then Found(r.value)
    else if InToplevel(id, TopNumbered(env, env.top)).Found? then InToplevel(id, TopNumbered(env, env.top))
    else if id.Far? then InFar(id, env) else Missing
  }

  /** What an identifier means: a location, or if it is bound in no frame and no
      module, the toplevel variable of its root symbol. */
  datatype Meaning = At(ref: Ref) | TopVar(sym: Ident) | Nowhere

  function Denotation(id: Ident, env: Env): Meaning {
    match InEnv(id, env)
    case Found(r) => At(r)
    case Missing => TopVar(Root(id))
    case BadScope => Nowhere
  }

  /* ---- Well-formedness ---- */

  predicate Binds(f: Frame, id: Ident) {
    id in f.formals || f.rest == Some(id)
  }

  /** A far symbol captured at depth k is a formal only above frame k. */
  ghost predicate WfEnv(env: Env) {
    forall i, id :: 0 <= i < |env.frames| && Binds(env.frames[i], id) && id.Far? ==> id.env < |env.frames| - i
  }

  /** The identifier is a qualified symbol, or it was captured within the
      environment, and what it wraps is a symbol or is bound where it was captured
      (the assertion of lookup_far_symbol). */
  ghost predicate IdOk(id: Ident, env: Env) {
    id.Far? ==>
      if id.env < 0 then id.inner.Sym?
      else
        id.env <= |env.frames| &&
        (id.inner.Far? ==> InFrames(id.inner, Lowest(env, id.env).frames).Some?)
  }

  /** The lookup fails with the wrong-context error. */
  predicate Strays(id: Ident, env: Env) {
    id.Far? && id.env > |env.frames| && InFrames(id, env.frames).None?
  }

  /** scm_wrap_identifier; `stamp` identifies the new object. */
  function Wrap(id: Ident, env: Env, stamp: nat): Ident {
    if id.Far? && id.env < 0 then id
    else if id.Far? && id.env <= |env.frames| && Above(id, env, id.env).None? then Far(stamp, id.inner, id.env)
    else Far(stamp, id, |env.frames|)
  }

  /** lookup_n_frames over the frames above depth k. */
  function Above(id: Ident, env: Env, k: nat): Option<Ref>
    requires k <= |env.frames|
  {
    InFirst(id, env.frames, |env.frames| - k)
  }

  function InFirst(id: Ident, frames: seq<Frame>, n: nat): Option<Ref>
    requires n <= |frames|
    decreases n
  {
    if n == 0 then None
    else
      var p := FramePos(id, frames[0].formals, frames[0].rest, 0);
      if p.Some? then Some(Slot(|frames|, p.value)) else InFirst(id, frames[1..], n - 1)
  }

  lemma {:induction false} FramePosBinds(id: Ident, formals: seq<Ident>, rest: Option<Ident>, pos: nat)
    ensures FramePos(id, formals, rest, pos).Some? <==> id in formals || rest == Some(id)
  {
    if formals != [] && formals[0] != id {
      FramePosBinds(id, formals[1..], rest, pos + 1);
      assert id in formals <==> id in formals[1..];
    }
  }

  /* ---- What a lookup answers ---- */

  /** Formal number `pos` of the frame is the first that is `id`; one past the last
      stands for the rest parameter. */
  ghost predicate Position(f: Frame, id: Ident, pos: nat) {
    (pos < |f.formals| && f.formals[pos] == id && forall j :: 0 <= j < pos ==> f.formals[j] != id) ||
    (pos == |f.formals| && f.rest == Some(id) && id !in f.formals)
  }

  lemma {:induction false} FramePosIs(id: Ident, f: Frame, k: nat)
    requires k <= |f.formals| && forall j :: 0 <= j < k ==> f.formals[j] != id
    ensures
      var p := FramePos(id, f.formals[k..], f.rest, k);
      if p.Some? then Position(f, id, p.value) else !Binds(f, id)
    decreases |f.formals| - k
  {
    if k < |f.formals| && f.formals[k] != id {
      assert f.formals[k..][1..] == f.formals[k + 1..];
      FramePosIs(id, f, k + 1);
    }
  }

  /** The location is in the innermost of the frames that binds `id`. */
  ghost predicate BoundAt(id: Ident, frames: seq<Frame>, ref: Ref) {
    ref.Slot? && 0 < ref.height <= |frames| && Position(frames[|frames| - ref.height], id, ref.pos) &&
    forall i :: 0 <= i < |frames| - ref.height ==> !Binds(frames[i], id)
  }

  lemma {:induction false} InFramesIs(id: Ident, frames: seq<Frame>)
    ensures
      var r := InFrames(id, frames);
      if r.Some? then BoundAt(id, frames, r.value) else forall i :: 0 <= i < |frames| ==> !Binds(frames[i], id)
  {
    if frames != [] {
      var f, rest := frames[0], frames[1..];
      assert f.formals[0..] == f.formals;
      FramePosIs(id, f, 0);
      FramePosBinds(id, f.formals, f.rest, 0);
      InFramesIs(id, rest);
      assert forall i :: 0 < i < |frames| ==> frames[i] == rest[i - 1];
    }
  }

  /** Different identifiers of the frames have different locations. */
  lemma LocationsApart(x: Ident, y: Ident, frames: seq<Frame>)
    requires x != y && InFrames(x, frames).Some? && InFrames(y, frames).Some?
    ensures InFrames(x, frames) != InFrames(y, frames)
  {
    InFramesIs(x, frames);
    InFramesIs(y, frames);
  }

  /** Module number n has a location for a symbol. */
  ghost predicate InModule(sym: Ident, tops: seq<Toplevel>, n: nat, loc: nat) {
    n < |tops| && tops[n].Module? && sym.Sym? && sym in tops[n].bindings && tops[n].bindings[sym] == loc
  }

  /** In frames, or where those do not bind it in a module, or nowhere. */
  ghost predicate FoundIn(id: Ident, frames: seq<Frame>, tops: seq<Toplevel>, n: nat, l: Lookup) {
    if exists i :: 0 <= i < |frames| && Binds(frames[i], id) then l.Found? && BoundAt(id, frames, l.ref)
    else if exists loc :: InModule(id, tops, n, loc) then
      l.Found? && l.ref.Location? && InModule(id, tops, n, l.ref.loc)
    else l.Missing?
  }

  /** What looking up an identifier must answer: for one that no frame binds and that
      is no symbol of the module, what the wrapped identifier was where it was captured;
      for a qualified one only its module counts. */
  ghost predicate Resolves(id: Ident, env: Env, l: Lookup) {
    if id.Sym? || exists i :: 0 <= i < |env.frames| && Binds(env.frames[i], id) then
      FoundIn(id, env.frames, env.tops, env.top, l)
    else if id.env < 0 then FoundIn(id.inner, [], env.tops, -id.env - 1, l)
    else if id.env > |env.frames| then l.BadScope?
    else FoundIn(id.inner, env.frames[|env.frames| - id.env..], env.tops, env.top, l)
  }

  lemma InModuleIs(id: Ident, tops: seq<Toplevel>, n: nat, env: Env)
    requires env.tops == tops
    ensures
      var l := InToplevel(id, TopNumbered(env, n));
      if l.Found? then l.ref.Location? && InModule(id, tops, n, l.ref.loc)
      else l.Missing? && !exists loc :: InModule(id, tops, n, loc)
  {
  }

  lemma FoundInIs(id: Ident, env: Env, frames: seq<Frame>, n: nat, l: Lookup)
    ensures FoundIn(id, frames, env.tops, n, l) <==>
      l == if InFrames(id, frames).Some? then Found(InFrames(id, frames).value) else InToplevel(id, TopNumbered(env, n))
  {
    hide InFrames, Position;
    InFramesIs(id, frames);
    InModuleIs(id, env.tops, n, env);
    var r := InFrames(id, frames);
    if r.Some? {
      FramesBind(id, frames);
      if l.Found? && BoundAt(id, frames, l.ref) { BoundOnce(id, frames, l.ref); }
    }
  }

  lemma BoundOnce(id: Ident, frames: seq<Frame>, ref: Ref)
    requires BoundAt(id, frames, ref)
    ensures InFrames(id, frames) == Some(ref)
  {
    hide InFrames;
    InFramesIs(id, frames);
    assert Binds(frames[|frames| - ref.height], id);
  }

  /** The lookup answers that and nothing else. */
  lemma LookupResolves(id: Ident, env: Env, l: Lookup)
    ensures Resolves(id, env, l) <==> l == InEnv(id, env)
  {
    hide BoundAt, FoundIn;
    InFramesIs(id, env.frames);
    if InFrames(id, env.frames).Some? { FramesBind(id, env.frames); }
    FoundInIs(id, env, env.frames, env.top, l);
    if id.Far? && id.env < 0 { FoundInIs(id.inner, env, [], -id.env - 1, l); }
    if id.Far? && 0 <= id.env <= |env.frames| { FoundInIs(id.inner, env, Lowest(env, id.env).frames, env.top, l); }
  }

  lemma FramesBind(id: Ident, frames: seq<Frame>)
    requires InFrames(id, frames).Some?
    ensures exists i :: 0 <= i < |frames| && Binds(frames[i], id)
  {
    InFramesIs(id, frames);
    assert Binds(frames[|frames| - InFrames(id, frames).value.height], id);
  }

  lemma {:induction false} InFirstThen(id: Ident, frames: seq<Frame>, n: nat)
    requires n <= |frames|
    ensures InFrames(id, frames) ==
      if InFirst(id, frames, n).Some? then InFirst(id, frames, n) else InFrames(id, frames[n..])
    decreases n
  {
    if n == 0 { assert frames[0..] == frames; }
    else {
      InFirstThen(id, frames[1..], n - 1);
      assert frames[n..] == frames[1..][n - 1..];
    }
  }

  lemma {:induction false} InFirstBinds(id: Ident, frames: seq<Frame>, n: nat)
    requires n <= |frames|
    ensures InFirst(id, frames, n).Some? <==> exists i :: 0 <= i < n && Binds(frames[i], id)
    decreases n
  {
    if n > 0 {
      FramePosBinds(id, frames[0].formals, frames[0].rest, 0);
      InFirstBinds(id, frames[1..], n - 1);
      if InFirst(id, frames[1..], n - 1).Some? {
        var i :| 0 <= i < n - 1 && Binds(frames[1..][i], id);
        assert Binds(frames[i + 1], id);
      }
      if exists i :: 0 < i < n && Binds(frames[i], id) {
        var i :| 0 < i < n && Binds(frames[i], id);
        assert Binds(frames[1..][i - 1], id);
      }
    }
  }

  lemma {:induction false} InFirstHeight(id: Ident, frames: seq<Frame>, n: nat)
    requires n <= |frames|
    ensures InFirst(id, frames, n).Some? ==>
      InFirst(id, frames, n).value.Slot? && |frames| - n < InFirst(id, frames, n).value.height <= |frames|
    decreases n
  {
    if n > 0 { InFirstHeight(id, frames[1..], n - 1); }
  }

  /** A far symbol is not bound at or below the depth of its capture. */
  lemma NotBelow(id: Ident, env: Env)
    requires WfEnv(env) && id.Far? && 0 <= id.env <= |env.frames|
    ensures InFrames(id, Lowest(env, id.env).frames).None?
  {
    var low := Lowest(env, id.env).frames;
    InFirstBinds(id, low, |low|);
    InFirstThen(id, low, |low|);
    assert low[|low|..] == [];
    forall i | 0 <= i < |low| ensures !Binds(low[i], id) {
      assert low[i] == env.frames[|env.frames| - id.env + i];
    }
  }

  /** New frames on top of an environment. */
  function Extend(news: seq<Frame>, env: Env): Env {
    Env(news + env.frames, env.top, env.tops)
  }

  lemma ExtendLowest(news: seq<Frame>, env: Env, n: nat)
    requires n <= |env.frames|
    ensures Lowest(Extend(news, env), n) == Lowest(env, n)
  {
    assert (news + env.frames)[|news| + |env.frames| - n..] == env.frames[|env.frames| - n..];
  }

  /** Frames that do not bind an identifier do not change its meaning. */
  lemma SkipFrames(id: Ident, news: seq<Frame>, env: Env)
    requires (forall i :: 0 <= i < |news| ==> !Binds(news[i], id)) && !Strays(id, env)
    ensures InEnv(id, Extend(news, env)) == InEnv(id, env)
  {
    var all := news + env.frames;
    InFirstThen(id, all, |news|);
    InFirstBinds(id, all, |news|);
    assert forall i :: 0 <= i < |news| ==> all[i] == news[i];
    assert all[|news|..] == env.frames;
    if id.Far? && 0 <= id.env <= |env.frames| { ExtendLowest(news, env, id.env); }
  }

  lemma Unbound(id: Ident, env: Env)
    requires forall i :: 0 <= i < |env.frames| ==> !Binds(env.frames[i], id)
    ensures InFrames(id, env.frames).None?
  {
    InFirstThen(id, env.frames, |env.frames|);
    InFirstBinds(id, env.frames, |env.frames|);
    assert env.frames[|env.frames|..] == [];
  }

  /** Where it is made, the fresh identifier means what `id` means. */
  lemma WrapMeansHere(id: Ident, env: Env, stamp: nat)
    requires WfEnv(env) && IdOk(id, env)
    requires InFrames(Wrap(id, env, stamp), env.frames).None?
    ensures
      var w := Wrap(id, env, stamp);
      w.Far? && w.env <= |env.frames| && IdOk(w, env) && InEnv(w, env) == InEnv(id, env) && Root(w) == Root(id) &&
      Home(w, env) == Home(id, env)
  {
    hide InEnv, Root, WfEnv, InFirst, InFrames;
    if id.Far? && id.env < 0 {
      assert Wrap(id, env, stamp) == id;
    } else if id.Far? && Above(id, env, id.env).None? { AgainMeans(id, env, stamp); } else { NewMeans(id, env, stamp); }
  }

  /** Wrapped where it was captured or under frames that bind it, ... */
  lemma NewMeans(id: Ident, env: Env, stamp: nat)
    requires WfEnv(env) && Unqualified(id) && IdOk(id, env) && (id.Far? ==> Above(id, env, id.env).Some?)
    requires InFrames(Far(stamp, id, |env.frames|), env.frames).None?
    ensures IdOk(Far(stamp, id, |env.frames|), env) && InEnv(Far(stamp, id, |env.frames|), env) == InEnv(id, env)
    ensures Root(Far(stamp, id, |env.frames|)) == Root(id)
  {
    hide InFrames, InFirst, WfEnv;
    assert Lowest(env, |env.frames|).frames == env.frames;
    if id.Far? { InFirstThen(id, env.frames, |env.frames| - id.env); }
  }

  /** ... or made again from what it wraps. */
  lemma AgainMeans(id: Ident, env: Env, stamp: nat)
    requires WfEnv(env) && id.Far? && Unqualified(id) && IdOk(id, env) && Above(id, env, id.env).None?
    requires InFrames(Far(stamp, id.inner, id.env), env.frames).None?
    ensures IdOk(Far(stamp, id.inner, id.env), env) && InEnv(Far(stamp, id.inner, id.env), env) == InEnv(id, env)
    ensures Root(Far(stamp, id.inner, id.env)) == Root(id)
  {
    hide InFrames, InFirst, WfEnv;
    InFirstThen(id, env.frames, |env.frames| - id.env);
    NotBelow(id, env);
  }

  /** Frames that bind an identifier do change its meaning from what any identifier
      means below them. */
  lemma BoundAbove(id: Ident, news: seq<Frame>, env: Env, x: Ident, low: Env)
    requires (exists i :: 0 <= i < |news| && Binds(news[i], id)) && |low.frames| <= |env.frames|
    ensures Denotation(id, Extend(news, env)) != Denotation(x, low)
  {
    var all := news + env.frames;
    var i :| 0 <= i < |news| && Binds(news[i], id);
    assert Binds(all[i], id);
    InFirstBinds(id, all, |news|);
    InFirstThen(id, all, |news|);
    InFirstHeight(id, all, |news|);
    RefsBelow(x, low);
  }

  /** Capture avoidance: the identifier made for `id` in `env` means in an extension
      of `env` what `id` means in `env`, even where the new frames bind `id`, exactly
      if they do not bind the identifier made.  That is a new object, but for a
      qualified `id`, which is returned itself. */
  lemma WrapKeepsMeaning(id: Ident, env: Env, stamp: nat, news: seq<Frame>)
    requires WfEnv(env) && IdOk(id, env)
    requires Unqualified(id) ==> forall i :: 0 <= i < |env.frames| ==> !Binds(env.frames[i], Wrap(id, env, stamp))
    ensures Denotation(Wrap(id, env, stamp), Extend(news, env)) == Denotation(id, env) <==>
      forall i :: 0 <= i < |news| ==> !Binds(news[i], Wrap(id, env, stamp))
    ensures Home(Wrap(id, env, stamp), Extend(news, env)) == Home(id, env)
    ensures IdOk(Wrap(id, env, stamp), Extend(news, env)) && Wrap(id, env, stamp).env <= |env.frames|
  {
    hide InEnv, Binds, WfEnv, Lowest;
    var w := Wrap(id, env, stamp);
    if Unqualified(id) {
      Unbound(w, env);
      WrapMeansHere(id, env, stamp);
    }
    if forall i :: 0 <= i < |news| ==> !Binds(news[i], w) {
      SkipFrames(w, news, env);
    } else {
      BoundAbove(w, news, env, id, env);
    }
    if w.env >= 0 { ExtendLowest(news, env, w.env); }
  }

  /** A symbol qualified by a toplevel means in an environment what the symbol means
      at that toplevel, exactly if no frame binds the qualified identifier. */
  lemma QualifyKeepsMeaning(sym: Ident, top: nat, stamp: nat, env: Env)
    requires sym.Sym?
    ensures Denotation(Qualify(sym, top, stamp), env) == Denotation(sym, Env([], top, env.tops)) <==>
      forall i :: 0 <= i < |env.frames| ==> !Binds(env.frames[i], Qualify(sym, top, stamp))
    ensures Home(Qualify(sym, top, stamp), env) == top
  {
    var q, low := Qualify(sym, top, stamp), Env([], top, env.tops);
    if forall i :: 0 <= i < |env.frames| ==> !Binds(env.frames[i], q) {
      Unbound(q, env);
    } else {
      assert Extend(env.frames, Env([], env.top, env.tops)) == env;
      BoundAbove(q, env.frames, Env([], env.top, env.tops), sym, low);
    }
  }

  /** Pushing a frame keeps well-formedness if its far symbols were captured in
      the environment below, as wrapped identifiers are. */
  lemma PushKeepsWf(env: Env, frame: Frame)
    requires WfEnv(env) && forall id :: Binds(frame, id) && id.Far? ==> id.env <= |env.frames|
    ensures WfEnv(Extend([frame], env))
  {
    var all := [frame] + env.frames;
    forall i, id | 0 <= i < |all| && Binds(all[i], id) && id.Far? ensures id.env < |all| - i {
      if i > 0 { assert Binds(env.frames[i - 1], id); }
    }
  }

  /* ---- scm_identifierequalp ---- */

  function IdentifierEqual(x: Ident, xdepth: nat, y: Ident, env: Env): Verdict
    requires xdepth <= |env.frames|
  {
    var def := Lowest(env, xdepth);
    if Above(y, env, xdepth).Some? then No
    else if x == y then Yes
    else if InEnv(y, def).BadScope? || InEnv(x, def).BadScope? then Stray
    else if InEnv(y, def).Found? then (if InEnv(x, def) == InEnv(y, def) then Yes else No)
    else if InEnv(x, def).Found? then No
    else if Root(x) == Root(y) then Yes else No
  }

  /** It is an error exactly when one of two different identifiers was captured
      deeper than the definition and is not bound there, and the frames above do
      not bind the one of the use.  Otherwise it is true iff x in the environment
      of the definition and y in the environment of the use mean the same, except
      for one and the same identifier that was captured deeper than the definition:
      it is equal to itself, but means nothing at the definition. */
  lemma IdentifierEqualMeans(x: Ident, xdepth: nat, y: Ident, env: Env)
    requires xdepth <= |env.frames|
    ensures IdentifierEqual(x, xdepth, y, env) == Stray <==>
      Above(y, env, xdepth).None? && x != y && (Strays(y, Lowest(env, xdepth)) || Strays(x, Lowest(env, xdepth)))
    ensures IdentifierEqual(x, xdepth, y, env) != Stray && (x == y ==> !Strays(x, Lowest(env, xdepth))) ==>
      (IdentifierEqual(x, xdepth, y, env) == Yes <==> Denotation(x, Lowest(env, xdepth)) == Denotation(y, env))
    ensures Above(y, env, xdepth).None? && x == y && Strays(x, Lowest(env, xdepth)) ==>
      IdentifierEqual(x, xdepth, y, env) == Yes && Denotation(x, Lowest(env, xdepth)) == Nowhere
  {
    var n := |env.frames| - xdepth;
    var def, news := Lowest(env, xdepth), env.frames[..n];
    assert Extend(news, def) == env;
    InFirstBinds(y, env.frames, n);
    if Above(y, env, xdepth).Some? {
      InFirstThen(y, env.frames, n);
      InFirstHeight(y, env.frames, n);
      RefsBelow(x, def);
    } else if !Strays(y, def) {
      forall i | 0 <= i < n ensures !Binds(news[i], y) { assert news[i] == env.frames[i]; }
      SkipFrames(y, news, def);
    }
  }

  /** An inner let captures an identifier at depth 2 that a macro of depth 1 gets:
      the error is raised although both identifiers mean the same. */
  lemma StrayThoughSame()
    ensures
      var env, y := Env([Frame([], None), Frame([], None)], 0, [Global]), Far(0, Sym(5), 2);
      IdentifierEqual(Sym(5), 1, y, env) == Stray &&
      Denotation(Sym(5), Lowest(env, 1)) == Denotation(y, env) == TopVar(Sym(5))
  {
    var env, y := Env([Frame([], None), Frame([], None)], 0, [Global]), Far(0, Sym(5), 2);
    forall id: Ident, i | 0 <= i < 2 ensures !Binds(env.frames[i], id) { }
    Unbound(y, env);
    Unbound(y, Lowest(env, 1));
    Unbound(Sym(5), env);
    Unbound(Sym(5), Lowest(env, 1));
    Unbound(Sym(5), Lowest(env, 2));
    IdentifierEqualMeans(Sym(5), 1, y, env);
    InFirstBinds(y, env.frames, 1);
  }

  /** Locations of frames are within the environment. */
  lemma RefsBelow(id: Ident, env: Env)
    ensures InEnv(id, env).Found? && InEnv(id, env).ref.Slot? ==> InEnv(id, env).ref.height <= |env.frames|
  {
    FramesBelow(id, env.frames);
    if id.Far? && 0 <= id.env <= |env.frames| { FramesBelow(id.inner, Lowest(env, id.env).frames); }
  }

  lemma {:induction false} FramesBelow(id: Ident, frames: seq<Frame>)
    ensures InFrames(id, frames).Some? ==>
      InFrames(id, frames).value.Slot? && InFrames(id, frames).value.height <= |frames|
  {
    if frames != [] { FramesBelow(id, frames[1..]); }
  }

  /** It agrees with comparing the wrapped x, without allocating the wrapper, unless
      a frame above the definition binds the wrapper, which only a qualified x can
      meet. */
  lemma IdentifierEqualWraps(x: Ident, xdepth: nat, y: Ident, env: Env, stamp: nat)
    requires xdepth <= |env.frames| && IdentifierEqual(x, xdepth, y, env) != Stray
    requires WfEnv(Lowest(env, xdepth)) && IdOk(x, Lowest(env, xdepth))
    requires Unqualified(x) ==>
      forall i :: 0 <= i < |env.frames| ==> !Binds(env.frames[i], Wrap(x, Lowest(env, xdepth), stamp))
    ensures Unqualified(x) || Above(x, env, xdepth).None? ==>
      (IdentifierEqual(x, xdepth, y, env) == Yes <==>
       Denotation(Wrap(x, Lowest(env, xdepth), stamp), env) == Denotation(y, env))
  {
    var n := |env.frames| - xdepth;
    var def, news := Lowest(env, xdepth), env.frames[..n];
    assert Extend(news, def) == env;
    var w := Wrap(x, def, stamp);
    if Unqualified(x) || Above(x, env, xdepth).None? {
      InFirstBinds(w, env.frames, n);
      if Unqualified(x) {
        forall i | 0 <= i < xdepth ensures !Binds(def.frames[i], w) { assert def.frames[i] == env.frames[n + i]; }
      }
      forall i | 0 <= i < n ensures !Binds(news[i], w) { assert news[i] == env.frames[i]; }
      WrapKeepsMeaning(x, def, stamp, news);
      IdentifierEqualMeans(x, xdepth, y, env);
    }
  }

  /** A qualified x, which is its own wrapper, is compared as it should be with every
      identifier exactly if no frame above the definition binds it: otherwise x is
      found to differ from itself. */
  lemma QualifiedLiteral(x: Ident, xdepth: nat, env: Env, stamp: nat)
    requires xdepth <= |env.frames| && !Unqualified(x)
    requires WfEnv(Lowest(env, xdepth)) && IdOk(x, Lowest(env, xdepth))
    ensures Above(x, env, xdepth).None? <==>
      forall y :: IdentifierEqual(x, xdepth, y, env) != Stray ==>
        (IdentifierEqual(x, xdepth, y, env) == Yes <==>
         Denotation(Wrap(x, Lowest(env, xdepth), stamp), env) == Denotation(y, env))
  {
    if Above(x, env, xdepth).None? {
      forall y | IdentifierEqual(x, xdepth, y, env) != Stray
        ensures IdentifierEqual(x, xdepth, y, env) == Yes <==>
          Denotation(Wrap(x, Lowest(env, xdepth), stamp), env) == Denotation(y, env)
      {
        IdentifierEqualWraps(x, xdepth, y, env, stamp);
      }
    } else {
      assert IdentifierEqual(x, xdepth, x, env) == No;
    }
  }

  /* ---- The loops ---- */

  method LookupFrame(id: Ident, frame: Frame) returns (pos: Option<nat>)
    ensures pos == FramePos(id, frame.formals, frame.rest, 0)
  {
    var formals, i := frame.formals, 0;
    while formals != []
      invariant FramePos(id, frame.formals, frame.rest, 0) == FramePos(id, formals, frame.rest, i)
      decreases |formals|
    {
      if formals[0] == id { return Some(i); }
      formals, i := formals[1..], i + 1;
    }
    pos := if frame.rest == Some(id) then Some(i) else None;
  }

  method LookupNFrames(id: Ident, n: nat, frames: seq<Frame>) returns (ref: Option<Ref>)
    requires n <= |frames|
    ensures ref == InFirst(id, frames, n)
  {
    var fs, k: nat := frames, n;
    while k > 0
      invariant k <= |fs| && InFirst(id, frames, n) == InFirst(id, fs, k)
      decreases k
    {
      var pos := LookupFrame(id, fs[0]);
      if pos.Some? { return Some(Slot(|fs|, pos.value)); }
      fs, k := fs[1..], k - 1;
    }
    ref := None;
  }

  method LookupEnvironment(id: Ident, env: Env) returns (r: Lookup)
    ensures r == InEnv(id, env)
  {
    var frames := env.frames;
    while frames != []
      invariant InFrames(id, env.frames) == InFrames(id, frames)
      decreases |frames|
    {
      var pos := LookupFrame(id, frames[0]);
      if pos.Some? { return Found(Slot(|frames|, pos.value)); }
      frames := frames[1..];
    }
    r := InToplevel(id, TopNumbered(env, env.top));
    if r.Missing? && id.Far? { r := LookupFarSymbol(id, env); }
  }

  method LookupFarSymbol(id: Ident, env: Env) returns (r: Lookup)
    requires id.Far?
    ensures r == InFar(id, env)
  {
    if id.env < 0 { return InToplevel(id.inner, TopNumbered(env, -id.env - 1)); }
    var depth: nat, frames := |env.frames|, env.frames;
    if id.env > depth { return BadScope; }
    while depth > id.env
      invariant id.env <= depth <= |env.frames| && frames == env.frames[|env.frames| - depth..]
    {
      depth, frames := depth - 1, frames[1..];
    }
    var ref := LookupNFrames(id.inner, id.env, frames);
    InFirstThen(id.inner, frames, id.env);
    assert frames[id.env..] == [];
    r := if ref.Some? then Found(ref.value) else InToplevel(id.inner, TopNumbered(env, env.top));
  }

  method IdentifierEqualP(x: Ident, xdepth: nat, y: Ident, env: Env) returns (same: Verdict)
    requires xdepth <= |env.frames|
    ensures same == IdentifierEqual(x, xdepth, y, env)
  {
    var depth: nat, frames := |env.frames|, env.frames;
    while depth > xdepth
      invariant xdepth <= depth <= |env.frames| && frames == env.frames[|env.frames| - depth..]
      invariant Above(y, env, xdepth) == InFirst(y, frames, depth - xdepth)
    {
      var pos := LookupFrame(y, frames[0]);
      if pos.Some? { return No; }
      depth, frames := depth - 1, frames[1..];
    }
    if x == y { return Yes; }
    var def := Env(frames, env.top, env.tops);
    var yloc := LookupEnvironment(y, def);
    if yloc.BadScope? { return Stray; }
    var xloc := LookupEnvironment(x, def);
    if xloc.BadScope? { return Stray; }
    if yloc.Found? { return if xloc == yloc then Yes else No; }
    if xloc.Found? { return No; }
    same := if Root(x) == Root(y) then Yes else No;
  }
}
