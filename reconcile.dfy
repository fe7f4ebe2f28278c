/**
 * The child linking and the positional reconciliation inside
 * `performUnitOfWork` (src/index.tsx:165-208): every child gets its `parent`
 * and `sibling` links; then the old child chain (the alternate's children)
 * and the new child chain are walked with two cursors, tagging new children
 * PLACEMENT or UPDATE and queueing old children for deletion.
 */
module Reconcile {
  import opened Wrappers
  import opened Elements
  import opened Host
  import opened Fibers

  predicate Increasing(cs: seq<nat>)
  {
    forall k, l :: 0 <= k < l < |cs| ==> cs[k] < cs[l]
  }

  /** `children[i + 1]`: the next child, or `undefined` after the last. */
  function NextOf(cs: seq<nat>, k: nat): Option<nat>
    requires k < |cs|
  {
    if k + 1 < |cs| then Some(cs[k + 1]) else None
  }

  /** The arena after the first `i` rounds of the linking `forEach` over `cs`. */
  function LinkFirst(arena: seq<Fiber>, f: nat, cs: seq<nat>, i: nat): (r: seq<Fiber>)
    requires i <= |cs| && forall k :: 0 <= k < |cs| ==> cs[k] < |arena|
    ensures |r| == |arena|
    decreases i
  {
    if i == 0 then arena
    else
      var a := LinkFirst(arena, f, cs, i - 1);
      var c := cs[i - 1];
      a[c := a[c].(sibling := NextOf(cs, i - 1), parent := Some(f))]
  }

  /** After `i` rounds, each of the first `i` children has its two links set
    * and every other fiber is as it was. */
  lemma {:induction false} LinkFirstEffect(arena: seq<Fiber>, f: nat, cs: seq<nat>, i: nat)
    requires i <= |cs| && (forall k :: 0 <= k < |cs| ==> cs[k] < |arena|) && Increasing(cs)
    ensures forall k :: 0 <= k < i ==>
              LinkFirst(arena, f, cs, i)[cs[k]] == arena[cs[k]].(sibling := NextOf(cs, k), parent := Some(f))
    ensures forall j :: 0 <= j < |arena| && j !in cs[..i] ==> LinkFirst(arena, f, cs, i)[j] == arena[j]
  {
    if i > 0 {
      LinkFirstEffect(arena, f, cs, i - 1);
      assert cs[..i] == cs[..i - 1] + [cs[i - 1]];
      forall k | 0 <= k < i - 1 ensures cs[k] != cs[i - 1] {
      }
    }
  }

  /** What linking every child of `f` does, fiber by fiber. */
  predicate Linked(arena: seq<Fiber>, f: nat, r: seq<Fiber>)
    requires f < |arena| && |r| == |arena|
    requires forall k :: 0 <= k < |arena[f].children| ==> arena[f].children[k] < |arena|
  {
    var cs := arena[f].children;
    && (forall k :: 0 <= k < |cs| ==> r[cs[k]] == arena[cs[k]].(sibling := NextOf(cs, k), parent := Some(f)))
    && (forall j :: 0 <= j < |arena| && j !in cs ==> r[j] == arena[j])
  }

  lemma LinkedWF(arena: seq<Fiber>, f: nat, r: seq<Fiber>)
    requires WF(arena) && f < |arena| && |r| == |arena| && FiberWF(arena, f)
    requires Linked(arena, f, r)
    ensures WF(r)
  {
    var cs := arena[f].children;
    forall i | 0 <= i < |r| ensures FiberWF(r, i) {
      assert FiberWF(arena, i);
      if i in cs {
        var k :| 0 <= k < |cs| && cs[k] == i;
        assert r[i].sibling == NextOf(cs, k);
      }
    }
  }

  lemma LinkedSiblingsParented(arena: seq<Fiber>, f: nat, r: seq<Fiber>)
    requires WF(arena) && f < |arena| && |r| == |arena| && FiberWF(arena, f)
    requires Linked(arena, f, r) && SiblingsParented(arena)
    ensures SiblingsParented(r)
  {
    var cs := arena[f].children;
    forall i, j | 0 <= i < |r| && 0 <= j < |r| && r[i].sibling == Some(j)
      ensures r[j].parent.Some?
    {
      if i in cs {
        var k :| 0 <= k < |cs| && cs[k] == i;
        assert j == cs[k + 1];
      } else if j !in cs {
        assert r[i] == arena[i];
      }
    }
  }

  /** The linking loop: for every index i, `children[i].parent` is the fiber
    * and `children[i].sibling` is `children[i + 1]` (none for the last);
    * nothing else changes, and the arena stays well formed. */
  function Link(arena: seq<Fiber>, f: nat): (r: seq<Fiber>)
    requires WF(arena) && f < |arena|
    ensures |r| == |arena|
    ensures forall k :: 0 <= k < |arena[f].children| ==>
              var c := arena[f].children[k];
              r[c] == arena[c].(sibling := NextOf(arena[f].children, k), parent := Some(f))
    ensures r[f] == arena[f]
    ensures WF(r)
    ensures AlternatesOlder(arena) ==> AlternatesOlder(r)
  {
    var cs := arena[f].children;
    assert FiberWF(arena, f);
    LinkFirstEffect(arena, f, cs, |cs|);
    assert cs[..|cs|] == cs;
    var r := LinkFirst(arena, f, cs, |cs|);
    assert Linked(arena, f, r);
    LinkedWF(arena, f, r);
    r
  }

  /** Linking gives every fiber that becomes a sibling a parent. */
  lemma LinkSiblingsParented(arena: seq<Fiber>, f: nat)
    requires WF(arena) && f < |arena| && SiblingsParented(arena)
    ensures SiblingsParented(Link(arena, f))
  {
    var cs := arena[f].children;
    assert FiberWF(arena, f);
    LinkFirstEffect(arena, f, cs, |cs|);
    assert cs[..|cs|] == cs;
    var r := LinkFirst(arena, f, cs, |cs|);
    assert Linked(arena, f, r);
    LinkedSiblingsParented(arena, f, r);
  }

  /** Linking leaves every fiber that is not a child of `f` as it was. */
  lemma LinkKeeps(arena: seq<Fiber>, f: nat, j: nat)
    requires WF(arena) && f < |arena| && j < |arena| && j !in arena[f].children
    ensures Link(arena, f)[j] == arena[j]
  {
    var cs := arena[f].children;
    assert FiberWF(arena, f);
    LinkFirstEffect(arena, f, cs, |cs|);
    assert cs[..|cs|] == cs;
  }

  /** Fibers that agree on everything the reconciliation reads or keeps. */
  predicate SameLinks(a: seq<Fiber>, b: seq<Fiber>)
  {
    |a| == |b| &&
    forall i :: 0 <= i < |a| ==>
      a[i].ftype == b[i].ftype && a[i].attrs == b[i].attrs && a[i].elems == b[i].elems &&
      a[i].children == b[i].children && a[i].parent == b[i].parent && a[i].sibling == b[i].sibling
  }

  /** The fibers reached from `cur` through `sibling` links. */
  function Chain(arena: seq<Fiber>, cur: Option<nat>): (r: seq<nat>)
    requires WF(arena) && InArena(arena, cur)
    ensures forall k :: 0 <= k < |r| ==> r[k] < |arena|
    ensures cur.None? <==> r == []
    ensures cur.Some? ==> r[0] == cur.value
    decreases if cur.Some? then |arena| - cur.value else 0
  {
    if cur.None? then []
    else
      var i := cur.value;
      assert FiberWF(arena, i);
      [i] + Chain(arena, arena[i].sibling)
  }

  /** A sibling chain visits ever larger indices. */
  lemma {:induction false} ChainIncreasing(arena: seq<Fiber>, cur: Option<nat>)
    requires WF(arena) && InArena(arena, cur)
    ensures Increasing(Chain(arena, cur))
    ensures forall k :: 0 <= k < |Chain(arena, cur)| ==> cur.value <= Chain(arena, cur)[k]
    decreases if cur.Some? then |arena| - cur.value else 0
  {
    if cur.Some? {
      var i := cur.value;
      assert FiberWF(arena, i);
      ChainIncreasing(arena, arena[i].sibling);
    }
  }

  lemma {:induction false} ChainSame(a: seq<Fiber>, b: seq<Fiber>, cur: Option<nat>)
    requires WF(a) && WF(b) && SameLinks(a, b) && InArena(a, cur)
    ensures Chain(a, cur) == Chain(b, cur)
    decreases if cur.Some? then |a| - cur.value else 0
  {
    if cur.Some? {
      assert FiberWF(a, cur.value);
      ChainSame(a, b, a[cur.value].sibling);
    }
  }

  function Remaining(arena: seq<Fiber>, cur: Option<nat>): nat
  {
    if cur.Some? && cur.value < |arena| then |arena| - cur.value else 0
  }

  lemma RetagWF(arena: seq<Fiber>, w: nat, fb: Fiber)
    requires WF(arena) && w < |arena|
    requires fb.children == arena[w].children && fb.sibling == arena[w].sibling && fb.parent == arena[w].parent
    requires fb.alternate.Some? ==> fb.alternate.value < |arena|
    ensures WF(arena[w := fb])
  {
    var a := arena[w := fb];
    forall i | 0 <= i < |a| ensures FiberWF(a, i) {
      assert FiberWF(arena, i);
    }
  }

  /** Associativity of concatenation, stated on its own: asserting it inside
    * `StepOldOnly` or `StepBothDels` costs the solver far more than this separate lemma. */
  lemma ConcatAssoc(a: seq<nat>, b: seq<nat>, c: seq<nat>)
    ensures (a + b) + c == a + (b + c)
  {
  }

  /** One round of the loop body (src/index.tsx:181-207) with at least one
    * cursor live: the retagged arena, the deletion list and the two advanced
    * cursors, each read as `sibling` from the arena after the write. */
  function Advance(arena: seq<Fiber>, dels: seq<nat>, oldCur: Option<nat>, newCur: Option<nat>)
    : (r: (seq<Fiber>, seq<nat>, Option<nat>, Option<nat>))
    requires WF(arena) && InArena(arena, oldCur) && InArena(arena, newCur)
    requires oldCur.Some? || newCur.Some?
    ensures SameLinks(arena, r.0) && WF(r.0) && InArena(r.0, r.2) && InArena(r.0, r.3)
    ensures r.1 == dels || (oldCur.Some? && r.1 == dels + [oldCur.value])
    ensures Remaining(r.0, r.2) + Remaining(r.0, r.3) < Remaining(arena, oldCur) + Remaining(arena, newCur)
  {
    if newCur.None? then
      var o := oldCur.value;
      assert FiberWF(arena, o);
      (arena, dels + [o], arena[o].sibling, None)
    else if oldCur.None? then
      var w := newCur.value;
      assert FiberWF(arena, w);
      var a := arena[w := arena[w].(effectTag := Some(Placement))];
      RetagWF(arena, w, a[w]);
      (a, dels, None, a[w].sibling)
    else
      var o, w := oldCur.value, newCur.value;
      assert FiberWF(arena, o) && FiberWF(arena, w);
      var same := arena[o].ftype == arena[w].ftype;
      var a := if same
               then arena[w := arena[w].(effectTag := Some(Update), dom := arena[o].dom, alternate := Some(o))]
               else arena[w := arena[w].(effectTag := Some(Placement))];
      RetagWF(arena, w, a[w]);
      (a, if same then dels else dels + [o], a[o].sibling, a[w].sibling)
  }

  /** The two-cursor `while` loop, from cursors `oldCur` and `newCur`, with
    * `dels` as the deletion list: returns the arena and the deletion list when
    * both cursors are exhausted. */
  function ReconcileLoop(arena: seq<Fiber>, dels: seq<nat>, oldCur: Option<nat>, newCur: Option<nat>): (r: (seq<Fiber>, seq<nat>))
    requires WF(arena) && InArena(arena, oldCur) && InArena(arena, newCur)
    ensures SameLinks(arena, r.0) && WF(r.0)
    ensures |r.1| >= |dels| && r.1[..|dels|] == dels
    ensures forall k :: |dels| <= k < |r.1| ==> r.1[k] < |arena|
    decreases Remaining(arena, oldCur) + Remaining(arena, newCur)
  {
    if oldCur.None? && newCur.None? then (arena, dels)
    else
      var s := Advance(arena, dels, oldCur, newCur);
      var r := ReconcileLoop(s.0, s.1, s.2, s.3);
      assert SameLinks(arena, r.0);
      assert r.1[..|dels|] == s.1[..|dels|];
      r
  }

  /** Whether the old child at position k of `olds` is queued for deletion:
    * no new child at that position, or one of another type. */
  predicate Orphaned(arena: seq<Fiber>, olds: seq<nat>, news: seq<nat>, k: nat)
    requires k < |olds| && olds[k] < |arena| && (forall l :: 0 <= l < |news| ==> news[l] < |arena|)
  {
    k >= |news| || arena[olds[k]].ftype != arena[news[k]].ftype
  }

  /** The old children the positional diff queues for deletion, in order. */
  function Deleted(arena: seq<Fiber>, olds: seq<nat>, news: seq<nat>): seq<nat>
    requires forall k :: 0 <= k < |olds| ==> olds[k] < |arena|
    requires forall k :: 0 <= k < |news| ==> news[k] < |arena|
  {
    if olds == [] then []
    else
      var rest := if news == [] then [] else news[1..];
      (if news == [] || arena[olds[0]].ftype != arena[news[0]].ftype then [olds[0]] else [])
      + Deleted(arena, olds[1..], rest)
  }

  /** The number of shared positions whose old and new types differ. */
  function Mismatches(arena: seq<Fiber>, olds: seq<nat>, news: seq<nat>): nat
    requires forall k :: 0 <= k < |olds| ==> olds[k] < |arena|
    requires forall k :: 0 <= k < |news| ==> news[k] < |arena|
  {
    if olds == [] || news == [] then 0
    else (if arena[olds[0]].ftype != arena[news[0]].ftype then 1 else 0) + Mismatches(arena, olds[1..], news[1..])
  }

  /** The new child at position k after reconciliation: UPDATE reusing the old
    * child's node when the old child at k has the same type, PLACEMENT when
    * there is no old child at k or it has another type. */
  function Tagged(arena: seq<Fiber>, olds: seq<nat>, news: seq<nat>, k: nat): Fiber
    requires k < |news| && news[k] < |arena| && (forall l :: 0 <= l < |olds| ==> olds[l] < |arena|)
  {
    if k < |olds| && arena[olds[k]].ftype == arena[news[k]].ftype
    then arena[news[k]].(effectTag := Some(Update), dom := arena[olds[k]].dom, alternate := Some(olds[k]))
    else arena[news[k]].(effectTag := Some(Placement))
  }

  /** Reconciling children `news`, which are the fibers n, n + 1, ... at the
    * end of arena `a` and come after the old children `olds`, turned `a`
    * into `r`: every new child is tagged as `Tagged` says and every fiber
    * below n is as it was. */
  predicate TaggedAfter(a: seq<Fiber>, olds: seq<nat>, news: seq<nat>, n: nat, r: seq<Fiber>)
  {
    && |a| == n + |news| && |r| == |a| && AllBelow(olds, n)
    && (forall k :: 0 <= k < |news| ==> news[k] == n + k)
    && (forall k :: 0 <= k < |news| ==> r[news[k]] == Tagged(a, olds, news, k))
    && (forall j :: 0 <= j < n ==> r[j] == a[j])
  }

  predicate Disjoint(xs: seq<nat>, ys: seq<nat>)
  {
    forall k, l :: 0 <= k < |xs| && 0 <= l < |ys| ==> xs[k] != ys[l]
  }

  lemma {:induction false} DeletedSame(a: seq<Fiber>, b: seq<Fiber>, olds: seq<nat>, news: seq<nat>)
    requires SameLinks(a, b)
    requires forall k :: 0 <= k < |olds| ==> olds[k] < |a|
    requires forall k :: 0 <= k < |news| ==> news[k] < |a|
    ensures Deleted(a, olds, news) == Deleted(b, olds, news)
  {
    if olds != [] {
      DeletedSame(a, b, olds[1..], if news == [] then [] else news[1..]);
    }
  }

  function Front(cur: Option<nat>): seq<nat>
  {
    if cur.Some? then [cur.value] else []
  }

  /** One round of the loop consumes the head of each live chain, and the
    * rest of the two chains stay disjoint. */
  predicate ChainsStep(arena: seq<Fiber>, dels: seq<nat>, oldCur: Option<nat>, newCur: Option<nat>)
    requires WF(arena) && InArena(arena, oldCur) && InArena(arena, newCur)
    requires oldCur.Some? || newCur.Some?
  {
    var s := Advance(arena, dels, oldCur, newCur);
    var olds', news' := Chain(s.0, s.2), Chain(s.0, s.3);
    && Chain(arena, oldCur) == Front(oldCur) + olds'
    && Chain(arena, newCur) == Front(newCur) + news'
    && Disjoint(olds', news')
  }

  /** One round queues the head of the old chain exactly when it is orphaned. */
  predicate DelsStep(arena: seq<Fiber>, dels: seq<nat>, oldCur: Option<nat>, newCur: Option<nat>)
    requires WF(arena) && InArena(arena, oldCur) && InArena(arena, newCur)
    requires oldCur.Some? || newCur.Some?
  {
    var s := Advance(arena, dels, oldCur, newCur);
    s.1 + Deleted(s.0, Chain(s.0, s.2), Chain(s.0, s.3)) == dels + Deleted(arena, Chain(arena, oldCur), Chain(arena, newCur))
  }

  /** One round tags the head of the new chain as `Tagged` says for position
    * 0, changes no other fiber, and leaves `Tagged` of the later positions as
    * it was. */
  predicate TagsStep(arena: seq<Fiber>, dels: seq<nat>, oldCur: Option<nat>, newCur: Option<nat>)
    requires WF(arena) && InArena(arena, oldCur) && InArena(arena, newCur)
    requires oldCur.Some? || newCur.Some?
  {
    var s := Advance(arena, dels, oldCur, newCur);
    var olds, news := Chain(arena, oldCur), Chain(arena, newCur);
    var olds', news' := Chain(s.0, s.2), Chain(s.0, s.3);
    && (newCur.Some? ==> s.0[newCur.value] == Tagged(arena, olds, news, 0))
    && (forall j :: 0 <= j < |arena| && (newCur.None? || j != newCur.value) ==> s.0[j] == arena[j])
    && (|news'| + |Front(newCur)| == |news|)
    && (forall k :: 0 <= k < |news'| && k + 1 < |news| ==> Tagged(s.0, olds', news', k) == Tagged(arena, olds, news, k + 1))
  }

  lemma StepOldOnly(arena: seq<Fiber>, dels: seq<nat>, o: nat)
    requires WF(arena) && o < |arena|
    ensures ChainsStep(arena, dels, Some(o), None) && DelsStep(arena, dels, Some(o), None)
    ensures TagsStep(arena, dels, Some(o), None)
  {
    assert FiberWF(arena, o);
    var olds' := Chain(arena, arena[o].sibling);
    var olds := Chain(arena, Some(o));
    assert olds == [o] + olds';
    assert olds[1..] == olds';
    var s := Advance(arena, dels, Some(o), None);
    assert s == (arena, dels + [o], arena[o].sibling, None);
    assert Chain(s.0, s.2) == olds' && Chain(s.0, s.3) == [];
    assert Chain(arena, None) == [];
    assert Deleted(arena, olds, []) == [o] + Deleted(arena, olds', []);
    ConcatAssoc(dels, [o], Deleted(arena, olds', []));
  }

  lemma StepNewOnly(arena: seq<Fiber>, dels: seq<nat>, w: nat)
    requires WF(arena) && w < |arena|
    ensures ChainsStep(arena, dels, None, Some(w)) && DelsStep(arena, dels, None, Some(w))
    ensures TagsStep(arena, dels, None, Some(w))
  {
    assert FiberWF(arena, w);
    var s := Advance(arena, dels, None, Some(w));
    ChainSame(arena, s.0, arena[w].sibling);
    ChainIncreasing(arena, Some(w));
    var news := Chain(arena, Some(w));
    var news' := Chain(s.0, s.3);
    assert news == [w] + news';
    forall k | 0 <= k < |news'| ensures Tagged(s.0, [], news', k) == Tagged(arena, [], news, k + 1) {
      assert news'[k] == news[k + 1];
    }
  }

  /** `Tagged` reads only the fibers at position k of the two chains. */
  lemma TaggedSame(a: seq<Fiber>, b: seq<Fiber>, olds: seq<nat>, news: seq<nat>, k: nat, olds': seq<nat>, news': seq<nat>, k': nat)
    requires k < |news| && news[k] < |a| && (forall l :: 0 <= l < |olds| ==> olds[l] < |a|)
    requires k' < |news'| && news'[k'] < |b| && (forall l :: 0 <= l < |olds'| ==> olds'[l] < |b|)
    requires news[k] == news'[k'] && a[news[k]] == b[news'[k']]
    requires (k < |olds|) == (k' < |olds'|)
    requires k < |olds| ==> olds[k] == olds'[k'] && a[olds[k]] == b[olds'[k']]
    ensures Tagged(a, olds, news, k) == Tagged(b, olds', news', k')
  {
  }

  /** The arena after a round with both cursors live. */
  function Retagged(arena: seq<Fiber>, o: nat, w: nat): seq<Fiber>
    requires o < |arena| && w < |arena|
  {
    if arena[o].ftype == arena[w].ftype
    then arena[w := arena[w].(effectTag := Some(Update), dom := arena[o].dom, alternate := Some(o))]
    else arena[w := arena[w].(effectTag := Some(Placement))]
  }

  lemma StepBothValue(arena: seq<Fiber>, dels: seq<nat>, o: nat, w: nat)
    requires WF(arena) && o < |arena| && w < |arena|
    ensures Advance(arena, dels, Some(o), Some(w)) ==
      (Retagged(arena, o, w), if arena[o].ftype == arena[w].ftype then dels else dels + [o], arena[o].sibling, arena[w].sibling)
  {
  }

  lemma RetaggedLinks(arena: seq<Fiber>, o: nat, w: nat)
    requires WF(arena) && o < |arena| && w < |arena|
    ensures SameLinks(arena, Retagged(arena, o, w)) && WF(Retagged(arena, o, w))
    ensures forall j :: 0 <= j < |arena| && j != w ==> Retagged(arena, o, w)[j] == arena[j]
  {
    assert FiberWF(arena, w);
    var a := Retagged(arena, o, w);
    RetagWF(arena, w, a[w]);
  }

  lemma RetaggedChains(arena: seq<Fiber>, o: nat, w: nat)
    requires WF(arena) && o < |arena| && w < |arena|
    ensures InArena(arena, arena[o].sibling) && InArena(arena, arena[w].sibling)
    ensures WF(Retagged(arena, o, w))
    ensures Chain(Retagged(arena, o, w), arena[o].sibling) == Chain(arena, Some(o))[1..]
    ensures Chain(Retagged(arena, o, w), arena[w].sibling) == Chain(arena, Some(w))[1..]
  {
    assert FiberWF(arena, o) && FiberWF(arena, w);
    RetaggedLinks(arena, o, w);
    var a := Retagged(arena, o, w);
    ChainSame(arena, a, arena[o].sibling);
    ChainSame(arena, a, arena[w].sibling);
  }

  lemma StepBothShape(arena: seq<Fiber>, dels: seq<nat>, o: nat, w: nat)
    requires WF(arena) && o < |arena| && w < |arena|
    ensures Advance(arena, dels, Some(o), Some(w)) ==
      (Retagged(arena, o, w), if arena[o].ftype == arena[w].ftype then dels else dels + [o], arena[o].sibling, arena[w].sibling)
    ensures SameLinks(arena, Retagged(arena, o, w)) && WF(Retagged(arena, o, w))
    ensures forall j :: 0 <= j < |arena| && j != w ==> Retagged(arena, o, w)[j] == arena[j]
    ensures Chain(Retagged(arena, o, w), arena[o].sibling) == Chain(arena, Some(o))[1..]
    ensures Chain(Retagged(arena, o, w), arena[w].sibling) == Chain(arena, Some(w))[1..]
  {
    StepBothValue(arena, dels, o, w);
    RetaggedLinks(arena, o, w);
    RetaggedChains(arena, o, w);
  }

  lemma StepBothChains(arena: seq<Fiber>, dels: seq<nat>, o: nat, w: nat)
    requires WF(arena) && o < |arena| && w < |arena|
    requires Disjoint(Chain(arena, Some(o)), Chain(arena, Some(w)))
    ensures ChainsStep(arena, dels, Some(o), Some(w))
  {
    StepBothShape(arena, dels, o, w);
    var olds, news := Chain(arena, Some(o)), Chain(arena, Some(w));
    assert olds == [o] + olds[1..] && news == [w] + news[1..];
    forall k, l | 0 <= k < |olds| - 1 && 0 <= l < |news| - 1 ensures olds[1..][k] != news[1..][l] {
      assert olds[1..][k] == olds[k + 1] && news[1..][l] == news[l + 1];
    }
  }

  lemma DeletedCons(arena: seq<Fiber>, olds: seq<nat>, news: seq<nat>)
    requires olds != [] && news != []
    requires forall k :: 0 <= k < |olds| ==> olds[k] < |arena|
    requires forall k :: 0 <= k < |news| ==> news[k] < |arena|
    ensures Deleted(arena, olds, news) ==
      (if arena[olds[0]].ftype != arena[news[0]].ftype then [olds[0]] else []) + Deleted(arena, olds[1..], news[1..])
  {
  }

  lemma StepBothDels(arena: seq<Fiber>, dels: seq<nat>, o: nat, w: nat)
    requires WF(arena) && o < |arena| && w < |arena|
    ensures DelsStep(arena, dels, Some(o), Some(w))
  {
    StepBothShape(arena, dels, o, w);
    var a := Retagged(arena, o, w);
    var olds, news := Chain(arena, Some(o)), Chain(arena, Some(w));
    var s := Advance(arena, dels, Some(o), Some(w));
    var q := if arena[o].ftype != arena[w].ftype then [o] else [];
    assert s.0 == a && s.1 == dels + q;
    var olds', news' := Chain(s.0, s.2), Chain(s.0, s.3);
    assert olds' == olds[1..] && news' == news[1..];
    DeletedSame(arena, a, olds', news');
    assert olds[0] == o && news[0] == w;
    DeletedCons(arena, olds, news);
    assert Deleted(arena, olds, news) == q + Deleted(arena, olds', news');
    ConcatAssoc(dels, q, Deleted(arena, olds', news'));
  }

  /** Dropping the heads of both chains, in an arena that changed only the
    * head of the new chain, shifts `Tagged` by one position. */
  lemma TagShift(arena: seq<Fiber>, a: seq<Fiber>, olds: seq<nat>, news: seq<nat>, k: nat)
    requires |a| == |arena| && 1 <= |olds| && k + 1 < |news|
    requires (forall l :: 0 <= l < |olds| ==> olds[l] < |arena|) && (forall l :: 0 <= l < |news| ==> news[l] < |arena|)
    requires Increasing(news) && Disjoint(olds, news)
    requires forall j :: 0 <= j < |arena| && j != news[0] ==> a[j] == arena[j]
    ensures Tagged(a, olds[1..], news[1..], k) == Tagged(arena, olds, news, k + 1)
  {
    assert news[1..][k] == news[k + 1] && news[k + 1] != news[0];
    if k < |olds| - 1 {
      assert olds[1..][k] == olds[k + 1] && olds[k + 1] != news[0];
    }
    TaggedSame(a, arena, olds[1..], news[1..], k, olds, news, k + 1);
  }

  lemma StepBothTags(arena: seq<Fiber>, dels: seq<nat>, o: nat, w: nat)
    requires WF(arena) && o < |arena| && w < |arena|
    requires Disjoint(Chain(arena, Some(o)), Chain(arena, Some(w)))
    ensures TagsStep(arena, dels, Some(o), Some(w))
  {
    StepBothShape(arena, dels, o, w);
    var a := Retagged(arena, o, w);
    var olds, news := Chain(arena, Some(o)), Chain(arena, Some(w));
    assert olds[0] == o && news[0] == w;
    assert a[w] == Tagged(arena, olds, news, 0);
    ChainIncreasing(arena, Some(w));
    forall k | 0 <= k < |news| - 1 ensures Tagged(a, olds[1..], news[1..], k) == Tagged(arena, olds, news, k + 1) {
      TagShift(arena, a, olds, news, k);
    }
  }

  lemma AdvanceStep(arena: seq<Fiber>, dels: seq<nat>, oldCur: Option<nat>, newCur: Option<nat>)
    requires WF(arena) && InArena(arena, oldCur) && InArena(arena, newCur)
    requires oldCur.Some? || newCur.Some?
    requires Disjoint(Chain(arena, oldCur), Chain(arena, newCur))
    ensures ChainsStep(arena, dels, oldCur, newCur) && DelsStep(arena, dels, oldCur, newCur)
    ensures TagsStep(arena, dels, oldCur, newCur)
  {
    if newCur.None? {
      StepOldOnly(arena, dels, oldCur.value);
    } else if oldCur.None? {
      StepNewOnly(arena, dels, newCur.value);
    } else {
      StepBothChains(arena, dels, oldCur.value, newCur.value);
      StepBothDels(arena, dels, oldCur.value, newCur.value);
      StepBothTags(arena, dels, oldCur.value, newCur.value);
    }
  }

  /** The deletion list the loop leaves: exactly the orphaned old children
    * appended, in chain order. */
  lemma {:induction false} ReconcileDeletes(arena: seq<Fiber>, dels: seq<nat>, oldCur: Option<nat>, newCur: Option<nat>)
    requires WF(arena) && InArena(arena, oldCur) && InArena(arena, newCur)
    requires Disjoint(Chain(arena, oldCur), Chain(arena, newCur))
    ensures ReconcileLoop(arena, dels, oldCur, newCur).1 == dels + Deleted(arena, Chain(arena, oldCur), Chain(arena, newCur))
    decreases Remaining(arena, oldCur) + Remaining(arena, newCur)
  {
    if oldCur.Some? || newCur.Some? {
      var s := Advance(arena, dels, oldCur, newCur);
      AdvanceStep(arena, dels, oldCur, newCur);
      ReconcileDeletes(s.0, s.1, s.2, s.3);
    }
  }

  /** The loop writes only the fibers of the new chain. */
  lemma {:induction false} ReconcileKeeps(arena: seq<Fiber>, dels: seq<nat>, oldCur: Option<nat>, newCur: Option<nat>, j: nat)
    requires WF(arena) && InArena(arena, oldCur) && InArena(arena, newCur)
    requires Disjoint(Chain(arena, oldCur), Chain(arena, newCur))
    requires j < |arena| && j !in Chain(arena, newCur)
    ensures ReconcileLoop(arena, dels, oldCur, newCur).0[j] == arena[j]
    decreases Remaining(arena, oldCur) + Remaining(arena, newCur)
  {
    if oldCur.Some? || newCur.Some? {
      var news := Chain(arena, newCur);
      var s := Advance(arena, dels, oldCur, newCur);
      AdvanceStep(arena, dels, oldCur, newCur);
      var news' := Chain(s.0, s.3);
      assert j !in news' by {
        forall l | 0 <= l < |news'| ensures news'[l] != j {
          assert news'[l] == news[l + |Front(newCur)|];
        }
      }
      assert newCur.Some? ==> j != news[0];
      ReconcileKeeps(s.0, s.1, s.2, s.3, j);
    }
  }

  /** The first new child keeps the tag the first round gives it. */
  lemma ReconcileTagsHead(arena: seq<Fiber>, dels: seq<nat>, oldCur: Option<nat>, newCur: Option<nat>)
    requires WF(arena) && InArena(arena, oldCur) && InArena(arena, newCur)
    requires Disjoint(Chain(arena, oldCur), Chain(arena, newCur))
    requires newCur.Some?
    ensures ReconcileLoop(arena, dels, oldCur, newCur).0[newCur.value]
            == Tagged(arena, Chain(arena, oldCur), Chain(arena, newCur), 0)
  {
    var w := newCur.value;
    var news := Chain(arena, newCur);
    var s := Advance(arena, dels, oldCur, newCur);
    AdvanceStep(arena, dels, oldCur, newCur);
    var news' := Chain(s.0, s.3);
    assert news == [w] + news';
    ChainIncreasing(arena, newCur);
    assert w !in news' by {
      forall l | 0 <= l < |news'| ensures news'[l] != w {
        assert news'[l] == news[l + 1];
      }
    }
    ReconcileKeeps(s.0, s.1, s.2, s.3, w);
  }

  /** The fibers the loop leaves: every new child tagged as `Tagged` says. */
  lemma {:induction false} ReconcileTags(arena: seq<Fiber>, dels: seq<nat>, oldCur: Option<nat>, newCur: Option<nat>, k: nat)
    requires WF(arena) && InArena(arena, oldCur) && InArena(arena, newCur)
    requires Disjoint(Chain(arena, oldCur), Chain(arena, newCur))
    requires k < |Chain(arena, newCur)|
    ensures ReconcileLoop(arena, dels, oldCur, newCur).0[Chain(arena, newCur)[k]]
            == Tagged(arena, Chain(arena, oldCur), Chain(arena, newCur), k)
    decreases Remaining(arena, oldCur) + Remaining(arena, newCur)
  {
    var news := Chain(arena, newCur);
    var s := Advance(arena, dels, oldCur, newCur);
    AdvanceStep(arena, dels, oldCur, newCur);
    var news' := Chain(s.0, s.3);
    assert ReconcileLoop(arena, dels, oldCur, newCur) == ReconcileLoop(s.0, s.1, s.2, s.3);
    if k == 0 {
      ReconcileTagsHead(arena, dels, oldCur, newCur);
    } else {
      assert news[k] == news'[k - 1];
      ReconcileTags(s.0, s.1, s.2, s.3, k - 1);
    }
  }

  /** What the reconciliation loop does, stated over the two chains: every new
    * child is tagged as `Tagged` says, no other fiber changes, and exactly the
    * orphaned old children are appended to the deletion list, in order. */
  lemma ReconcileEffect(arena: seq<Fiber>, dels: seq<nat>, oldCur: Option<nat>, newCur: Option<nat>)
    requires WF(arena) && InArena(arena, oldCur) && InArena(arena, newCur)
    requires Disjoint(Chain(arena, oldCur), Chain(arena, newCur))
    ensures var olds, news := Chain(arena, oldCur), Chain(arena, newCur);
      var r := ReconcileLoop(arena, dels, oldCur, newCur);
      && r.1 == dels + Deleted(arena, olds, news)
      && (forall k :: 0 <= k < |news| ==> r.0[news[k]] == Tagged(arena, olds, news, k))
      && (forall j :: 0 <= j < |arena| && j !in news ==> r.0[j] == arena[j])
  {
    ReconcileDeletes(arena, dels, oldCur, newCur);
    var news := Chain(arena, newCur);
    forall k | 0 <= k < |news|
      ensures ReconcileLoop(arena, dels, oldCur, newCur).0[news[k]] == Tagged(arena, Chain(arena, oldCur), news, k)
    {
      ReconcileTags(arena, dels, oldCur, newCur, k);
    }
    forall j | 0 <= j < |arena| && j !in news ensures ReconcileLoop(arena, dels, oldCur, newCur).0[j] == arena[j] {
      ReconcileKeeps(arena, dels, oldCur, newCur, j);
    }
  }

  /** Tagging the children |a| - |news|, ..., |a| - 1, all created after
    * every old fiber, keeps every `alternate` older than its fiber. */
  lemma TaggedAlternatesOlder(a: seq<Fiber>, r: seq<Fiber>, olds: seq<nat>, news: seq<nat>, n: nat)
    requires AlternatesOlder(a) && TaggedAfter(a, olds, news, n, r)
    ensures AlternatesOlder(r)
  {
    forall i | 0 <= i < |r| && r[i].alternate.Some? ensures r[i].alternate.value < i {
      if i >= n {
        var k := i - n;
        assert news[k] == i;
        if k < |olds| && a[olds[k]].ftype == a[news[k]].ftype {
          assert olds[k] < n;
        }
      }
    }
  }

  /** Deletion count: the loop appends max(0, |olds| - |news|) plus the number
    * of mismatched shared positions. */
  lemma {:induction false} DeletedCount(arena: seq<Fiber>, olds: seq<nat>, news: seq<nat>)
    requires forall k :: 0 <= k < |olds| ==> olds[k] < |arena|
    requires forall k :: 0 <= k < |news| ==> news[k] < |arena|
    ensures |Deleted(arena, olds, news)| == (if |olds| > |news| then |olds| - |news| else 0) + Mismatches(arena, olds, news)
  {
    if olds != [] {
      DeletedCount(arena, olds[1..], if news == [] then [] else news[1..]);
    }
  }

  /** An old child is queued exactly when it is orphaned. */
  lemma OrphanedShift(arena: seq<Fiber>, olds: seq<nat>, news: seq<nat>, k: nat)
    requires k + 1 < |olds| && (forall l :: 0 <= l < |olds| ==> olds[l] < |arena|)
    requires forall l :: 0 <= l < |news| ==> news[l] < |arena|
    ensures var rest := if news == [] then [] else news[1..];
      olds[1..][k] == olds[k + 1] && (Orphaned(arena, olds[1..], rest, k) <==> Orphaned(arena, olds, news, k + 1))
  {
  }

  lemma {:induction false} DeletedExactly(arena: seq<Fiber>, olds: seq<nat>, news: seq<nat>, x: nat)
    requires forall k :: 0 <= k < |olds| ==> olds[k] < |arena|
    requires forall k :: 0 <= k < |news| ==> news[k] < |arena|
    ensures x in Deleted(arena, olds, news) <==> exists k :: 0 <= k < |olds| && olds[k] == x && Orphaned(arena, olds, news, k)
  {
    if olds != [] {
      var rest := if news == [] then [] else news[1..];
      DeletedExactly(arena, olds[1..], rest, x);
      assert Deleted(arena, olds, news) == (if Orphaned(arena, olds, news, 0) then [olds[0]] else []) + Deleted(arena, olds[1..], rest);
      if exists k :: 0 <= k < |olds| && olds[k] == x && Orphaned(arena, olds, news, k) {
        var k :| 0 <= k < |olds| && olds[k] == x && Orphaned(arena, olds, news, k);
        if k > 0 {
          OrphanedShift(arena, olds, news, k - 1);
        }
      }
      if x in Deleted(arena, olds[1..], rest) {
        var k :| 0 <= k < |olds[1..]| && olds[1..][k] == x && Orphaned(arena, olds[1..], rest, k);
        OrphanedShift(arena, olds, news, k);
      }
    }
  }
}
