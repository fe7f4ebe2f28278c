/**
 * The commit phase of src/index.tsx (lines 77-86, 100-153): `commitRoot`
 * removes the queued deletions, walks the work-in-progress tree with
 * `commitWork` (children first, then the fiber's own append or `updateDom`),
 * clears `deletions` and re-appends the top node.  Every DOM call is an entry
 * of a trace; a JavaScript TypeError ends the trace with `threw`.
 */
module Commit {
  import opened Wrappers
  import opened Elements
  import opened Host
  import opened Fibers
  import opened UnitOfWork

  /** Line 80 for one deleted fiber: `fiber.parent.dom.removeChild(fiber.dom)`.
    * It throws when the fiber has no parent, the parent has no DOM node, or
    * the fiber itself has none (a component fiber). */
  function Removal(arena: seq<Fiber>, x: nat): (r: Trace)
    requires WF(arena) && x < |arena|
    ensures r.threw <==> !Removable(arena, x)
    ensures !r.threw ==> |r.ops| == 1 && r.ops[0].RemoveChild? && r.ops[0].child == arena[x].dom.value
    ensures r.threw ==> r.ops == []
  {
    assert FiberWF(arena, x);
    var fb := arena[x];
    if fb.parent.Some? && arena[fb.parent.value].dom.Some? && fb.dom.Some? then
      Trace([RemoveChild(arena[fb.parent.value].dom.value, fb.dom.value)], false)
    else
      Trace([], true)
  }

  /** Whether the removal of `x` can be done: both DOM nodes exist. */
  predicate Removable(arena: seq<Fiber>, x: nat)
    requires WF(arena) && x < |arena|
  {
    arena[x].parent.Some? && arena[x].parent.value < |arena| &&
    arena[arena[x].parent.value].dom.Some? && arena[x].dom.Some?
  }

  /** Lines 79-81: the `forEach` over `deletions`, the first `i` rounds. */
  function Removals(arena: seq<Fiber>, dels: seq<nat>, i: nat): (r: Trace)
    requires WF(arena) && AllBelow(dels, |arena|) && i <= |dels|
    decreases i
  {
    if i == 0 then Trace([], false)
    else Then(Removals(arena, dels, i - 1), Removal(arena, dels[i - 1]))
  }

  /** The removals run in queue order, one `removeChild` per deleted fiber,
    * each taking the fiber's node out of its parent's node; they throw
    * exactly when some deleted fiber is not removable, and then after the
    * removals of the fibers before the first such one. */
  lemma {:induction false} RemovalsExact(arena: seq<Fiber>, dels: seq<nat>, i: nat)
    requires WF(arena) && AllBelow(dels, |arena|) && i <= |dels|
    ensures var r := Removals(arena, dels, i);
      && (r.threw <==> exists k :: 0 <= k < i && !Removable(arena, dels[k]))
      && (!r.threw ==> |r.ops| == i)
      && |r.ops| <= i
      && (forall k :: 0 <= k < |r.ops| ==>
            Removable(arena, dels[k]) &&
            r.ops[k] == RemoveChild(arena[arena[dels[k]].parent.value].dom.value, arena[dels[k]].dom.value))
      && (r.threw ==> !Removable(arena, dels[|r.ops|]))
    decreases i
  {
    if i > 0 {
      RemovalsExact(arena, dels, i - 1);
      var x := dels[i - 1];
      assert FiberWF(arena, x);
      var prev := Removals(arena, dels, i - 1);
      if !prev.threw && Removable(arena, x) {
        assert forall k :: 0 <= k < i - 1 ==> Removable(arena, dels[k]);
      }
    }
  }

  /** The nodes `xs` have no DOM node. */
  predicate NoneHasDom(arena: seq<Fiber>, xs: seq<nat>)
  {
    forall k :: 0 <= k < |xs| && xs[k] < |arena| ==> arena[xs[k]].dom.None?
  }

  /** `r` is the DOM node of the first of the fibers `xs` that has one. */
  predicate NearestDom(arena: seq<Fiber>, xs: seq<nat>, r: Node)
  {
    exists k :: 0 <= k < |xs| && xs[k] < |arena| && arena[xs[k]].dom == Some(r) && NoneHasDom(arena, xs[..k])
  }

  /** Lines 142-145: `target.parent.dom` after the climb, the DOM node of the
    * nearest fiber up the parent line from `x` that has one; `None` when the
    * climb reaches a fiber without a parent, where it throws. */
  function HostParent(arena: seq<Fiber>, x: nat): (r: Option<Node>)
    requires WF(arena) && x < |arena|
    decreases x
  {
    assert FiberWF(arena, x);
    match arena[x].parent
    case None => None
    case Some(p) => if arena[p].dom.Some? then arena[p].dom else HostParent(arena, p)
  }

  lemma NoneHasDomCons(arena: seq<Fiber>, p: nat, up: seq<nat>)
    requires p < |arena|
    ensures NoneHasDom(arena, [p] + up) <==> arena[p].dom.None? && NoneHasDom(arena, up)
  {
    var xs := [p] + up;
    assert xs[0] == p;
    assert forall k :: 0 <= k < |up| ==> xs[k + 1] == up[k];
  }

  lemma NearestDomCons(arena: seq<Fiber>, p: nat, up: seq<nat>, r: Node)
    requires p < |arena| && arena[p].dom.None? && NearestDom(arena, up, r)
    ensures NearestDom(arena, [p] + up, r)
  {
    var xs := [p] + up;
    var k :| 0 <= k < |up| && up[k] < |arena| && arena[up[k]].dom == Some(r) && NoneHasDom(arena, up[..k]);
    assert xs[k + 1] == up[k];
    assert xs[..k + 1] == [p] + up[..k];
    NoneHasDomCons(arena, p, up[..k]);
  }

  /** The climb finds the DOM node of the nearest ancestor that has one, and
    * throws exactly when no ancestor has one. */
  lemma {:induction false} HostParentNearest(arena: seq<Fiber>, x: nat)
    requires WF(arena) && x < |arena|
    ensures HostParent(arena, x).None? <==>
              arena[x].parent.None? || (arena[x].parent.value < |arena| && NoneHasDom(arena, Ancestors(arena, arena[x].parent.value)))
    ensures HostParent(arena, x).Some? ==>
              arena[x].parent.Some? && arena[x].parent.value < |arena| &&
              NearestDom(arena, Ancestors(arena, arena[x].parent.value), HostParent(arena, x).value)
    decreases x
  {
    assert FiberWF(arena, x);
    if arena[x].parent.Some? {
      var p := arena[x].parent.value;
      assert FiberWF(arena, p);
      var up := if arena[p].parent.None? then [] else Ancestors(arena, arena[p].parent.value);
      assert Ancestors(arena, p) == [p] + up;
      NoneHasDomCons(arena, p, up);
      if arena[p].dom.Some? {
        assert ([p] + up)[0] == p && ([p] + up)[..0] == [];
        assert NearestDom(arena, [p] + up, arena[p].dom.value);
      } else {
        HostParentNearest(arena, p);
        if HostParent(arena, p).Some? {
          NearestDomCons(arena, p, up, HostParent(arena, p).value);
        }
      }
    }
  }

  /** `updateDom(fiber)` (lines 100-134) as a trace: it works on the node of
    * the fiber's `alternate`, with the alternate's props as the old props.
    * Without an alternate it throws at once; when the alternate has no DOM
    * node, the first prop assignment or listener call throws, so it throws
    * exactly when either props object has a key besides `children`. */
  function UpdateDom(arena: seq<Fiber>, x: nat): (r: Trace)
    requires WF(arena) && x < |arena|
  {
    assert FiberWF(arena, x);
    match arena[x].alternate
    case None => Trace([], true)
    case Some(a) =>
      match arena[a].dom
      case Some(n) => Trace(UpdateDomOps(n, arena[a].attrs, arena[x].attrs), false)
      case None => Trace([], AnyProp(arena[a].attrs) || AnyProp(arena[x].attrs))
  }

  /** What `commitWork` does for fiber `x` itself, after its children: a
    * PLACEMENT fiber climbs to its host parent and appends its node, if it
    * has one; an UPDATE fiber runs `updateDom`; an untagged fiber does nothing. */
  function CommitOwn(arena: seq<Fiber>, x: nat): (r: Trace)
    requires WF(arena) && x < |arena|
  {
    if arena[x].effectTag == Some(Placement) then
      match HostParent(arena, x)
      case None => Trace([], true)
      case Some(h) => if arena[x].dom.Some? then Trace([AppendChild(h, arena[x].dom.value)], false) else Trace([], false)
    else if arena[x].effectTag == Some(Update) then UpdateDom(arena, x)
    else Trace([], false)
  }

  /** `commitWork(x)` (lines 136-153). */
  function CommitWork(arena: seq<Fiber>, x: nat): (r: Trace)
    requires WF(arena) && x < |arena|
    decreases |arena| - x, 1, 0
  {
    if arena[x].effectTag.None? then Trace([], false)
    else
      assert FiberWF(arena, x);
      Then(CommitChildren(arena, x, |arena[x].children|), CommitOwn(arena, x))
  }

  /** The first `i` rounds of the `forEach` over `x`'s children (lines 139-141, 148-150). */
  function CommitChildren(arena: seq<Fiber>, x: nat, i: nat): (r: Trace)
    requires WF(arena) && x < |arena| && i <= |arena[x].children|
    decreases |arena| - x, 0, i
  {
    if i == 0 then Trace([], false)
    else
      assert FiberWF(arena, x);
      Then(CommitChildren(arena, x, i - 1), CommitWork(arena, arena[x].children[i - 1]))
  }

  /** The fibers `commitWork(x)` acts on, in the order it acts on them: the
    * tagged fibers reachable from `x` through tagged fibers, in post-order. */
  function Committed(arena: seq<Fiber>, x: nat): (r: seq<nat>)
    requires WF(arena) && x < |arena|
    decreases |arena| - x, 1, 0
  {
    if arena[x].effectTag.None? then []
    else
      assert FiberWF(arena, x);
      CommittedChildren(arena, x, |arena[x].children|) + [x]
  }

  function CommittedChildren(arena: seq<Fiber>, x: nat, i: nat): (r: seq<nat>)
    requires WF(arena) && x < |arena| && i <= |arena[x].children|
    decreases |arena| - x, 0, i
  {
    if i == 0 then []
    else
      assert FiberWF(arena, x);
      CommittedChildren(arena, x, i - 1) + Committed(arena, arena[x].children[i - 1])
  }

  /** The own calls of the fibers `xs`, one after the other, stopping at the
    * first that throws. */
  function OwnTraces(arena: seq<Fiber>, xs: seq<nat>): (r: Trace)
    requires WF(arena) && AllBelow(xs, |arena|)
    decreases |xs|
  {
    if xs == [] then Trace([], false)
    else
      var init := xs[..|xs| - 1];
      assert AllBelow(init, |arena|) by {
        forall k | 0 <= k < |init| ensures init[k] < |arena| { assert init[k] == xs[k]; }
      }
      Then(OwnTraces(arena, init), CommitOwn(arena, xs[|xs| - 1]))
  }

  lemma ThenAssoc(a: Trace, b: Trace, c: Trace)
    ensures Then(Then(a, b), c) == Then(a, Then(b, c))
  {
    if !a.threw && !b.threw {
      assert (a.ops + b.ops) + c.ops == a.ops + (b.ops + c.ops);
    }
  }

  lemma {:induction false} OwnTracesConcat(arena: seq<Fiber>, xs: seq<nat>, ys: seq<nat>)
    requires WF(arena) && AllBelow(xs, |arena|) && AllBelow(ys, |arena|)
    ensures AllBelow(xs + ys, |arena|)
    ensures OwnTraces(arena, xs + ys) == Then(OwnTraces(arena, xs), OwnTraces(arena, ys))
    decreases |ys|
  {
    var zs := xs + ys;
    assert AllBelow(zs, |arena|) by {
      forall k | 0 <= k < |zs| ensures zs[k] < |arena| {
        if k >= |xs| { assert zs[k] == ys[k - |xs|]; }
      }
    }
    if ys == [] {
      assert zs == xs;
      var t := OwnTraces(arena, xs);
      assert Then(t, Trace([], false)) == t by {
        if !t.threw { assert t.ops + [] == t.ops; }
      }
    } else {
      var init := ys[..|ys| - 1];
      assert AllBelow(init, |arena|) by {
        forall k | 0 <= k < |init| ensures init[k] < |arena| { assert init[k] == ys[k]; }
      }
      OwnTracesConcat(arena, xs, init);
      assert zs[..|zs| - 1] == xs + init;
      assert zs[|zs| - 1] == ys[|ys| - 1];
      ThenAssoc(OwnTraces(arena, xs), OwnTraces(arena, init), CommitOwn(arena, ys[|ys| - 1]));
    }
  }

  /** `commitWork(x)` issues, fiber by fiber in the order of `Committed`,
    * exactly the own calls of each fiber; the same holds for a prefix of the
    * children loop. */
  lemma {:induction false} CommitWorkFlat(arena: seq<Fiber>, x: nat)
    requires WF(arena) && x < |arena|
    ensures AllBelow(Committed(arena, x), |arena|)
    ensures CommitWork(arena, x) == OwnTraces(arena, Committed(arena, x))
    decreases |arena| - x, 1, 0
  {
    if arena[x].effectTag.Some? {
      assert FiberWF(arena, x);
      var n := |arena[x].children|;
      CommitChildrenFlat(arena, x, n);
      var cc := CommittedChildren(arena, x, n);
      assert AllBelow([x], |arena|);
      OwnTracesConcat(arena, cc, [x]);
      assert [x][..0] == [];
      assert OwnTraces(arena, [x]) == Then(Trace([], false), CommitOwn(arena, x));
    }
  }

  lemma {:induction false} CommitChildrenFlat(arena: seq<Fiber>, x: nat, i: nat)
    requires WF(arena) && x < |arena| && i <= |arena[x].children|
    ensures AllBelow(CommittedChildren(arena, x, i), |arena|)
    ensures CommitChildren(arena, x, i) == OwnTraces(arena, CommittedChildren(arena, x, i))
    decreases |arena| - x, 0, i
  {
    if i > 0 {
      assert FiberWF(arena, x);
      var c := arena[x].children[i - 1];
      CommitChildrenFlat(arena, x, i - 1);
      CommitWorkFlat(arena, c);
      OwnTracesConcat(arena, CommittedChildren(arena, x, i - 1), Committed(arena, c));
    }
  }

  /** Post-order: every tagged child of a fiber in `xs` comes before it. */
  predicate PostOrdered(arena: seq<Fiber>, xs: seq<nat>)
  {
    forall i :: 0 <= i < |xs| && xs[i] < |arena| ==>
      forall c :: c in arena[xs[i]].children && c < |arena| && arena[c].effectTag.Some? ==> c in xs[..i]
  }

  /** Every fiber in `xs` is tagged and lies after `x` in the arena (or is `x`). */
  predicate TaggedFrom(arena: seq<Fiber>, xs: seq<nat>, x: nat)
  {
    forall i :: 0 <= i < |xs| ==> x <= xs[i] < |arena| && arena[xs[i]].effectTag.Some?
  }

  /** `xs[i]` is a child of a fiber that comes after it in `xs`. */
  predicate ChildOfLater(arena: seq<Fiber>, xs: seq<nat>, i: nat)
    requires i < |xs|
  {
    exists j :: i < j < |xs| && xs[j] < |arena| && xs[i] in arena[xs[j]].children
  }

  /** Every fiber in `xs` but `x` is a child of a fiber that comes after it. */
  predicate ReachedFrom(arena: seq<Fiber>, xs: seq<nat>, x: nat)
  {
    forall i :: 0 <= i < |xs| ==> xs[i] == x || ChildOfLater(arena, xs, i)
  }

  /** Every fiber in `xs` is a child of `x` or of a fiber that comes after it. */
  predicate ChildrenReached(arena: seq<Fiber>, xs: seq<nat>, x: nat)
    requires x < |arena|
  {
    forall i :: 0 <= i < |xs| ==> xs[i] in arena[x].children || ChildOfLater(arena, xs, i)
  }

  lemma ChildOfLaterLeft(arena: seq<Fiber>, xs: seq<nat>, ys: seq<nat>, i: nat)
    requires i < |xs| && ChildOfLater(arena, xs, i)
    ensures ChildOfLater(arena, xs + ys, i)
  {
    var j :| i < j < |xs| && xs[j] < |arena| && xs[i] in arena[xs[j]].children;
    assert (xs + ys)[j] == xs[j] && (xs + ys)[i] == xs[i];
  }

  lemma ChildOfLaterRight(arena: seq<Fiber>, xs: seq<nat>, ys: seq<nat>, i: nat)
    requires i < |ys| && ChildOfLater(arena, ys, i)
    ensures ChildOfLater(arena, xs + ys, |xs| + i)
  {
    var j :| i < j < |ys| && ys[j] < |arena| && ys[i] in arena[ys[j]].children;
    assert (xs + ys)[|xs| + j] == ys[j] && (xs + ys)[|xs| + i] == ys[i];
  }

  lemma PostOrderedConcat(arena: seq<Fiber>, xs: seq<nat>, ys: seq<nat>)
    requires PostOrdered(arena, xs) && PostOrdered(arena, ys)
    ensures PostOrdered(arena, xs + ys)
  {
    var zs := xs + ys;
    forall i | 0 <= i < |zs| && zs[i] < |arena|
      ensures forall c :: c in arena[zs[i]].children && c < |arena| && arena[c].effectTag.Some? ==> c in zs[..i]
    {
      if i < |xs| {
        assert zs[i] == xs[i] && zs[..i] == xs[..i];
      } else {
        assert zs[i] == ys[i - |xs|];
        assert zs[..i] == xs + ys[..i - |xs|];
      }
    }
  }

  /** `Committed(x)` lists tagged fibers from `x` on, and is empty exactly
    * when `x` is untagged; otherwise it ends with `x`. */
  lemma {:induction false} CommittedTagged(arena: seq<Fiber>, x: nat)
    requires WF(arena) && x < |arena|
    ensures var l := Committed(arena, x);
      && TaggedFrom(arena, l, x)
      && (arena[x].effectTag.None? <==> l == [])
      && (l != [] ==> l[|l| - 1] == x)
    decreases |arena| - x, 1, 0
  {
    if arena[x].effectTag.Some? {
      assert FiberWF(arena, x);
      CommittedChildrenTagged(arena, x, |arena[x].children|);
    }
  }

  lemma {:induction false} CommittedChildrenTagged(arena: seq<Fiber>, x: nat, i: nat)
    requires WF(arena) && x < |arena| && i <= |arena[x].children|
    ensures TaggedFrom(arena, CommittedChildren(arena, x, i), x + 1)
    ensures forall k :: 0 <= k < i && arena[x].children[k] < |arena| && arena[arena[x].children[k]].effectTag.Some? ==>
              arena[x].children[k] in CommittedChildren(arena, x, i)
    decreases |arena| - x, 0, i
  {
    if i > 0 {
      assert FiberWF(arena, x);
      var c := arena[x].children[i - 1];
      CommittedChildrenTagged(arena, x, i - 1);
      CommittedTagged(arena, c);
      var a, b := CommittedChildren(arena, x, i - 1), Committed(arena, c);
      assert CommittedChildren(arena, x, i) == a + b;
      forall k | 0 <= k < |a + b| ensures x + 1 <= (a + b)[k] < |arena| && arena[(a + b)[k]].effectTag.Some? {
        if k < |a| { assert (a + b)[k] == a[k]; } else { assert (a + b)[k] == b[k - |a|]; }
      }
      if b != [] {
        assert (a + b)[|a + b| - 1] == c;
      }
    }
  }

  /** `commitWork(x)` acts on each tagged child of a fiber before the fiber
    * itself (post-order). */
  lemma {:induction false} CommittedPostOrdered(arena: seq<Fiber>, x: nat)
    requires WF(arena) && x < |arena|
    ensures PostOrdered(arena, Committed(arena, x))
    decreases |arena| - x, 1, 0
  {
    if arena[x].effectTag.Some? {
      assert FiberWF(arena, x);
      var n := |arena[x].children|;
      var cc := CommittedChildren(arena, x, n);
      CommittedChildrenPostOrdered(arena, x, n);
      CommittedChildrenTagged(arena, x, n);
      var l := cc + [x];
      forall i | 0 <= i < |l| && l[i] < |arena|
        ensures forall c :: c in arena[l[i]].children && c < |arena| && arena[c].effectTag.Some? ==> c in l[..i]
      {
        if i < |cc| {
          assert l[i] == cc[i] && l[..i] == cc[..i];
        } else {
          assert l[..i] == cc;
        }
      }
    }
  }

  lemma {:induction false} CommittedChildrenPostOrdered(arena: seq<Fiber>, x: nat, i: nat)
    requires WF(arena) && x < |arena| && i <= |arena[x].children|
    ensures PostOrdered(arena, CommittedChildren(arena, x, i))
    decreases |arena| - x, 0, i
  {
    if i > 0 {
      assert FiberWF(arena, x);
      var c := arena[x].children[i - 1];
      CommittedChildrenPostOrdered(arena, x, i - 1);
      CommittedPostOrdered(arena, c);
      PostOrderedConcat(arena, CommittedChildren(arena, x, i - 1), Committed(arena, c));
    }
  }

  /** Every fiber `commitWork(x)` acts on other than `x` is reached as a child
    * of a fiber it acts on later. */
  lemma {:induction false} CommittedReached(arena: seq<Fiber>, x: nat)
    requires WF(arena) && x < |arena|
    ensures ReachedFrom(arena, Committed(arena, x), x)
    decreases |arena| - x, 1, 0
  {
    if arena[x].effectTag.Some? {
      assert FiberWF(arena, x);
      var n := |arena[x].children|;
      var cc := CommittedChildren(arena, x, n);
      CommittedChildrenReached(arena, x, n);
      var l := cc + [x];
      forall i | 0 <= i < |l| ensures l[i] == x || ChildOfLater(arena, l, i) {
        if i < |cc| {
          assert l[i] == cc[i];
          assert cc[i] in arena[x].children || ChildOfLater(arena, cc, i);
          if cc[i] in arena[x].children {
            assert l[|cc|] == x;
          } else {
            ChildOfLaterLeft(arena, cc, [x], i);
          }
        }
      }
    }
  }

  /** Every fiber of the children's list of `x` is a child of `x` or a child
    * of a later fiber in it. */
  lemma {:induction false} CommittedChildrenReached(arena: seq<Fiber>, x: nat, i: nat)
    requires WF(arena) && x < |arena| && i <= |arena[x].children|
    ensures ChildrenReached(arena, CommittedChildren(arena, x, i), x)
    decreases |arena| - x, 0, i
  {
    if i > 0 {
      assert FiberWF(arena, x);
      var c := arena[x].children[i - 1];
      CommittedChildrenReached(arena, x, i - 1);
      CommittedReached(arena, c);
      var a, b := CommittedChildren(arena, x, i - 1), Committed(arena, c);
      var l := a + b;
      forall k | 0 <= k < |l| ensures l[k] in arena[x].children || ChildOfLater(arena, l, k) {
        if k < |a| {
          assert l[k] == a[k];
          assert a[k] in arena[x].children || ChildOfLater(arena, a, k);
          if a[k] !in arena[x].children {
            ChildOfLaterLeft(arena, a, b, k);
          }
        } else {
          var kb := k - |a|;
          assert l[k] == b[kb];
          if b[kb] != c {
            ChildOfLaterRight(arena, a, b, kb);
          }
        }
      }
    }
  }

  /** `commitWork(x)` acts on tagged fibers only, each tagged child of a
    * fiber before the fiber itself (post-order), and reaches each fiber
    * other than `x` as a child of a fiber it acts on later; `x` comes last.
    * So an untagged fiber, and what lies below it, gets no calls. */
  lemma CommittedPostOrder(arena: seq<Fiber>, x: nat)
    requires WF(arena) && x < |arena|
    ensures var l := Committed(arena, x);
      && PostOrdered(arena, l) && TaggedFrom(arena, l, x) && ReachedFrom(arena, l, x)
      && (arena[x].effectTag.None? <==> l == [])
      && (l != [] ==> l[|l| - 1] == x)
  {
    CommittedTagged(arena, x);
    CommittedPostOrdered(arena, x);
    CommittedReached(arena, x);
  }

  /** No call in `ops` is a `removeChild`. */
  predicate NoRemovals(ops: seq<HostOp>)
  {
    forall i :: 0 <= i < |ops| ==> !ops[i].RemoveChild?
  }

  /** Every `removeChild` in `ops` comes before every other call. */
  predicate RemovalsFirst(ops: seq<HostOp>)
  {
    forall i, j :: 0 <= i < j < |ops| && ops[j].RemoveChild? ==> ops[i].RemoveChild?
  }

  lemma CommitOwnNoRemovals(arena: seq<Fiber>, x: nat)
    requires WF(arena) && x < |arena|
    ensures NoRemovals(CommitOwn(arena, x).ops)
  {
    assert FiberWF(arena, x);
    if arena[x].effectTag == Some(Update) && arena[x].alternate.Some? {
      var a := arena[x].alternate.value;
      if arena[a].dom.Some? {
        var ops := UpdateDomOps(arena[a].dom.value, arena[a].attrs, arena[x].attrs);
        UpdateDomOrder(arena[a].dom.value, arena[a].attrs, arena[x].attrs);
        assert forall i :: 0 <= i < |ops| ==> ops[i] in ops;
      }
    }
  }

  lemma {:induction false} OwnTracesNoRemovals(arena: seq<Fiber>, xs: seq<nat>)
    requires WF(arena) && AllBelow(xs, |arena|)
    ensures NoRemovals(OwnTraces(arena, xs).ops)
    decreases |xs|
  {
    if xs != [] {
      var init := xs[..|xs| - 1];
      assert AllBelow(init, |arena|) by {
        forall k | 0 <= k < |init| ensures init[k] < |arena| { assert init[k] == xs[k]; }
      }
      OwnTracesNoRemovals(arena, init);
      CommitOwnNoRemovals(arena, xs[|xs| - 1]);
    }
  }

  /** `commitWork` never removes a node. */
  lemma CommitWorkNoRemovals(arena: seq<Fiber>, x: nat)
    requires WF(arena) && x < |arena|
    ensures NoRemovals(CommitWork(arena, x).ops)
  {
    CommitWorkFlat(arena, x);
    OwnTracesNoRemovals(arena, Committed(arena, x));
  }

  /** `wipRoot.props.children[0]`, the top fiber below the root, whose
    * subtree `commitRoot` commits; none while the root has no child fiber. */
  function TopFiber(s: State): (r: Option<nat>)
    requires Inv(s)
    ensures InArena(s.arena, r)
  {
    match s.wipRoot
    case None => None
    case Some(root) =>
      assert FiberWF(s.arena, root);
      if s.arena[root].children == [] then None else Some(s.arena[root].children[0])
  }

  /** `commitRoot()` (lines 77-86): the state after it, and whether it threw.
    * The removals run first; without a work-in-progress root the read of
    * `wipRoot.props` throws; then the top fiber is committed, `deletions`
    * is cleared and the top fiber's node, if it has one, is appended to the
    * root's node once more.  While the root has no child fiber its
    * `props.children[0]` is the untouched element: nothing is committed and
    * nothing appended. */
  function CommitRoot(s: State): (r: (State, bool))
    requires Inv(s)
    ensures r.0.arena == s.arena && r.0.nextUnit == s.nextUnit
    ensures r.0.wipRoot == s.wipRoot && r.0.currentRoot == s.currentRoot && r.0.made == s.made
    ensures |s.ops| <= |r.0.ops| && r.0.ops[..|s.ops|] == s.ops
    ensures r.0.deletions == s.deletions || r.0.deletions == []
    ensures !r.1 ==> r.0.deletions == []
  {
    var rem := Removals(s.arena, s.deletions, |s.deletions|);
    if rem.threw || s.wipRoot.None? then (s.(ops := s.ops + rem.ops), true)
    else
      var root := s.wipRoot.value;
      var top := TopFiber(s);
      var work := if top.None? then Trace([], false) else CommitWork(s.arena, top.value);
      if work.threw then (s.(ops := s.ops + rem.ops + work.ops), true)
      else
        var done := s.(ops := s.ops + rem.ops + work.ops, deletions := []);
        if top.None? || s.arena[top.value].dom.None? then (done, false)
        else if s.arena[root].dom.None? then (done, true)
        else (done.(ops := done.ops + [AppendChild(s.arena[root].dom.value, s.arena[top.value].dom.value)]), false)
  }

  /** The calls `commitRoot` adds. */
  function CommitCalls(s: State): (r: seq<HostOp>)
    requires Inv(s)
    ensures |r| == |CommitRoot(s).0.ops| - |s.ops|
  {
    CommitRoot(s).0.ops[|s.ops|..]
  }

  /** The calls after a prefix `pre` of a trace `pre + rem + after`. */
  lemma CallsAfter(pre: seq<HostOp>, rem: seq<HostOp>, after: seq<HostOp>, total: seq<HostOp>)
    requires total == pre + rem + after
    ensures |pre| <= |total| && total[|pre|..] == rem + after
  {
    assert total[|pre|..] == rem + after;
  }

  /** Calls `rem` followed by calls that remove nothing. */
  lemma RemovalsThen(calls: seq<HostOp>, rem: seq<HostOp>, a: seq<HostOp>, b: seq<HostOp>)
    requires calls == rem + (a + b) && NoRemovals(a) && NoRemovals(b)
    ensures |calls| >= |rem| && calls[..|rem|] == rem && NoRemovals(calls[|rem|..])
  {
    assert calls[..|rem|] == rem;
    assert calls[|rem|..] == a + b;
  }

  /** The calls of `commitRoot` are the removals followed by calls that
    * remove nothing. */
  lemma CommitCallsSplit(s: State)
    requires Inv(s)
    ensures var rem, calls := Removals(s.arena, s.deletions, |s.deletions|), CommitCalls(s);
      && |calls| >= |rem.ops| && calls[..|rem.ops|] == rem.ops && NoRemovals(calls[|rem.ops|..])
      && (rem.threw ==> calls == rem.ops && CommitRoot(s).1)
  {
    var rem := Removals(s.arena, s.deletions, |s.deletions|);
    var r := CommitRoot(s).0;
    if !rem.threw && s.wipRoot.Some? {
      var root := s.wipRoot.value;
      var top := TopFiber(s);
      var work := if top.None? then Trace([], false) else CommitWork(s.arena, top.value);
      if top.Some? {
        CommitWorkNoRemovals(s.arena, top.value);
      }
      var post := if work.threw || top.None? || s.arena[top.value].dom.None? || s.arena[root].dom.None? then []
        else [AppendChild(s.arena[root].dom.value, s.arena[top.value].dom.value)];
      assert r.ops == s.ops + rem.ops + (work.ops + post);
      CallsAfter(s.ops, rem.ops, work.ops + post, r.ops);
      RemovalsThen(CommitCalls(s), rem.ops, work.ops, post);
    } else {
      CallsAfter(s.ops, rem.ops, [], r.ops);
      assert CommitCalls(s) == rem.ops + ([] + []);
      RemovalsThen(CommitCalls(s), rem.ops, [], []);
    }
  }

  /** `commitRoot` removes every queued node before any other call, and
    * removes nothing else.  When it does not throw, its first calls are the
    * removals of the queued fibers' nodes from their parents' nodes, in
    * queue order, and it leaves `deletions` empty; when it throws during the
    * removals, it has removed the nodes of the fibers before the first one
    * that has no node or no parent node. */
  lemma CommitRootRemovalsFirst(s: State)
    requires Inv(s)
    ensures RemovalsFirst(CommitCalls(s))
    ensures !CommitRoot(s).1 ==>
      && CommitRoot(s).0.deletions == []
      && |CommitCalls(s)| >= |s.deletions|
      && (forall k :: 0 <= k < |s.deletions| ==>
            Removable(s.arena, s.deletions[k]) &&
            CommitCalls(s)[k] == RemoveChild(s.arena[s.arena[s.deletions[k]].parent.value].dom.value, s.arena[s.deletions[k]].dom.value))
      && (forall k :: |s.deletions| <= k < |CommitCalls(s)| ==> !CommitCalls(s)[k].RemoveChild?)
    ensures Removals(s.arena, s.deletions, |s.deletions|).threw ==>
      CommitRoot(s).1 && CommitCalls(s) == Removals(s.arena, s.deletions, |s.deletions|).ops
  {
    var rem := Removals(s.arena, s.deletions, |s.deletions|);
    RemovalsExact(s.arena, s.deletions, |s.deletions|);
    CommitCallsSplit(s);
    RemovalsThenOthers(CommitCalls(s), rem.ops);
  }

  lemma RemovalsThenOthers(calls: seq<HostOp>, rem: seq<HostOp>)
    requires |calls| >= |rem| && calls[..|rem|] == rem && NoRemovals(calls[|rem|..])
    requires forall k :: 0 <= k < |rem| ==> rem[k].RemoveChild?
    ensures RemovalsFirst(calls)
    ensures forall k :: 0 <= k < |rem| ==> calls[k] == rem[k]
    ensures forall k :: |rem| <= k < |calls| ==> !calls[k].RemoveChild?
  {
    var m := |rem|;
    forall k | 0 <= k < m ensures calls[k] == rem[k] {
      assert calls[k] == calls[..m][k];
    }
    forall k | m <= k < |calls| ensures !calls[k].RemoveChild? {
      assert calls[k] == calls[m..][k - m];
    }
  }
}
