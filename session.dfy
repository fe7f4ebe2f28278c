/**
 * The module globals of src/index.tsx (`nextUnitOfWork`, `wipRoot`,
 * `currentRoot`, `deletions`, lines 72-75) as the fields of a `Session`,
 * with the fibers in an arena, the DOM calls issued so far in `ops` and the
 * number of nodes created so far in `made`.  Each method does what its
 * function in the source does, step by step with the source's loops, and is
 * proved to leave the session in the state the specification functions of
 * the other modules give.
 */
module Runtime {
  import opened Wrappers
  import opened Elements
  import opened Host
  import opened Fibers
  import opened Reconcile
  import opened UnitOfWork
  import opened Commit
  import opened Loop = WorkLoop

  /** One more round of a pass adds the call for the next entry, if it is
    * selected. */
  lemma PassOpsSnoc(p: Pass, n: Node, attrs: Attrs, i: nat)
    requires i < |attrs|
    ensures PassOps(p, n, attrs[..i + 1]) ==
      PassOps(p, n, attrs[..i]) + (if Selects(p, attrs[i].0) then [OpOf(p, n, attrs[i].0, attrs[i].1)] else [])
  {
    assert attrs[..i + 1][..i] == attrs[..i];
  }

  /** Once the removals threw, later rounds of the `forEach` do not run. */
  lemma {:induction false} RemovalsStay(arena: seq<Fiber>, dels: seq<nat>, i: nat, j: nat)
    requires WF(arena) && AllBelow(dels, |arena|) && i <= j <= |dels|
    requires Removals(arena, dels, i).threw
    ensures Removals(arena, dels, j) == Removals(arena, dels, i)
    decreases j
  {
    if j > i {
      RemovalsStay(arena, dels, i, j - 1);
    }
  }

  /** Once a child's `commitWork` threw, the later children are not committed. */
  lemma {:induction false} CommitChildrenStay(arena: seq<Fiber>, x: nat, i: nat, j: nat)
    requires WF(arena) && x < |arena| && i <= j <= |arena[x].children|
    requires CommitChildren(arena, x, i).threw
    ensures CommitChildren(arena, x, j) == CommitChildren(arena, x, i)
    decreases j
  {
    if j > i {
      CommitChildrenStay(arena, x, i, j - 1);
    }
  }

  /** Round `i + 1` of the children's `forEach` commits child `i`, which lies
    * after `x` in the arena. */
  lemma ChildRound(arena: seq<Fiber>, x: nat, i: nat)
    requires WF(arena) && x < |arena| && i < |arena[x].children|
    ensures x < arena[x].children[i] < |arena|
    ensures !CommitChildren(arena, x, i).threw ==>
      && CommitChildren(arena, x, i + 1).ops == CommitChildren(arena, x, i).ops + Commit.CommitWork(arena, arena[x].children[i]).ops
      && CommitChildren(arena, x, i + 1).threw == Commit.CommitWork(arena, arena[x].children[i]).threw
  {
    assert FiberWF(arena, x);
  }

  /** After the children's rounds either one threw, which ends `commitWork`,
    * or all ran and the fiber's own step follows. */
  lemma CommitWorkSplit(arena: seq<Fiber>, x: nat, i: nat)
    requires WF(arena) && x < |arena| && arena[x].effectTag.Some? && i <= |arena[x].children|
    requires CommitChildren(arena, x, i).threw || i == |arena[x].children|
    ensures CommitChildren(arena, x, i).threw ==> Commit.CommitWork(arena, x) == CommitChildren(arena, x, i)
    ensures !CommitChildren(arena, x, i).threw ==>
      && Commit.CommitWork(arena, x).ops == CommitChildren(arena, x, i).ops + Commit.CommitOwn(arena, x).ops
      && Commit.CommitWork(arena, x).threw == Commit.CommitOwn(arena, x).threw
  {
    if CommitChildren(arena, x, i).threw {
      CommitChildrenStay(arena, x, i, |arena[x].children|);
    }
  }

  /** A unit of the work loop from a state with a cursor is a `Step`. */
  lemma UnitStepIsStep(comps: Components, t: State)
    requires Inv(t) && t.nextUnit.Some?
    ensures UnitStep(comps)(t) == Step(comps, t)
  {
  }

  /** A slice ends where its units left off: yielding there, or finishing
    * the pass from there. */
  lemma SliceEnd(step: State -> State, commit: State -> (State, bool), s: State, budget: nat)
    ensures var t := Run(step, s, Max1(budget));
      var w := WorkSlice(step, commit, s, budget);
      && (t.nextUnit.Some? ==> w.0 == t && w.1 == Yielded)
      && (t.nextUnit.None? ==> w == Finish(commit, t))
  {
  }

  /** Finishing a pass is `commitRoot()` followed, unless it threw, by the
    * two assignments to the roots; it keeps the invariant. */
  lemma FinishParts(t: State)
    requires Inv(t) && t.nextUnit.None?
    ensures var c := Commit.CommitRoot(t);
      var r := Finish(RootCommit(), t);
      && c.0 == t.(ops := c.0.ops, deletions := c.0.deletions)
      && (c.1 ==> r.0 == c.0 && r.1 == Threw)
      && (!c.1 ==> r.0 == c.0.(currentRoot := t.wipRoot, wipRoot := None) && r.1 == Done)
      && Inv(r.0)
  {
    FinishKeeps(RootCommit(), t);
  }

  /** A run that stops with the cursor at a unit goes on with that unit. */
  lemma RunSnoc(step: State -> State, s: State, n: nat)
    requires Run(step, s, n).nextUnit.Some?
    ensures Run(step, s, n + 1) == step(Run(step, s, n))
  {
    RunAdd(step, s, n, 1);
  }

  /** A run that emptied the cursor stays where it is. */
  lemma RunStays(step: State -> State, s: State, n: nat, m: nat)
    requires n <= m && Run(step, s, n).nextUnit.None?
    ensures Run(step, s, m) == Run(step, s, n)
  {
    RunAdd(step, s, n, m - n);
  }

  class Session {
    var arena: seq<Fiber>
    var nextUnit: Option<nat>
    var wipRoot: Option<nat>
    var currentRoot: Option<nat>
    var deletions: seq<nat>
    var ops: seq<HostOp>
    var made: nat
    /** The function components the elements refer to. */
    const comps: Components

    function Snapshot(): State
      reads this
    {
      State(arena, nextUnit, wipRoot, currentRoot, deletions, ops, made)
    }

    predicate Valid()
      reads this
    {
      Inv(Snapshot())
    }

    /** A session before the first `render`: no fibers, no roots, nothing
      * queued for deletion, no DOM calls yet. */
    constructor (comps: Components)
      ensures Valid() && this.comps == comps
      ensures Snapshot() == State([], None, None, None, [], [], 0)
    {
      this.comps := comps;
      arena, nextUnit, wipRoot, currentRoot := [], None, None, None;
      deletions, ops, made := [], [], 0;
    }

    /** One `forEach` over the keys of a props object with the filters of
      * pass `p` in front (lines 47-52, 106-133): one call per selected key,
      * in key order. */
    method RunPass(p: Pass, n: Node, attrs: Attrs)
      modifies this`ops
      ensures ops == old(ops) + PassOps(p, n, attrs)
    {
      var calls := ops;
      var i := 0;
      while i < |attrs|
        invariant i <= |attrs| && calls == ops + PassOps(p, n, attrs[..i])
        modifies {}
      {
        PassOpsSnoc(p, n, attrs, i);
        var (key, v) := attrs[i];
        if Selects(p, key) {
          calls := calls + [OpOf(p, n, key, v)];
        }
        i := i + 1;
      }
      assert attrs[..i] == attrs;
      ops := calls;
    }

    /** `createDOM` (lines 34-55) for a host fiber of type `tag` with props
      * `attrs`, its node being `n`: create the node, assign every prop, then
      * add a listener per event prop. */
    method CreateDom(n: Node, tag: string, attrs: Attrs)
      modifies this`ops
      ensures ops == old(ops) + CreateDomOps(n, tag, attrs)
    {
      if tag == TEXT_ELEMENT {
        ops := ops + [CreateText(n)];
      } else {
        ops := ops + [CreateElem(n, tag)];
      }
      RunPass(SetAll, n, attrs);
      RunPass(BindNew, n, attrs);
    }

    /** `updateDom(fiber)` (lines 100-134) for fiber `x`; returns whether it
      * threw. */
    method UpdateDom(x: nat) returns (threw: bool)
      requires WF(arena) && x < |arena|
      modifies this`ops
      ensures ops == old(ops) + Commit.UpdateDom(arena, x).ops
      ensures threw == Commit.UpdateDom(arena, x).threw
    {
      assert FiberWF(arena, x);
      match arena[x].alternate
      case None =>
        threw := true;
      case Some(a) =>
        var oldAttrs, newAttrs := arena[a].attrs, arena[x].attrs;
        match arena[a].dom
        case Some(n) =>
          ghost var calls := PassOps(ClearOld, n, oldAttrs);
          RunPass(ClearOld, n, oldAttrs);
          RunPass(SetNew, n, newAttrs);
          assert ops == old(ops) + (calls + PassOps(SetNew, n, newAttrs));
          calls := calls + PassOps(SetNew, n, newAttrs);
          RunPass(UnbindOld, n, oldAttrs);
          assert ops == old(ops) + (calls + PassOps(UnbindOld, n, oldAttrs));
          calls := calls + PassOps(UnbindOld, n, oldAttrs);
          RunPass(BindNew, n, newAttrs);
          assert ops == old(ops) + (calls + PassOps(BindNew, n, newAttrs));
          threw := false;
        case None =>
          // The first call on the missing node throws.
          threw := AnyProp(oldAttrs) || AnyProp(newAttrs);
    }

    /** `commitWork(fiber)` (lines 136-153) for fiber `x`: an untagged fiber
      * is skipped with its subtree; a tagged one commits its children in
      * order, then, if PLACEMENT, climbs to the nearest fiber whose parent
      * has a node and appends its own node there, or, if UPDATE, runs
      * `updateDom`.  Returns whether it threw. */
    method CommitWork(x: nat) returns (threw: bool)
      requires WF(arena) && x < |arena|
      modifies this`ops
      ensures ops == old(ops) + Commit.CommitWork(arena, x).ops
      ensures threw == Commit.CommitWork(arena, x).threw
      decreases |arena| - x, 1
    {
      if arena[x].effectTag.None? {
        return false;
      }
      assert FiberWF(arena, x);
      var children := arena[x].children;
      var i := 0;
      threw := false;
      while i < |children| && !threw
        invariant i <= |children| && ops == old(ops) + CommitChildren(arena, x, i).ops
        invariant threw == CommitChildren(arena, x, i).threw
      {
        ChildRound(arena, x, i);
        threw := CommitWork(children[i]);
        assert ops == old(ops) + (CommitChildren(arena, x, i).ops + Commit.CommitWork(arena, children[i]).ops);
        i := i + 1;
      }
      CommitWorkSplit(arena, x, i);
      if threw {
        return;
      }
      threw := CommitOwn(x);
    }

    /** Lines 142-146 and 151, what `commitWork` does for a tagged fiber
      * itself once its children are committed. */
    method CommitOwn(x: nat) returns (threw: bool)
      requires WF(arena) && x < |arena| && arena[x].effectTag.Some?
      modifies this`ops
      ensures ops == old(ops) + Commit.CommitOwn(arena, x).ops
      ensures threw == Commit.CommitOwn(arena, x).threw
    {
      if arena[x].effectTag == Some(Placement) {
        // `while (!target.parent.dom) target = target.parent`
        var target: nat := x;
        assert FiberWF(arena, target);
        while arena[target].parent.Some? && arena[arena[target].parent.value].dom.None?
          invariant target < |arena| && FiberWF(arena, target)
          invariant HostParent(arena, target) == HostParent(arena, x)
          decreases target
        {
          target := arena[target].parent.value;
          assert FiberWF(arena, target);
        }
        if arena[target].parent.None? {
          // reading `dom` of a missing parent throws
          assert HostParent(arena, target).None?;
          assert Commit.CommitOwn(arena, x) == Trace([], true);
          return true;
        }
        var host := arena[arena[target].parent.value].dom.value;
        assert HostParent(arena, x) == Some(host);
        threw := false;
        if arena[x].dom.Some? {
          ops := ops + [AppendChild(host, arena[x].dom.value)];
          assert Commit.CommitOwn(arena, x) == Trace([AppendChild(host, arena[x].dom.value)], false);
        } else {
          assert Commit.CommitOwn(arena, x) == Trace([], false);
        }
      } else {
        assert arena[x].effectTag.value != Placement;
        assert arena[x].effectTag.value.Update?;
        assert arena[x].effectTag == Some(Update);
        threw := UpdateDom(x);
      }
    }

    /** Lines 79-81: `deletions.forEach(fiber => fiber.parent.dom.removeChild(fiber.dom))`.
      * Returns whether it threw. */
    method RemoveDeletions() returns (threw: bool)
      requires WF(arena) && AllBelow(deletions, |arena|)
      modifies this`ops
      ensures ops == old(ops) + Removals(arena, deletions, |deletions|).ops
      ensures threw == Removals(arena, deletions, |deletions|).threw
    {
      var i := 0;
      while i < |deletions|
        invariant i <= |deletions| && ops == old(ops) + Removals(arena, deletions, i).ops
        invariant !Removals(arena, deletions, i).threw
      {
        var d := deletions[i];
        assert FiberWF(arena, d);
        var fb := arena[d];
        if !(fb.parent.Some? && arena[fb.parent.value].dom.Some? && fb.dom.Some?) {
          // `fiber.parent.dom` or the node to remove is missing
          assert Removals(arena, deletions, i + 1).ops == Removals(arena, deletions, i).ops;
          RemovalsStay(arena, deletions, i + 1, |deletions|);
          return true;
        }
        ops := ops + [RemoveChild(arena[fb.parent.value].dom.value, fb.dom.value)];
        i := i + 1;
      }
      threw := false;
    }

    /** `commitRoot()` (lines 77-86): the queued removals in order, then
      * `commitWork` on the top fiber, then `deletions = []` and the append
      * of the top node to the root node.  Returns whether it threw. */
    method CommitRoot() returns (threw: bool)
      requires Valid()
      modifies this`ops, this`deletions
      ensures ops == Commit.CommitRoot(old(Snapshot())).0.ops
      ensures deletions == Commit.CommitRoot(old(Snapshot())).0.deletions
      ensures threw == Commit.CommitRoot(old(Snapshot())).1
    {
      ghost var s := Snapshot();
      threw := RemoveDeletions();
      if threw || wipRoot.None? {
        return true;
      }
      var root := wipRoot.value;
      assert FiberWF(arena, root);
      var top: Option<nat> := if arena[root].children == [] then None else Some(arena[root].children[0]);
      assert top == TopFiber(s);
      if top.Some? {
        threw := CommitWork(top.value);
        if threw {
          return;
        }
      }
      deletions := [];
      if top.None? || arena[top.value].dom.None? {
        return false;
      }
      if arena[root].dom.None? {
        // `wipRoot.dom.appendChild` on a root without a node
        return true;
      }
      ops := ops + [AppendChild(arena[root].dom.value, arena[top.value].dom.value)];
      threw := false;
    }

    /** Lines 157-163: a component fiber's `props.children` becomes the one
      * element its function returns; a host fiber without a node gets one
      * from `createDOM`; the root, which has its container, is left alone. */
    method ExpandUnit(f: nat)
      requires Valid() && f < |arena|
      modifies this`arena, this`ops, this`made
      ensures arena == Expand(comps, old(Snapshot()), f).arena
      ensures ops == Expand(comps, old(Snapshot()), f).ops
      ensures made == Expand(comps, old(Snapshot()), f).made
    {
      var fb := arena[f];
      match fb.ftype
      case Component(id) =>
        arena := arena[f := fb.(elems := [comps(id, fb.attrs, fb.elems)])];
      case Tag(name) =>
        if fb.dom.None? {
          var n := Made(made);
          CreateDom(n, name, fb.attrs);
          arena := arena[f := fb.(dom := Some(n))];
          made := made + 1;
        }
    }

    /** Lines 169-172: `children.forEach((child, i) => { child.sibling =
      * children[i + 1]; child.parent = fiber })`. */
    method LinkChildren(f: nat)
      requires WF(arena) && f < |arena|
      modifies this`arena
      ensures arena == Link(old(arena), f)
    {
      ghost var a0 := arena;
      assert FiberWF(a0, f);
      var cs := arena[f].children;
      var i := 0;
      while i < |cs|
        invariant i <= |cs| && arena == LinkFirst(a0, f, cs, i)
      {
        var c := cs[i];
        arena := arena[c := arena[c].(sibling := NextOf(cs, i), parent := Some(f))];
        i := i + 1;
      }
    }

    /** Lines 176-208: the two-cursor walk over the alternate's children and
      * the fresh children, tagging the fresh ones and queueing the orphaned
      * old ones for deletion. */
    method ReconcileChildren(f: nat)
      requires WF(arena) && f < |arena|
      modifies this`arena, this`deletions
      ensures arena == ReconcileLoop(old(arena), old(deletions), FirstOld(old(arena), f), FirstChild(old(arena), f)).0
      ensures deletions == ReconcileLoop(old(arena), old(deletions), FirstOld(old(arena), f), FirstChild(old(arena), f)).1
    {
      var oldCur := FirstOld(arena, f);
      var newCur := FirstChild(arena, f);
      ghost var goal := ReconcileLoop(arena, deletions, oldCur, newCur);
      while oldCur.Some? || newCur.Some?
        invariant WF(arena) && InArena(arena, oldCur) && InArena(arena, newCur)
        invariant ReconcileLoop(arena, deletions, oldCur, newCur) == goal
        decreases Remaining(arena, oldCur) + Remaining(arena, newCur)
      {
        ghost var adv := Advance(arena, deletions, oldCur, newCur);
        if newCur.None? {
          var o := oldCur.value;
          deletions := deletions + [o];
          oldCur := arena[o].sibling;
        } else if oldCur.None? {
          var w := newCur.value;
          arena := arena[w := arena[w].(effectTag := Some(Placement))];
          newCur := arena[w].sibling;
        } else {
          var o, w := oldCur.value, newCur.value;
          if arena[o].ftype == arena[w].ftype {
            arena := arena[w := arena[w].(effectTag := Some(Update), dom := arena[o].dom, alternate := Some(o))];
          } else {
            deletions := deletions + [o];
            arena := arena[w := arena[w].(effectTag := Some(Placement))];
          }
          oldCur, newCur := arena[o].sibling, arena[w].sibling;
        }
        assert arena == adv.0 && deletions == adv.1 && oldCur == adv.2 && newCur == adv.3;
      }
    }

    /** Lines 210-224: the first child, else the sibling, else the sibling
      * of the nearest ancestor that has one; nothing once the climb reaches
      * a parentless fiber. */
    method NextUnitOf(f: nat) returns (next: Option<nat>)
      requires WF(arena) && f < |arena|
      requires arena[f].children != [] || arena[f].sibling.Some? || arena[f].parent.Some?
      ensures next == NextUnit(arena, f)
    {
      assert FiberWF(arena, f);
      if arena[f].children != [] {
        return Some(arena[f].children[0]);
      }
      if arena[f].sibling.Some? {
        return arena[f].sibling;
      }
      var nextWork: nat := arena[f].parent.value;
      while true
        invariant nextWork < |arena| && Climb(arena, nextWork) == NextUnit(arena, f)
        decreases nextWork
      {
        assert FiberWF(arena, nextWork);
        if arena[nextWork].sibling.Some? {
          return arena[nextWork].sibling;
        }
        if arena[nextWork].parent.None? {
          return None;
        }
        nextWork := arena[nextWork].parent.value;
      }
    }

    /** Lines 157-172: expand the fiber, give it one fresh fiber per element
      * child and link those. */
    method PrepareUnit(f: nat)
      requires Valid() && f < |arena|
      modifies this`arena, this`ops, this`made
      ensures arena == Prepare(comps, old(Snapshot()), f).arena
      ensures ops == Prepare(comps, old(Snapshot()), f).ops && made == Prepare(comps, old(Snapshot()), f).made
    {
      ExpandUnit(f);
      arena := Materialise(arena, f);
      LinkChildren(f);
    }

    /** `performUnitOfWork(fiber)` (lines 155-225): expand the fiber, give it
      * its child fibers, link and reconcile them, and return the next unit. */
    method PerformUnitOfWork(f: nat) returns (next: Option<nat>)
      requires Valid() && f < |arena| && CanAdvance(arena[f])
      modifies this`arena, this`deletions, this`ops, this`made
      ensures arena == Perform(comps, old(Snapshot()), f).0.arena
      ensures deletions == Perform(comps, old(Snapshot()), f).0.deletions
      ensures ops == Perform(comps, old(Snapshot()), f).0.ops && made == Perform(comps, old(Snapshot()), f).0.made
      ensures next == Perform(comps, old(Snapshot()), f).1
    {
      ghost var s := Snapshot();
      PrepareUnit(f);
      ReconcileChildren(f);
      ReconciledCursor(comps, s, f);
      next := NextUnitOf(f);
    }

    /** Line 231: `nextUnitOfWork = performUnitOfWork(nextUnitOfWork)`. */
    method StepUnit()
      requires Valid() && nextUnit.Some?
      modifies this`arena, this`nextUnit, this`deletions, this`ops, this`made
      ensures Snapshot() == Step(comps, old(Snapshot()))
    {
      ghost var t := Snapshot();
      ghost var p := Perform(comps, t, t.nextUnit.value);
      var next := PerformUnitOfWork(nextUnit.value);
      nextUnit := next;
    }

    /** `render(element, container)` (lines 58-70): a fresh root fiber for the
      * element, whose node is the container and whose alternate is the
      * current root, becomes `wipRoot` and the cursor. */
    method Render(e: Element, c: nat)
      requires Valid()
      modifies this`arena, this`wipRoot, this`nextUnit
      ensures Snapshot() == Loop.Render(old(Snapshot()), e, c)
      ensures Valid()
    {
      var root := |arena|;
      arena := arena + [RootFiber(e, c, currentRoot)];
      wipRoot := Some(root);
      nextUnit := wipRoot;
    }

    /** `workLoop(deadline)` (lines 227-244), the deadline being a budget of
      * units: perform units while there is a cursor and the budget is not
      * used up, checking the budget after each unit; then, with no cursor
      * left, commit and make the work-in-progress root current, or else
      * yield to be called again. */
    method WorkLoop(budget: nat) returns (outcome: Outcome)
      requires Valid()
      modifies this`arena, this`nextUnit, this`wipRoot, this`currentRoot, this`deletions, this`ops, this`made
      ensures Valid()
      ensures Snapshot() == WorkSlice(UnitStep(comps), RootCommit(), old(Snapshot()), budget).0
      ensures outcome == WorkSlice(UnitStep(comps), RootCommit(), old(Snapshot()), budget).1
    {
      ghost var s := Snapshot();
      ghost var step := UnitStep(comps);
      var shouldYield := false;
      var count: nat := 0;
      while nextUnit.Some? && !shouldYield
        invariant Valid() && count <= Max1(budget) && shouldYield == (count >= Max1(budget))
        invariant Snapshot() == Run(step, s, count)
        decreases Max1(budget) - count
      {
        ghost var t := Snapshot();
        RunSnoc(step, s, count);
        UnitStepIsStep(comps, t);
        StepUnit();
        count := count + 1;
        shouldYield := count >= budget;
      }
      if nextUnit.None? {
        RunStays(step, s, count, Max1(budget));
      }
      ghost var t := Snapshot();
      SliceEnd(step, RootCommit(), s, budget);
      ghost var slice := WorkSlice(step, RootCommit(), s, budget);
      if nextUnit.Some? {
        // requestIdleCallback(workLoop)
        assert count == Max1(budget) && t == Run(step, s, Max1(budget));
        assert t == slice.0 && slice.1 == Yielded;
        return Yielded;
      }
      assert t == Run(step, s, Max1(budget));
      FinishParts(t);
      ghost var c := Commit.CommitRoot(t);
      var threw := CommitRoot();
      assert Snapshot() == c.0;
      if threw {
        assert slice.0 == c.0 && slice.1 == Threw;
        return Threw;
      }
      currentRoot := wipRoot;
      wipRoot := None;
      assert slice.0 == c.0.(currentRoot := t.wipRoot, wipRoot := None) && slice.1 == Done;
      return Done;
    }
  }
}
