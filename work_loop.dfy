/**
 * `render` and `workLoop` of src/index.tsx (lines 58-70, 227-244).  The
 * host's idle callback and its deadline become a budget: a slice performs
 * units until the cursor is empty or the budget is used up (at least one
 * unit, as the deadline is only read after a unit), then either commits or
 * yields to be called again.
 */
module WorkLoop {
  import opened Wrappers
  import opened Elements
  import opened Host
  import opened Fibers
  import opened UnitOfWork
  import opened Commit

  /** How a slice of the work loop ended: it yielded with work left, it
    * committed, or `commitRoot` threw. */
  datatype Outcome = Yielded | Done | Threw

  /** The root fiber `render` creates for element `e` and container `c`. */
  function RootFiber(e: Element, c: nat, alternate: Option<nat>): Fiber
  {
    Fiber(Tag(""), [], [e], [], Some(Container(c)), None, None, alternate, None)
  }

  /** `render(element, container)`: a fresh root fiber whose only child is
    * the element, whose node is the container and whose alternate is the
    * current root, becomes both `wipRoot` and the cursor.  `deletions` is
    * not reset. */
  function Render(s: State, e: Element, c: nat): (r: State)
    requires Inv(s)
    ensures Inv(r)
    ensures r.arena == s.arena + [RootFiber(e, c, s.currentRoot)]
    ensures r.wipRoot == Some(|s.arena|) && r.nextUnit == r.wipRoot
    ensures r.currentRoot == s.currentRoot && r.deletions == s.deletions && r.ops == s.ops && r.made == s.made
  {
    var a := s.arena + [RootFiber(e, c, s.currentRoot)];
    assert WF(a) by {
      forall i | 0 <= i < |a| ensures FiberWF(a, i) {
        if i < |s.arena| { assert FiberWF(s.arena, i); }
      }
    }
    assert SiblingsParented(a) by {
      forall i, j | 0 <= i < |a| && 0 <= j < |a| && a[i].sibling == Some(j)
        ensures a[j].parent.Some?
      {
        assert i < |s.arena|;
        assert FiberWF(s.arena, i);
      }
    }
    assert AlternatesOlder(a) by {
      forall i | 0 <= i < |a| && a[i].alternate.Some? ensures a[i].alternate.value < i {
        if i < |s.arena| { assert a[i] == s.arena[i]; }
      }
    }
    assert CanAdvance(a[|s.arena|]);
    s.(arena := a, wipRoot := Some(|s.arena|), nextUnit := Some(|s.arena|))
  }

  /** What the work loop needs of a unit of work: from a state with a
    * cursor it gives a state that keeps the invariant, keeps both roots and
    * only adds fibers. */
  ghost predicate StepOK(step: State -> State)
  {
    forall t :: StepKeeps(step, t)
  }

  ghost predicate StepKeeps(step: State -> State, t: State)
  {
    Inv(t) && t.nextUnit.Some? ==>
      Inv(step(t)) && step(t).wipRoot == t.wipRoot && step(t).currentRoot == t.currentRoot &&
      |step(t).arena| >= |t.arena|
  }

  /** `performUnitOfWork` on the cursor, with the cursor moved to its
    * result; the work loop only applies it where its invariant holds and
    * there is a cursor. */
  function UnitStep(comps: Components): (r: State -> State)
    ensures StepOK(r)
  {
    t => if Inv(t) && t.nextUnit.Some? then Step(comps, t) else t
  }

  /** Up to `n` units of work from `s`, stopping early once the cursor is
    * empty. */
  function Run(step: State -> State, s: State, n: nat): (r: State)
    ensures n == 0 || s.nextUnit.None? ==> r == s
    decreases n
  {
    if n == 0 || s.nextUnit.None? then s else Run(step, step(s), n - 1)
  }

  /** Units of work that keep the invariant and both roots and only add
    * fibers do so over a whole run. */
  lemma {:induction false} RunKeeps(step: State -> State, s: State, n: nat)
    requires Inv(s) && StepOK(step)
    ensures var r := Run(step, s, n);
      Inv(r) && r.wipRoot == s.wipRoot && r.currentRoot == s.currentRoot && |r.arena| >= |s.arena|
    decreases n
  {
    if n > 0 && s.nextUnit.Some? {
      assert StepKeeps(step, s);
      RunKeeps(step, step(s), n - 1);
    }
  }

  /** The fibers those units are performed on, in order. */
  function Units(step: State -> State, s: State, n: nat): (r: seq<nat>)
    ensures |r| <= n
    decreases n
  {
    if n == 0 || s.nextUnit.None? then [] else [s.nextUnit.value] + Units(step, step(s), n - 1)
  }

  /** Running `a` units and then `b` more is running `a + b` units. */
  lemma {:induction false} RunAdd(step: State -> State, s: State, a: nat, b: nat)
    ensures Run(step, Run(step, s, a), b) == Run(step, s, a + b)
    decreases a
  {
    if a > 0 && s.nextUnit.Some? {
      RunAdd(step, step(s), a - 1, b);
      assert a - 1 + b == a + b - 1;
    }
  }

  /** ... and the fibers performed are the same, in the same order. */
  lemma {:induction false} UnitsAdd(step: State -> State, s: State, a: nat, b: nat)
    ensures Units(step, s, a) + Units(step, Run(step, s, a), b) == Units(step, s, a + b)
    decreases a
  {
    if a > 0 && s.nextUnit.Some? {
      var t := step(s);
      UnitsAdd(step, t, a - 1, b);
      assert a - 1 + b == a + b - 1;
      assert Units(step, s, a) + Units(step, Run(step, s, a), b)
          == [s.nextUnit.value] + (Units(step, t, a - 1) + Units(step, Run(step, t, a - 1), b));
    }
  }

  /** Fewer units than the budget are performed only when the cursor ran out. */
  lemma {:induction false} RunStopsEarly(step: State -> State, s: State, n: nat)
    ensures |Units(step, s, n)| < n ==> Run(step, s, n).nextUnit.None?
    ensures Run(step, s, n).nextUnit.Some? ==> |Units(step, s, n)| == n
    decreases n
  {
    if n > 0 && s.nextUnit.Some? {
      RunStopsEarly(step, step(s), n - 1);
    }
  }

  function Max1(b: nat): (r: nat)
    ensures r >= 1 && (b >= 1 ==> r == b)
  {
    if b == 0 then 1 else b
  }

  /** What the work loop needs of a commit: from a state with no cursor
    * left it gives a state that keeps the invariant, the arena, the cursor
    * and both roots, and, unless it threw, has an empty deletion list. */
  ghost predicate CommitOK(commit: State -> (State, bool))
  {
    forall t :: CommitKeeps(commit, t)
  }

  ghost predicate CommitKeeps(commit: State -> (State, bool), t: State)
  {
    Inv(t) && t.nextUnit.None? ==>
      var c := commit(t);
      && Inv(c.0) && c.0.arena == t.arena && c.0.nextUnit == t.nextUnit
      && c.0.wipRoot == t.wipRoot && c.0.currentRoot == t.currentRoot
      && (!c.1 ==> c.0.deletions == [])
  }

  /** `commitRoot()`, applied where the invariant holds. */
  function RootCommit(): (r: State -> (State, bool))
    ensures CommitOK(r)
  {
    t => if Inv(t) then CommitRoot(t) else (t, true)
  }

  /** The end of a render pass, once no unit is left: commit, then
    * `currentRoot := wipRoot` and `wipRoot := null`; `Threw` when the
    * commit throws. */
  function Finish(commit: State -> (State, bool), t: State): (r: (State, Outcome))
    ensures r.1 != Yielded && (r.1 == Threw <==> commit(t).1)
    ensures r.0.ops == commit(t).0.ops
  {
    var c := commit(t);
    if c.1 then (c.0, Threw)
    else (c.0.(currentRoot := c.0.wipRoot, wipRoot := None), Done)
  }

  /** A finished pass keeps the invariant and the fibers; when the commit
    * throws both roots stay as they were, otherwise the work-in-progress
    * root becomes the current root and the deletion list is empty. */
  lemma FinishKeeps(commit: State -> (State, bool), t: State)
    requires Inv(t) && t.nextUnit.None? && CommitOK(commit)
    ensures var r := Finish(commit, t);
      && Inv(r.0) && r.0.arena == t.arena && r.0.nextUnit.None?
      && (r.1 == Threw ==> r.0.wipRoot == t.wipRoot && r.0.currentRoot == t.currentRoot)
      && (r.1 == Done ==> r.0.currentRoot == t.wipRoot && r.0.wipRoot.None? && r.0.deletions == [])
  {
    assert CommitKeeps(commit, t);
  }

  /** `workLoop(deadline)` with a budget of units: perform units while there
    * is a cursor and the budget is not used up (at least one); then yield
    * if a cursor is left, or finish the pass. */
  function WorkSlice(step: State -> State, commit: State -> (State, bool), s: State, budget: nat): (r: (State, Outcome))
    ensures r.1 == Yielded <==> Run(step, s, Max1(budget)).nextUnit.Some?
  {
    var t := Run(step, s, Max1(budget));
    if t.nextUnit.Some? then (t, Yielded) else Finish(commit, t)
  }

  /** A slice keeps the invariant and commits at most once: it either
    * yields with a cursor and both roots unchanged, or ends the pass. */
  lemma WorkSliceKeeps(step: State -> State, commit: State -> (State, bool), s: State, budget: nat)
    requires Inv(s) && StepOK(step) && CommitOK(commit)
    ensures var r := WorkSlice(step, commit, s, budget);
      && Inv(r.0)
      && (r.1 == Yielded ==> r.0.nextUnit.Some? && r.0.wipRoot == s.wipRoot && r.0.currentRoot == s.currentRoot)
      && (r.1 != Yielded ==> r.0.nextUnit.None?)
      && (r.1 == Done ==> r.0.currentRoot == s.wipRoot && r.0.wipRoot.None? && r.0.deletions == [])
  {
    var t := Run(step, s, Max1(budget));
    RunKeeps(step, s, Max1(budget));
    if t.nextUnit.None? {
      FinishKeeps(commit, t);
    }
  }

  /** Yielding changes nothing: after a slice with budget `a` yields (it
    * leaves `Run(step, s, Max1(a))`), a slice with budget `b` (at least one)
    * ends exactly as one slice with both budgets would. */
  lemma SliceAfterYield(step: State -> State, commit: State -> (State, bool), s: State, a: nat, b: nat)
    requires b >= 1 && Run(step, s, Max1(a)).nextUnit.Some?
    ensures WorkSlice(step, commit, Run(step, s, Max1(a)), b).0 == WorkSlice(step, commit, s, Max1(a) + b).0
    ensures WorkSlice(step, commit, Run(step, s, Max1(a)), b).1 == WorkSlice(step, commit, s, Max1(a) + b).1
  {
    RunAdd(step, s, Max1(a), b);
    var t := Run(step, s, Max1(a) + b);
    var u := Run(step, s, Max1(a));
    assert Max1(b) == b;
    assert Run(step, u, b) == t;
  }

  /** The host calling `workLoop` once per budget in `budgets`, as long as
    * each slice yields: the final state and outcome, the fibers performed
    * over all slices, and the units the slices that ran were allowed. */
  function Schedule(step: State -> State, commit: State -> (State, bool), s: State, budgets: seq<nat>): (r: (State, Outcome, seq<nat>, nat))
    ensures budgets != [] ==> r.3 >= 1
    decreases |budgets|
  {
    if budgets == [] then (s, Yielded, [], 0)
    else
      var w := WorkSlice(step, commit, s, budgets[0]);
      var units := Units(step, s, Max1(budgets[0]));
      if w.1 != Yielded then (w.0, w.1, units, Max1(budgets[0]))
      else
        var rest := Schedule(step, commit, w.0, budgets[1..]);
        (rest.0, rest.1, units + rest.2, Max1(budgets[0]) + rest.3)
  }

  /** A schedule whose first slice yields goes on with the rest. */
  lemma ScheduleYields(step: State -> State, commit: State -> (State, bool), s: State, budgets: seq<nat>)
    requires budgets != [] && Run(step, s, Max1(budgets[0])).nextUnit.Some?
    ensures var u := Run(step, s, Max1(budgets[0]));
      var rest := Schedule(step, commit, u, budgets[1..]);
      var r := Schedule(step, commit, s, budgets);
      && r.0 == rest.0 && r.1 == rest.1
      && r.2 == Units(step, s, Max1(budgets[0])) + rest.2
      && r.3 == Max1(budgets[0]) + rest.3
  {
    var w := WorkSlice(step, commit, s, budgets[0]);
    assert w.1 == Yielded && w.0 == Run(step, s, Max1(budgets[0]));
  }

  /** A schedule whose first slice does not yield, or that has no more
    * budgets, is that one slice. */
  lemma ScheduleLast(step: State -> State, commit: State -> (State, bool), s: State, budgets: seq<nat>)
    requires budgets != [] && (Run(step, s, Max1(budgets[0])).nextUnit.None? || |budgets| == 1)
    ensures var r := Schedule(step, commit, s, budgets);
      && r.3 == Max1(budgets[0])
      && r.0 == WorkSlice(step, commit, s, r.3).0 && r.1 == WorkSlice(step, commit, s, r.3).1
      && r.2 == Units(step, s, r.3)
  {
    assert Max1(Max1(budgets[0])) == Max1(budgets[0]);
  }

  /** However the work is cut into slices, the fibers performed and the
    * final state and outcome are those of one uninterrupted slice with the
    * same total budget; so a pass commits exactly once, in its last slice. */
  lemma {:induction false} ScheduleIsOneSlice(step: State -> State, commit: State -> (State, bool), s: State, budgets: seq<nat>)
    requires budgets != []
    ensures var r := Schedule(step, commit, s, budgets);
      && r.0 == WorkSlice(step, commit, s, r.3).0
      && r.1 == WorkSlice(step, commit, s, r.3).1
      && r.2 == Units(step, s, r.3)
    decreases |budgets|
  {
    var u := Run(step, s, Max1(budgets[0]));
    if u.nextUnit.Some? && |budgets| > 1 {
      ScheduleYields(step, commit, s, budgets);
      ScheduleIsOneSlice(step, commit, u, budgets[1..]);
      var rest := Schedule(step, commit, u, budgets[1..]);
      SliceAfterYield(step, commit, s, budgets[0], rest.3);
      UnitsAdd(step, s, Max1(budgets[0]), rest.3);
    } else {
      ScheduleLast(step, commit, s, budgets);
    }
  }

  /** The render pass the host drives keeps the invariant, whatever the
    * budgets. */
  lemma ScheduleKeeps(step: State -> State, commit: State -> (State, bool), s: State, budgets: seq<nat>)
    requires Inv(s) && StepOK(step) && CommitOK(commit)
    ensures Inv(Schedule(step, commit, s, budgets).0)
  {
    if budgets != [] {
      ScheduleIsOneSlice(step, commit, s, budgets);
      WorkSliceKeeps(step, commit, s, Schedule(step, commit, s, budgets).3);
    }
  }
}
