/**
 * The fiber data model of src/index.tsx (shape as in src/types.ts): fibers
 * live in an arena and refer to each other by index; the renderer's module
 * globals (`nextUnitOfWork`, `wipRoot`, `currentRoot`, `deletions`) and the
 * DOM call log form the renderer state.
 */
module Fibers {
  import opened Wrappers
  import opened Elements
  import opened Host

  /** `effectTag`; there is no DELETION tag. */
  datatype EffectTag = Placement | Update

  /** A fiber. `elems` is `props.children` as descriptions; `children` is the
    * same list as fibers (arena indices), filled in when the fiber is
    * performed.  `parent`, `sibling` and `alternate` are arena indices. */
  datatype Fiber = Fiber(
    ftype: ElemType,
    attrs: Attrs,
    elems: seq<Element>,
    children: seq<nat>,
    dom: Option<Node>,
    parent: Option<nat>,
    sibling: Option<nat>,
    alternate: Option<nat>,
    effectTag: Option<EffectTag>)

  /** The component functions: a component's result for given props
    * (`props.children` passed as the third argument). */
  type Components = (nat, Attrs, seq<Element>) -> Element

  /** An element object as a fiber that nothing has touched yet. */
  function FromElement(e: Element): Fiber
  {
    Fiber(e.etype, e.attrs, e.children, [], None, None, None, None, None)
  }

  /** Links of fiber `i` point into the arena, children and siblings forward,
    * parents backward; children are in increasing order. */
  predicate FiberWF(arena: seq<Fiber>, i: nat)
    requires i < |arena|
  {
    var f := arena[i];
    && (forall k :: 0 <= k < |f.children| ==> i < f.children[k] < |arena|)
    && (forall k, l :: 0 <= k < l < |f.children| ==> f.children[k] < f.children[l])
    && (f.sibling.Some? ==> i < f.sibling.value < |arena|)
    && (f.parent.Some? ==> f.parent.value < i)
    && (f.alternate.Some? ==> f.alternate.value < |arena|)
  }

  predicate WF(arena: seq<Fiber>)
  {
    forall i :: 0 <= i < |arena| ==> FiberWF(arena, i)
  }

  predicate InArena(arena: seq<Fiber>, h: Option<nat>)
  {
    h.Some? ==> h.value < |arena|
  }

  /** A fiber that is some fiber's sibling has a parent: the linking loop sets
    * both links together. */
  predicate SiblingsParented(arena: seq<Fiber>)
  {
    forall i, j :: 0 <= i < |arena| && 0 <= j < |arena| && arena[i].sibling == Some(j) ==>
      arena[j].parent.Some?
  }

  /** A fiber's `alternate` was created before it: the old tree is older
    * than the tree being built. */
  predicate AlternatesOlder(arena: seq<Fiber>)
  {
    forall i :: 0 <= i < |arena| && arena[i].alternate.Some? ==> arena[i].alternate.value < i
  }

  predicate AllBelow(xs: seq<nat>, n: nat)
  {
    forall k :: 0 <= k < |xs| ==> xs[k] < n
  }

  /** A fiber from which `performUnitOfWork` can choose a next unit without
    * reading a property of `undefined`: it has a parent, a sibling, or will
    * have a first child. */
  predicate CanAdvance(f: Fiber)
  {
    f.parent.Some? || f.sibling.Some? || f.elems != [] || f.ftype.Component?
  }

  /** The renderer's state: the fiber arena, `nextUnitOfWork`, `wipRoot`,
    * `currentRoot`, `deletions`, the DOM calls issued so far, and the number
    * of DOM nodes created so far. */
  datatype State = State(
    arena: seq<Fiber>,
    nextUnit: Option<nat>,
    wipRoot: Option<nat>,
    currentRoot: Option<nat>,
    deletions: seq<nat>,
    ops: seq<HostOp>,
    made: nat)

  predicate Inv(s: State)
  {
    && WF(s.arena)
    && InArena(s.arena, s.nextUnit)
    && InArena(s.arena, s.wipRoot)
    && InArena(s.arena, s.currentRoot)
    && (forall k :: 0 <= k < |s.deletions| ==> s.deletions[k] < |s.arena|)
    && SiblingsParented(s.arena)
    && AlternatesOlder(s.arena)
    && (s.nextUnit.Some? ==> CanAdvance(s.arena[s.nextUnit.value]))
  }

  /** Gives fiber `f` one fresh fiber per element of `props.children`, appended
    * to the arena in order. */
  function Materialise(arena: seq<Fiber>, f: nat): (r: seq<Fiber>)
    requires f < |arena|
    ensures |r| == |arena| + |arena[f].elems|
    ensures r[f] == arena[f].(children := r[f].children)
    ensures |r[f].children| == |arena[f].elems|
    ensures forall k :: 0 <= k < |arena[f].elems| ==>
              r[f].children[k] == |arena| + k && r[|arena| + k] == FromElement(arena[f].elems[k])
    ensures forall j :: 0 <= j < |arena| && j != f ==> r[j] == arena[j]
    ensures WF(arena) ==> WF(r)
    ensures WF(arena) && SiblingsParented(arena) ==> SiblingsParented(r)
    ensures AlternatesOlder(arena) ==> AlternatesOlder(r)
  {
    var es := arena[f].elems;
    var base := |arena|;
    var r := arena[f := arena[f].(children := seq(|es|, k requires 0 <= k < |es| => base + k))]
             + seq(|es|, k requires 0 <= k < |es| => FromElement(es[k]));
    assert WF(arena) ==> WF(r) by {
      if WF(arena) {
        forall i | 0 <= i < |r| ensures FiberWF(r, i) {
          if i < |arena| && i != f {
            assert FiberWF(arena, i);
          } else if i == f {
            assert FiberWF(arena, i);
          }
        }
      }
    }
    assert WF(arena) && SiblingsParented(arena) ==> SiblingsParented(r) by {
      if WF(arena) && SiblingsParented(arena) {
        forall i, j | 0 <= i < |r| && 0 <= j < |r| && r[i].sibling == Some(j)
          ensures r[j].parent.Some?
        {
          if i < |arena| {
            assert FiberWF(arena, i);
          }
        }
      }
    }
    r
  }

  /** Replacing fiber `w` by one with the same links, whatever its type, tag,
    * node and element children, and with an alternate older than `w`, keeps
    * the invariants. */
  lemma ReplaceKeeps(arena: seq<Fiber>, w: nat, fb: Fiber)
    requires w < |arena|
    requires fb.children == arena[w].children && fb.sibling == arena[w].sibling && fb.parent == arena[w].parent
    requires fb.alternate.Some? ==> fb.alternate.value < w
    ensures WF(arena) ==> WF(arena[w := fb])
    ensures SiblingsParented(arena) ==> SiblingsParented(arena[w := fb])
    ensures AlternatesOlder(arena) ==> AlternatesOlder(arena[w := fb])
  {
    var a := arena[w := fb];
    if WF(arena) {
      forall i | 0 <= i < |a| ensures FiberWF(a, i) {
        assert FiberWF(arena, i);
      }
    }
  }
}
