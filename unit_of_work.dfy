/**
 * `performUnitOfWork` (src/index.tsx:155-225) as a function of the renderer
 * state: expand the fiber (call its component, or create its DOM node), give
 * it its child fibers, link and reconcile them, and choose the next unit.
 */
module UnitOfWork {
  import opened Wrappers
  import opened Elements
  import opened Host
  import opened Fibers
  import opened Reconcile

  /** The element children a fiber has once expanded: a component's are the
    * one element its function returns for the fiber's props. */
  function ExpandedElems(comps: Components, fb: Fiber): seq<Element>
  {
    match fb.ftype
    case Component(id) => [comps(id, fb.attrs, fb.elems)]
    case Tag(_) => fb.elems
  }

  /** Lines 157-163: a component fiber's `props.children` becomes the element
    * its function returns; a host fiber without a DOM node gets one from
    * `createDOM`, whose calls are logged; any other fiber is left as it is. */
  function Expand(comps: Components, s: State, f: nat): (r: State)
    requires Inv(s) && f < |s.arena|
    ensures Inv(r) && |r.arena| == |s.arena|
    ensures r.nextUnit == s.nextUnit && r.wipRoot == s.wipRoot && r.currentRoot == s.currentRoot
    ensures r.deletions == s.deletions
    ensures forall j :: 0 <= j < |s.arena| && j != f ==> r.arena[j] == s.arena[j]
    ensures r.arena[f] == s.arena[f].(elems := ExpandedElems(comps, s.arena[f]), dom := r.arena[f].dom)
    ensures s.arena[f].ftype.Tag? && s.arena[f].dom.None? ==>
              && r.arena[f].dom == Some(Made(s.made))
              && r.ops == s.ops + CreateDomOps(Made(s.made), s.arena[f].ftype.name, s.arena[f].attrs)
              && r.made == s.made + 1
    ensures s.arena[f].ftype.Component? || s.arena[f].dom.Some? ==>
              r.arena[f].dom == s.arena[f].dom && r.ops == s.ops && r.made == s.made
  {
    var fb := s.arena[f];
    match fb.ftype
    case Component(id) =>
      var fb' := fb.(elems := [comps(id, fb.attrs, fb.elems)]);
      ReplaceKeeps(s.arena, f, fb');
      s.(arena := s.arena[f := fb'])
    case Tag(name) =>
      if fb.dom.Some? then s
      else
        var n := Made(s.made);
        var fb' := fb.(dom := Some(n));
        ReplaceKeeps(s.arena, f, fb');
        s.(arena := s.arena[f := fb'], ops := s.ops + CreateDomOps(n, name, fb.attrs), made := s.made + 1)
  }

  /** Lines 157-172: the state once fiber `f` is expanded, has one fresh child
    * fiber per element child, and those children are linked. */
  function Prepare(comps: Components, s: State, f: nat): (r: State)
    requires Inv(s) && f < |s.arena|
    ensures WF(r.arena) && SiblingsParented(r.arena) && AlternatesOlder(r.arena)
    ensures |r.arena| == |s.arena| + |ExpandedElems(comps, s.arena[f])|
    ensures r.nextUnit == s.nextUnit && r.wipRoot == s.wipRoot && r.currentRoot == s.currentRoot
    ensures r.deletions == s.deletions
  {
    var e := Expand(comps, s, f);
    var a1 := Materialise(e.arena, f);
    LinkSiblingsParented(a1, f);
    e.(arena := Link(a1, f))
  }

  /** `r` is arena `a` after fiber `f` took the element children `es` as
    * fresh, not yet linked fibers |a|, |a| + 1, ..., in order; every other
    * fiber of `a` is unchanged. */
  predicate FreshChildren(a: seq<Fiber>, r: seq<Fiber>, f: nat, es: seq<Element>)
    requires f < |a|
  {
    var n := |a|;
    && |r| == n + |es|
    && r[f] == a[f].(elems := es, dom := r[f].dom, children := r[f].children)
    && |r[f].children| == |es|
    && (forall k :: 0 <= k < |es| ==> r[f].children[k] == n + k && r[n + k] == FromElement(es[k]))
    && (forall j :: 0 <= j < n && j != f ==> r[j] == a[j])
  }

  /** Expanding then giving `f` its fresh children, before linking. */
  lemma MaterialisedEffect(comps: Components, s: State, f: nat)
    requires Inv(s) && f < |s.arena|
    ensures FreshChildren(s.arena, Materialise(Expand(comps, s, f).arena, f), f, ExpandedElems(comps, s.arena[f]))
  {
  }

  /** `r` is arena `a` after fiber `f` took the element children `es`: `f`
    * has them as its children, as the fresh fibers |a|, |a| + 1, ..., in
    * order, each linked to `f` and to the next; every other fiber of `a` is
    * unchanged. */
  predicate GrewChildren(a: seq<Fiber>, r: seq<Fiber>, f: nat, es: seq<Element>)
    requires f < |a|
  {
    var n := |a|;
    && |r| == n + |es|
    && r[f] == a[f].(elems := es, dom := r[f].dom, children := r[f].children)
    && |r[f].children| == |es|
    && (forall k :: 0 <= k < |es| ==> r[f].children[k] == n + k)
    && (forall k :: 0 <= k < |es| ==>
          r[n + k] == FromElement(es[k]).(sibling := NextOf(r[f].children, k), parent := Some(f)))
    && (forall j :: 0 <= j < n && j != f ==> r[j] == a[j])
  }

  /** Linking sets the two links of each child of `f`. */
  lemma LinkedChild(a1: seq<Fiber>, f: nat, k: nat)
    requires WF(a1) && f < |a1| && k < |a1[f].children|
    ensures a1[f].children[k] < |a1|
    ensures Link(a1, f)[a1[f].children[k]] == a1[a1[f].children[k]].(sibling := NextOf(a1[f].children, k), parent := Some(f))
  {
    assert FiberWF(a1, f);
  }

  /** Linking leaves the older fibers other than `f` as they were. */
  lemma LinkFreshKeeps(a: seq<Fiber>, a1: seq<Fiber>, f: nat, es: seq<Element>, j: nat)
    requires f < |a| && WF(a1) && FreshChildren(a, a1, f, es) && j < |a| && j != f
    ensures Link(a1, f)[j] == a[j]
  {
    var cs := a1[f].children;
    assert a1[j] == a[j];
    assert j !in cs by {
      forall k | 0 <= k < |cs| ensures cs[k] != j { assert cs[k] == |a| + k; }
    }
    LinkKeeps(a1, f, j);
  }

  /** The two halves of `GrewChildren`: the fresh children as linked, and
    * the older fibers as they were. */
  lemma GrewFrom(a: seq<Fiber>, a1: seq<Fiber>, a2: seq<Fiber>, f: nat, es: seq<Element>)
    requires f < |a| && FreshChildren(a, a1, f, es) && |a2| == |a1| && a2[f] == a1[f]
    requires forall k :: 0 <= k < |es| ==>
      a2[|a| + k] == FromElement(es[k]).(sibling := NextOf(a1[f].children, k), parent := Some(f))
    requires forall j :: 0 <= j < |a| && j != f ==> a2[j] == a[j]
    ensures GrewChildren(a, a2, f, es)
  {
  }

  /** Linking fresh children links each to `f` and to the next. */
  lemma LinkFresh(a: seq<Fiber>, a1: seq<Fiber>, f: nat, es: seq<Element>)
    requires f < |a| && WF(a1) && FreshChildren(a, a1, f, es)
    ensures GrewChildren(a, Link(a1, f), f, es)
  {
    var a2 := Link(a1, f);
    forall k | 0 <= k < |es|
      ensures a2[|a| + k] == FromElement(es[k]).(sibling := NextOf(a1[f].children, k), parent := Some(f))
    {
      assert k < |a1[f].children| && a1[f].children[k] == |a| + k;
      assert a1[|a| + k] == FromElement(es[k]);
      LinkedChild(a1, f, k);
    }
    forall j | 0 <= j < |a| && j != f ensures a2[j] == a[j] {
      LinkFreshKeeps(a, a1, f, es, j);
    }
    GrewFrom(a, a1, a2, f, es);
  }

  /** What preparing does to the arena: `f` is expanded and its children are
    * the fresh fibers |s.arena|, |s.arena| + 1, ..., one per expanded element
    * child in order, each linked to `f` and to the next; every older fiber
    * but `f` is unchanged. */
  lemma PrepareEffect(comps: Components, s: State, f: nat)
    requires Inv(s) && f < |s.arena|
    ensures GrewChildren(s.arena, Prepare(comps, s, f).arena, f, ExpandedElems(comps, s.arena[f]))
  {
    var e := Expand(comps, s, f);
    var a1 := Materialise(e.arena, f);
    MaterialisedEffect(comps, s, f);
    LinkFresh(s.arena, a1, f, ExpandedElems(comps, s.arena[f]));
    assert Prepare(comps, s, f).arena == Link(a1, f);
  }

  /** `alternate?.props.children[0]`: the first child of `f`'s alternate. */
  function FirstOld(arena: seq<Fiber>, f: nat): (r: Option<nat>)
    requires WF(arena) && f < |arena|
    ensures InArena(arena, r)
  {
    assert FiberWF(arena, f);
    match arena[f].alternate
    case None => None
    case Some(o) =>
      assert FiberWF(arena, o);
      if arena[o].children == [] then None else Some(arena[o].children[0])
  }

  /** `children[0]`: the first child of `f`. */
  function FirstChild(arena: seq<Fiber>, f: nat): (r: Option<nat>)
    requires WF(arena) && f < |arena|
    ensures InArena(arena, r)
  {
    assert FiberWF(arena, f);
    if arena[f].children == [] then None else Some(arena[f].children[0])
  }

  /** The `while (true)` climb of lines 215-224, from `nextWork`: the sibling
    * of the first fiber up the parent line that has one, or nothing once a
    * parentless fiber is reached. */
  function Climb(arena: seq<Fiber>, p: nat): (r: Option<nat>)
    requires WF(arena) && p < |arena|
    ensures InArena(arena, r)
    ensures SiblingsParented(arena) && r.Some? ==> arena[r.value].parent.Some?
    decreases p
  {
    assert FiberWF(arena, p);
    if arena[p].sibling.Some? then arena[p].sibling
    else if arena[p].parent.None? then None
    else Climb(arena, arena[p].parent.value)
  }

  /** Every child of `f` has a parent. */
  predicate ChildrenParented(arena: seq<Fiber>, f: nat)
    requires f < |arena|
  {
    forall k :: 0 <= k < |arena[f].children| ==>
      arena[f].children[k] < |arena| && arena[arena[f].children[k]].parent.Some?
  }

  /** Lines 210-224: the unit after `f`. */
  function NextUnit(arena: seq<Fiber>, f: nat): (r: Option<nat>)
    requires WF(arena) && f < |arena|
    requires arena[f].children != [] || arena[f].sibling.Some? || arena[f].parent.Some?
    ensures InArena(arena, r)
    ensures SiblingsParented(arena) && ChildrenParented(arena, f) && r.Some? ==> arena[r.value].parent.Some?
  {
    assert FiberWF(arena, f);
    if arena[f].children != [] then Some(arena[f].children[0])
    else if arena[f].sibling.Some? then arena[f].sibling
    else Climb(arena, arena[f].parent.value)
  }

  /** The line of fibers from `p` up through `parent` links to a parentless one. */
  function Ancestors(arena: seq<Fiber>, p: nat): (r: seq<nat>)
    requires WF(arena) && p < |arena|
    ensures |r| >= 1 && r[0] == p
    ensures forall k :: 0 <= k < |r| ==> r[k] < |arena|
    ensures forall k :: 0 <= k < |r| - 1 ==> arena[r[k]].parent == Some(r[k + 1])
    ensures arena[r[|r| - 1]].parent.None?
    decreases p
  {
    assert FiberWF(arena, p);
    if arena[p].parent.None? then [p] else [p] + Ancestors(arena, arena[p].parent.value)
  }

  /** None of the fibers `xs` has a sibling. */
  predicate NoneHasSibling(arena: seq<Fiber>, xs: seq<nat>)
  {
    forall k :: 0 <= k < |xs| && xs[k] < |arena| ==> arena[xs[k]].sibling.None?
  }

  /** `r` is the sibling of the first of the fibers `xs` that has one. */
  predicate NearestSibling(arena: seq<Fiber>, xs: seq<nat>, r: Option<nat>)
  {
    exists k :: 0 <= k < |xs| && xs[k] < |arena| && r.Some? && arena[xs[k]].sibling == r && NoneHasSibling(arena, xs[..k])
  }

  lemma NoneHasSiblingCons(arena: seq<Fiber>, p: nat, up: seq<nat>)
    requires p < |arena|
    ensures NoneHasSibling(arena, [p] + up) <==> arena[p].sibling.None? && NoneHasSibling(arena, up)
  {
    var xs := [p] + up;
    assert xs[0] == p;
    assert forall k :: 0 <= k < |up| ==> xs[k + 1] == up[k];
  }

  lemma NearestSiblingHead(arena: seq<Fiber>, p: nat, up: seq<nat>)
    requires p < |arena| && arena[p].sibling.Some?
    ensures NearestSibling(arena, [p] + up, arena[p].sibling)
  {
    var xs := [p] + up;
    assert xs[0] == p && xs[..0] == [];
  }

  lemma NearestSiblingCons(arena: seq<Fiber>, p: nat, up: seq<nat>, r: Option<nat>)
    requires p < |arena| && arena[p].sibling.None? && NearestSibling(arena, up, r)
    ensures NearestSibling(arena, [p] + up, r)
  {
    var xs := [p] + up;
    var k :| 0 <= k < |up| && up[k] < |arena| && r.Some? && arena[up[k]].sibling == r && NoneHasSibling(arena, up[..k]);
    assert xs[k + 1] == up[k];
    assert xs[..k + 1] == [p] + up[..k];
    NoneHasSiblingCons(arena, p, up[..k]);
  }

  /** The climb returns the sibling of the nearest fiber on the ancestor line
    * that has one, and nothing exactly when none of them has one. */
  lemma {:induction false} ClimbNearest(arena: seq<Fiber>, p: nat)
    requires WF(arena) && p < |arena|
    ensures Climb(arena, p).None? <==> NoneHasSibling(arena, Ancestors(arena, p))
    ensures Climb(arena, p).Some? ==> NearestSibling(arena, Ancestors(arena, p), Climb(arena, p))
    decreases p
  {
    assert FiberWF(arena, p);
    var up := if arena[p].parent.None? then [] else Ancestors(arena, arena[p].parent.value);
    assert Ancestors(arena, p) == [p] + up;
    NoneHasSiblingCons(arena, p, up);
    if arena[p].sibling.Some? {
      NearestSiblingHead(arena, p, up);
    } else if arena[p].parent.Some? {
      var q := arena[p].parent.value;
      ClimbNearest(arena, q);
      if Climb(arena, q).Some? {
        NearestSiblingCons(arena, p, up, Climb(arena, q));
      }
    }
  }

  /** The choice of the next unit: the first child if there is one, else the
    * fiber's own sibling, else the sibling of the nearest ancestor that has
    * one, else nothing. */
  lemma NextUnitOrder(arena: seq<Fiber>, f: nat)
    requires WF(arena) && f < |arena|
    requires arena[f].children != [] || arena[f].sibling.Some? || arena[f].parent.Some?
    ensures arena[f].children != [] ==> NextUnit(arena, f) == Some(arena[f].children[0])
    ensures arena[f].children == [] && arena[f].sibling.Some? ==> NextUnit(arena, f) == arena[f].sibling
    ensures arena[f].children == [] && arena[f].sibling.None? ==>
      arena[f].parent.Some? && arena[f].parent.value < |arena| &&
      var anc, r := Ancestors(arena, arena[f].parent.value), NextUnit(arena, f);
      && (r.None? <==> NoneHasSibling(arena, anc))
      && (r.Some? ==> NearestSibling(arena, anc, r))
  {
    assert FiberWF(arena, f);
    if arena[f].children == [] && arena[f].sibling.None? {
      ClimbNearest(arena, arena[f].parent.value);
    }
  }

  /** The sibling chain from `cur` stays below `n` when every fiber below `n`
    * has its sibling below `n`. */
  lemma {:induction false} ChainBelow(arena: seq<Fiber>, cur: Option<nat>, n: nat)
    requires WF(arena) && InArena(arena, cur) && n <= |arena|
    requires cur.Some? ==> cur.value < n
    requires forall x :: 0 <= x < n && arena[x].sibling.Some? ==> arena[x].sibling.value < n
    ensures AllBelow(Chain(arena, cur), n)
    decreases if cur.Some? then |arena| - cur.value else 0
  {
    if cur.Some? {
      assert FiberWF(arena, cur.value);
      ChainBelow(arena, arena[cur.value].sibling, n);
    }
  }

  /** Preparing leaves the siblings of the older fibers as they were. */
  lemma PreparedSiblings(comps: Components, s: State, f: nat, x: nat)
    requires Inv(s) && f < |s.arena| && x < |s.arena|
    ensures Prepare(comps, s, f).arena[x].sibling == s.arena[x].sibling
  {
    PrepareEffect(comps, s, f);
  }

  /** The old chain the reconciliation of `f` walks lies among the fibers that
    * existed before `f` was prepared. */
  lemma PreparedOldChain(comps: Components, s: State, f: nat)
    requires Inv(s) && f < |s.arena|
    ensures var p := Prepare(comps, s, f);
      AllBelow(Chain(p.arena, FirstOld(p.arena, f)), |s.arena|)
  {
    var p := Prepare(comps, s, f);
    var n := |s.arena|;
    forall x | 0 <= x < n && p.arena[x].sibling.Some? ensures p.arena[x].sibling.value < n {
      PreparedSiblings(comps, s, f, x);
      assert FiberWF(s.arena, x);
    }
    var o := FirstOld(p.arena, f);
    if o.Some? {
      PrepareEffect(comps, s, f);
      assert FiberWF(s.arena, f);
      var alt := s.arena[f].alternate.value;
      assert alt < f;
      assert FiberWF(s.arena, alt);
      assert p.arena[alt] == s.arena[alt];
    }
    ChainBelow(p.arena, o, n);
  }

  /** The new chain the reconciliation of `f` walks is exactly `f`'s fresh
    * children, which are the fibers |s.arena|, |s.arena| + 1, ... */
  lemma PreparedNewChain(comps: Components, s: State, f: nat)
    requires Inv(s) && f < |s.arena|
    ensures var p := Prepare(comps, s, f);
      var news := p.arena[f].children;
      && Chain(p.arena, FirstChild(p.arena, f)) == news
      && |p.arena| == |s.arena| + |news|
      && (forall k :: 0 <= k < |news| ==> news[k] == |s.arena| + k)
  {
    var p := Prepare(comps, s, f);
    PrepareEffect(comps, s, f);
    var cs := p.arena[f].children;
    var es := ExpandedElems(comps, s.arena[f]);
    forall k | 0 <= k < |cs| ensures cs[k] < |p.arena| && p.arena[cs[k]].sibling == NextOf(cs, k) {
      assert cs[k] == |s.arena| + k;
      assert p.arena[|s.arena| + k] == FromElement(es[k]).(sibling := NextOf(cs, k), parent := Some(f));
    }
    ChainOfLinked(p.arena, f, cs);
  }

  /** The sibling chain from the first of a linked list of children is the list. */
  lemma {:induction false} ChainOfLinked(arena: seq<Fiber>, f: nat, cs: seq<nat>)
    requires WF(arena)
    requires forall k :: 0 <= k < |cs| ==> cs[k] < |arena| && arena[cs[k]].sibling == NextOf(cs, k)
    ensures Chain(arena, if cs == [] then None else Some(cs[0])) == cs
    decreases |cs|
  {
    if cs != [] {
      var rest := cs[1..];
      forall k | 0 <= k < |rest| ensures rest[k] < |arena| && arena[rest[k]].sibling == NextOf(rest, k) {
        assert rest[k] == cs[k + 1];
        assert NextOf(rest, k) == NextOf(cs, k + 1);
      }
      ChainOfLinked(arena, f, rest);
      assert arena[cs[0]].sibling == (if rest == [] then None else Some(rest[0]));
    }
  }

  /** Lines 174-208 on the prepared state: the arena and deletion list after
    * reconciling `f`'s fresh children against its alternate's children. */
  function Reconciled(comps: Components, s: State, f: nat): (r: (seq<Fiber>, seq<nat>))
    requires Inv(s) && f < |s.arena|
    ensures var p := Prepare(comps, s, f);
      && SameLinks(p.arena, r.0) && WF(r.0)
      && |r.1| >= |s.deletions| && r.1[..|s.deletions|] == s.deletions
      && (forall k :: |s.deletions| <= k < |r.1| ==> r.1[k] < |p.arena|)
  {
    var p := Prepare(comps, s, f);
    ReconcileLoop(p.arena, p.deletions, FirstOld(p.arena, f), FirstChild(p.arena, f))
  }

  lemma SameLinksSiblingsParented(a: seq<Fiber>, b: seq<Fiber>)
    requires SameLinks(a, b) && SiblingsParented(a)
    ensures SiblingsParented(b)
  {
  }

  /** The two chains the reconciliation of `f` walks: the old one among the
    * older fibers, the new one `f`'s fresh children; so they are disjoint. */
  lemma PreparedChains(comps: Components, s: State, f: nat)
    requires Inv(s) && f < |s.arena|
    ensures var p := Prepare(comps, s, f);
      var olds, news := Chain(p.arena, FirstOld(p.arena, f)), p.arena[f].children;
      && AllBelow(olds, |s.arena|)
      && Chain(p.arena, FirstChild(p.arena, f)) == news
      && |p.arena| == |s.arena| + |news|
      && (forall k :: 0 <= k < |news| ==> news[k] == |s.arena| + k)
      && Disjoint(olds, news)
  {
    var p := Prepare(comps, s, f);
    PreparedOldChain(comps, s, f);
    PreparedNewChain(comps, s, f);
    var olds, news := Chain(p.arena, FirstOld(p.arena, f)), p.arena[f].children;
    forall k, l | 0 <= k < |olds| && 0 <= l < |news| ensures olds[k] != news[l] {
      assert olds[k] < |s.arena| <= news[l];
    }
  }

  /** Reconciling `f`: the orphaned old children are appended to the
    * deletion list, every fresh child is tagged as `Tagged` says, and every
    * older fiber is left as preparing left it. */
  lemma ReconciledEffect(comps: Components, s: State, f: nat)
    requires Inv(s) && f < |s.arena|
    ensures var p := Prepare(comps, s, f);
      var olds, news := Chain(p.arena, FirstOld(p.arena, f)), p.arena[f].children;
      var r := Reconciled(comps, s, f);
      && TaggedAfter(p.arena, olds, news, |s.arena|, r.0)
      && r.1 == s.deletions + Deleted(p.arena, olds, news)
  {
    var p := Prepare(comps, s, f);
    PreparedChains(comps, s, f);
    var oldCur, newCur := FirstOld(p.arena, f), FirstChild(p.arena, f);
    var olds, news := Chain(p.arena, oldCur), Chain(p.arena, newCur);
    ReconcileDeletes(p.arena, p.deletions, oldCur, newCur);
    forall k | 0 <= k < |news|
      ensures ReconcileLoop(p.arena, p.deletions, oldCur, newCur).0[news[k]] == Tagged(p.arena, olds, news, k)
    {
      ReconcileTags(p.arena, p.deletions, oldCur, newCur, k);
    }
    forall j | 0 <= j < |s.arena| ensures ReconcileLoop(p.arena, p.deletions, oldCur, newCur).0[j] == p.arena[j] {
      assert j !in news by {
        forall k | 0 <= k < |news| ensures news[k] != j { assert news[k] == |s.arena| + k; }
      }
      ReconcileKeeps(p.arena, p.deletions, oldCur, newCur, j);
    }
  }

  /** Reconciling keeps every `alternate` older than its fiber: the fresh
    * children only ever point at old fibers. */
  lemma ReconciledAlternates(comps: Components, s: State, f: nat)
    requires Inv(s) && f < |s.arena|
    ensures AlternatesOlder(Reconciled(comps, s, f).0)
  {
    var p := Prepare(comps, s, f);
    ReconciledEffect(comps, s, f);
    TaggedAlternatesOlder(p.arena, Reconciled(comps, s, f).0, Chain(p.arena, FirstOld(p.arena, f)), p.arena[f].children, |s.arena|);
  }

  /** After reconciling, `f` still has a way to a next unit, and each of its
    * children has a parent. */
  lemma ReconciledCursor(comps: Components, s: State, f: nat)
    requires Inv(s) && f < |s.arena| && CanAdvance(s.arena[f])
    ensures var r := Reconciled(comps, s, f).0;
      && f < |r| && SiblingsParented(r)
      && (r[f].children != [] || r[f].sibling.Some? || r[f].parent.Some?)
      && ChildrenParented(r, f)
  {
    var p := Prepare(comps, s, f);
    var r := Reconciled(comps, s, f).0;
    PrepareEffect(comps, s, f);
    SameLinksSiblingsParented(p.arena, r);
    assert FiberWF(p.arena, f);
    assert r[f].children == p.arena[f].children && r[f].sibling == s.arena[f].sibling && r[f].parent == s.arena[f].parent;
    forall k | 0 <= k < |r[f].children| ensures r[f].children[k] < |r| && r[r[f].children[k]].parent.Some? {
      var c := p.arena[f].children[k];
      assert p.arena[c].parent == Some(f);
    }
  }

  /** The invariant of a state built from `s` with a grown, well-formed arena,
    * an extended deletion list and a parented cursor. */
  lemma InvAfter(s: State, a: seq<Fiber>, dels: seq<nat>, next: Option<nat>)
    requires Inv(s) && |a| >= |s.arena|
    requires WF(a) && SiblingsParented(a) && AlternatesOlder(a)
    requires |dels| >= |s.deletions| && dels[..|s.deletions|] == s.deletions
    requires forall k :: |s.deletions| <= k < |dels| ==> dels[k] < |a|
    requires InArena(a, next) && (next.Some? ==> a[next.value].parent.Some?)
    ensures forall p: State :: p.wipRoot == s.wipRoot && p.currentRoot == s.currentRoot ==>
              Inv(p.(arena := a, deletions := dels, nextUnit := next))
  {
    forall k | 0 <= k < |s.deletions| ensures dels[k] < |a| {
      assert dels[k] == dels[..|s.deletions|][k];
    }
  }

  /** `performUnitOfWork(f)`: the state after the unit and the next unit. */
  function Perform(comps: Components, s: State, f: nat): (r: (State, Option<nat>))
    requires Inv(s) && f < |s.arena| && CanAdvance(s.arena[f])
    ensures Inv(r.0.(nextUnit := r.1))
    ensures r.0.nextUnit == s.nextUnit && r.0.wipRoot == s.wipRoot && r.0.currentRoot == s.currentRoot
    ensures |r.0.arena| >= |s.arena|
  {
    var p := Prepare(comps, s, f);
    var rec := Reconciled(comps, s, f);
    ReconciledAlternates(comps, s, f);
    ReconciledCursor(comps, s, f);
    var next := NextUnit(rec.0, f);
    InvAfter(s, rec.0, rec.1, next);
    (p.(arena := rec.0, deletions := rec.1), next)
  }

  /** One unit of the work loop: perform the unit at the cursor and move the
    * cursor to the unit it returns. */
  function Step(comps: Components, s: State): (r: State)
    requires Inv(s) && s.nextUnit.Some?
    ensures Inv(r)
    ensures r.wipRoot == s.wipRoot && r.currentRoot == s.currentRoot
    ensures |r.arena| >= |s.arena|
  {
    var p := Perform(comps, s, s.nextUnit.value);
    p.0.(nextUnit := p.1)
  }

  /** What one unit of work does to fiber `f`'s children and to `deletions`:
    * every fresh child is tagged as `Tagged` says against the old chain,
    * nothing else changes, and the orphaned old children are appended to
    * `deletions`, their number being the surplus of old children plus the
    * number of type mismatches. */
  lemma PerformEffect(comps: Components, s: State, f: nat)
    requires Inv(s) && f < |s.arena| && CanAdvance(s.arena[f])
    ensures var p := Prepare(comps, s, f);
      var olds, news := Chain(p.arena, FirstOld(p.arena, f)), p.arena[f].children;
      var r := Perform(comps, s, f).0;
      && TaggedAfter(p.arena, olds, news, |s.arena|, r.arena)
      && r.deletions == s.deletions + Deleted(p.arena, olds, news)
      && |r.deletions| == |s.deletions| + (if |olds| > |news| then |olds| - |news| else 0) + Mismatches(p.arena, olds, news)
      && r.ops == p.ops && r.made == p.made
  {
    var p := Prepare(comps, s, f);
    ReconciledEffect(comps, s, f);
    var olds, news := Chain(p.arena, FirstOld(p.arena, f)), p.arena[f].children;
    DeletedCount(p.arena, olds, news);
  }
}
