/**
 * The recursive `render(element, container)` of the earlier variant
 * (src/index.jsx:39-52): create the node, assign its props, render every child
 * into it, then append it to the container.  The DOM calls are returned as a
 * trace; created nodes are numbered from `serial` on.
 */
module LegacyRender {
  import opened Elements
  import opened Host

  /** The trace of `render(e, container)`, and the next free serial. A function
    * component cannot be passed to `document.createElement`, which throws. */
  function Render(e: Element, container: Node, serial: nat): (r: (Trace, nat))
    ensures r.1 >= serial
    decreases e, 1
  {
    match e.etype
    case Component(_) => (Trace([], true), serial)
    case Tag(name) =>
      var n := Made(serial);
      var head := [if name == TEXT_ELEMENT then CreateText(n) else CreateElem(n, name)] + PassOps(SetAll, n, e.attrs);
      var (kids, next) := RenderAll(e.children, n, serial + 1);
      if kids.threw then (Trace(head + kids.ops, true), next)
      else (Trace(head + kids.ops + [AppendChild(container, n)], false), next)
  }

  /** `children.forEach((child) => render(child, dom))`. */
  function RenderAll(es: seq<Element>, container: Node, serial: nat): (r: (Trace, nat))
    ensures r.1 >= serial
    decreases es, 0
  {
    if es == [] then (Trace([], false), serial)
    else
      var (t, mid) := RenderAll(es[..|es| - 1], container, serial);
      if t.threw then (t, mid)
      else
        var (u, next) := Render(es[|es| - 1], container, mid);
        (Then(t, u), next)
  }

  /** The nodes created by a trace, in order. */
  function Created(ops: seq<HostOp>): seq<Node>
  {
    if ops == [] then []
    else
      var op := ops[|ops| - 1];
      Created(ops[..|ops| - 1]) + (if op.CreateText? || op.CreateElem? then [op.node] else [])
  }

  /** The nodes appended by a trace, in order. */
  function Appended(ops: seq<HostOp>): seq<Node>
  {
    if ops == [] then []
    else
      var op := ops[|ops| - 1];
      Appended(ops[..|ops| - 1]) + (if op.AppendChild? then [op.child] else [])
  }

  lemma {:induction false} CreatedConcat(a: seq<HostOp>, b: seq<HostOp>)
    ensures Created(a + b) == Created(a) + Created(b)
  {
    if b != [] {
      assert (a + b)[..|a + b| - 1] == a + b[..|b| - 1];
      CreatedConcat(a, b[..|b| - 1]);
    } else {
      assert a + b == a;
    }
  }

  lemma {:induction false} AppendedConcat(a: seq<HostOp>, b: seq<HostOp>)
    ensures Appended(a + b) == Appended(a) + Appended(b)
  {
    if b != [] {
      assert (a + b)[..|a + b| - 1] == a + b[..|b| - 1];
      AppendedConcat(a, b[..|b| - 1]);
    } else {
      assert a + b == a;
    }
  }

  /** The (parent, child) pairs of the appends of a trace, in order. */
  function Links(ops: seq<HostOp>): seq<(Node, Node)>
  {
    if ops == [] then []
    else
      var op := ops[|ops| - 1];
      Links(ops[..|ops| - 1]) + (if op.AppendChild? then [(op.parent, op.child)] else [])
  }

  lemma {:induction false} LinksConcat(a: seq<HostOp>, b: seq<HostOp>)
    ensures Links(a + b) == Links(a) + Links(b)
  {
    if b != [] {
      assert (a + b)[..|a + b| - 1] == a + b[..|b| - 1];
      LinksConcat(a, b[..|b| - 1]);
    } else {
      assert a + b == a;
    }
  }

  /** Every pair of `Links` is an append the trace issues. */
  lemma {:induction false} LinksIn(ops: seq<HostOp>, p: Node, c: Node)
    requires (p, c) in Links(ops)
    ensures AppendChild(p, c) in ops
  {
    var op := ops[|ops| - 1];
    if (p, c) in Links(ops[..|ops| - 1]) {
      LinksIn(ops[..|ops| - 1], p, c);
    } else {
      assert op == AppendChild(p, c);
    }
  }

  /** Created nodes and property assignments append nothing; a pass of
    * assignments creates nothing. */
  lemma {:induction false} PassOpsInert(n: Node, attrs: Attrs)
    ensures Created(PassOps(SetAll, n, attrs)) == [] && Appended(PassOps(SetAll, n, attrs)) == []
    ensures Links(PassOps(SetAll, n, attrs)) == []
  {
    if attrs != [] {
      var init := attrs[..|attrs| - 1];
      var last := attrs[|attrs| - 1];
      PassOpsInert(n, init);
      var tail := if Selects(SetAll, last.0) then [OpOf(SetAll, n, last.0, last.1)] else [];
      CreatedConcat(PassOps(SetAll, n, init), tail);
      AppendedConcat(PassOps(SetAll, n, init), tail);
      LinksConcat(PassOps(SetAll, n, init), tail);
      if tail != [] {
        assert Created(tail) == Created([]) + [] by { assert tail[..0] == []; }
        assert Appended(tail) == Appended([]) + [] by { assert tail[..0] == []; }
        assert Links(tail) == Links([]) + [] by { assert tail[..0] == []; }
      }
    }
  }

  /** Made(lo), ..., Made(hi - 1). */
  function Serials(lo: nat, hi: nat): (r: seq<Node>)
    requires lo <= hi
    ensures |r| == hi - lo
  {
    seq(hi - lo, i requires 0 <= i < hi - lo => Made(lo + i))
  }

  /** Every append into a node other than `container` is followed, later in the
    * trace, by the append of that node itself: children before parents. */
  predicate PostOrder(ops: seq<HostOp>, container: Node)
  {
    forall i :: 0 <= i < |ops| && ops[i].AppendChild? && ops[i].parent != container ==>
      exists j :: i < j < |ops| && ops[j].AppendChild? && ops[j].child == ops[i].parent
  }

  /** What a completed render of a list of children into `container` did: it
    * created Made(lo) .. Made(hi - 1) in this order, appended each of them
    * exactly once and nothing else, children before parents. */
  predicate RenderedAll(ops: seq<HostOp>, container: Node, lo: nat, hi: nat)
  {
    && lo <= hi
    && Created(ops) == Serials(lo, hi)
    && multiset(Appended(ops)) == multiset(Serials(lo, hi))
    && PostOrder(ops, container)
  }

  /** Every assignment in the trace is on one of Made(lo) .. Made(hi - 1). */
  predicate SetsIn(ops: seq<HostOp>, lo: nat, hi: nat)
  {
    forall o :: o in ops && o.SetProp? ==> o.node.Made? && lo <= o.node.serial < hi
  }

  /** Whether no element of the tree is a function component. */
  predicate HostOnly(e: Element)
    decreases e, 1
  {
    e.etype.Tag? && HostOnlyAll(e.children)
  }

  predicate HostOnlyAll(es: seq<Element>)
    decreases es, 0
  {
    forall i :: 0 <= i < |es| ==> HostOnly(es[i])
  }

  /** The number of elements in the tree of `e`. */
  function Size(e: Element): nat
    decreases e, 1
  {
    1 + SizeAll(e.children)
  }

  function SizeAll(es: seq<Element>): nat
    decreases es, 0
  {
    if es == [] then 0 else SizeAll(es[..|es| - 1]) + Size(es[|es| - 1])
  }

  /** The tree of `e` as (parent node, child node) pairs, its elements numbered
    * in pre-order from `serial`: the pairs of the children's trees, each child
    * numbered after the trees of the children before it and hung below the
    * node of `e`, then the node of `e` below `container`. */
  function Edges(e: Element, container: Node, serial: nat): (r: seq<(Node, Node)>)
    ensures |r| >= 1 && r[|r| - 1] == (container, Made(serial))
    decreases e, 1
  {
    EdgesAll(e.children, Made(serial), serial + 1) + [(container, Made(serial))]
  }

  /** The pairs of the trees of `es`, numbered from `serial` one tree after the
    * other, each top node below `container`. */
  function EdgesAll(es: seq<Element>, container: Node, serial: nat): seq<(Node, Node)>
    decreases es, 0
  {
    if es == [] then []
    else EdgesAll(es[..|es| - 1], container, serial) + Edges(es[|es| - 1], container, serial + SizeAll(es[..|es| - 1]))
  }

  /** In the pairs of a list of trees, the top node of tree k, numbered after
    * the trees before it, hangs below `container`. */
  lemma {:induction false} EdgesAllTops(es: seq<Element>, container: Node, serial: nat, k: nat)
    requires k < |es|
    ensures (container, Made(serial + SizeAll(es[..k]))) in EdgesAll(es, container, serial)
    decreases |es|
  {
    var init := es[..|es| - 1];
    if k == |es| - 1 {
      assert es[..k] == init;
    } else {
      assert init[..k] == es[..k];
      EdgesAllTops(init, container, serial, k);
    }
  }

  /** In the tree of `e`, the node of child k, numbered after `e` and the
    * trees of the children before it, hangs below the node of `e`. */
  lemma ChildEdges(e: Element, container: Node, serial: nat, k: nat)
    requires k < |e.children|
    ensures (Made(serial), Made(serial + 1 + SizeAll(e.children[..k]))) in Edges(e, container, serial)
  {
    EdgesAllTops(e.children, Made(serial), serial + 1, k);
  }

  /** `render` throws exactly when the tree holds a function component. */
  lemma {:induction false} RenderThrows(e: Element, container: Node, serial: nat)
    ensures Render(e, container, serial).0.threw <==> !HostOnly(e)
    decreases e, 1
  {
    if e.etype.Tag? {
      RenderAllThrows(e.children, Made(serial), serial + 1);
    }
  }

  /** Rendering a list of children throws exactly when some child's tree holds
    * a function component. */
  lemma {:induction false} RenderAllThrows(es: seq<Element>, container: Node, serial: nat)
    ensures RenderAll(es, container, serial).0.threw <==> !HostOnlyAll(es)
    decreases es, 0
  {
    if es != [] {
      var init, last := es[..|es| - 1], es[|es| - 1];
      RenderAllThrows(init, container, serial);
      assert HostOnlyAll(es) <==> HostOnlyAll(init) && HostOnly(last) by {
        assert forall i :: 0 <= i < |init| ==> init[i] == es[i];
      }
      var (t, mid) := RenderAll(init, container, serial);
      if !t.threw {
        RenderThrows(last, container, mid);
      }
    }
  }

  lemma PostOrderConcat(a: seq<HostOp>, b: seq<HostOp>, c: Node)
    requires PostOrder(a, c) && PostOrder(b, c)
    ensures PostOrder(a + b, c)
  {
    var ab := a + b;
    forall i | 0 <= i < |ab| && ab[i].AppendChild? && ab[i].parent != c
      ensures exists j :: i < j < |ab| && ab[j].AppendChild? && ab[j].child == ab[i].parent
    {
      if i < |a| {
        assert ab[i] == a[i];
        var j :| i < j < |a| && a[j].AppendChild? && a[j].child == a[i].parent;
        assert ab[j] == a[j];
      } else {
        assert ab[i] == b[i - |a|];
        var j :| i - |a| < j < |b| && b[j].AppendChild? && b[j].child == b[i - |a|].parent;
        assert ab[j + |a|] == b[j];
      }
    }
  }

  /** The node's own calls: its creation, then its assignments. */
  function Head(e: Element, n: Node): seq<HostOp>
    requires e.etype.Tag?
  {
    [if e.etype.name == TEXT_ELEMENT then CreateText(n) else CreateElem(n, e.etype.name)] + PassOps(SetAll, n, e.attrs)
  }

  lemma HeadFacts(e: Element, n: Node)
    requires e.etype.Tag?
    ensures Created(Head(e, n)) == [n] && Appended(Head(e, n)) == [] && Links(Head(e, n)) == []
    ensures forall o :: o in Head(e, n) ==> !o.AppendChild? && (o.SetProp? ==> o.node == n)
  {
    var create := if e.etype.name == TEXT_ELEMENT then CreateText(n) else CreateElem(n, e.etype.name);
    var sets := PassOps(SetAll, n, e.attrs);
    PassOpsInert(n, e.attrs);
    PassOpsShape(SetAll, n, e.attrs);
    CreatedConcat([create], sets);
    AppendedConcat([create], sets);
    LinksConcat([create], sets);
    assert Created([create]) == Created([]) + [n] by { assert [create][..0] == []; }
    assert Appended([create]) == Appended([]) + [] by { assert [create][..0] == []; }
    assert Links([create]) == Links([]) + [] by { assert [create][..0] == []; }
  }

  /** An element's trace, its own calls, then its children's, then its own
    * append, creates and appends each of its nodes once. */
  lemma ElementCounts(head: seq<HostOp>, kids: seq<HostOp>, container: Node, lo: nat, hi: nat)
    requires Created(head) == [Made(lo)] && Appended(head) == []
    requires lo + 1 <= hi && Created(kids) == Serials(lo + 1, hi) && multiset(Appended(kids)) == multiset(Serials(lo + 1, hi))
    ensures var ops := head + kids + [AppendChild(container, Made(lo))];
      Created(ops) == Serials(lo, hi) && multiset(Appended(ops)) == multiset(Serials(lo, hi))
  {
    var app := [AppendChild(container, Made(lo))];
    var hk := head + kids;
    CreatedConcat(head, kids);
    AppendedConcat(head, kids);
    CreatedConcat(hk, app);
    AppendedConcat(hk, app);
    SingleAppend(container, Made(lo));
    SerialsSplit(lo, lo + 1, hi);
    assert Serials(lo, lo + 1) == [Made(lo)];
    assert Created(hk + app) == [Made(lo)] + Serials(lo + 1, hi);
    assert Appended(hk + app) == Appended(kids) + [Made(lo)];
    ConsPermutation(Appended(hk + app), Appended(kids), Made(lo), Serials(lo + 1, hi), Serials(lo, hi));
  }

  lemma ConsPermutation(a: seq<Node>, k: seq<Node>, n: Node, s1: seq<Node>, s: seq<Node>)
    requires a == k + [n] && s == [n] + s1 && multiset(k) == multiset(s1)
    ensures multiset(a) == multiset(s)
  {
  }

  lemma SingleAppend(container: Node, n: Node)
    ensures Created([AppendChild(container, n)]) == [] && Appended([AppendChild(container, n)]) == [n]
  {
    assert [AppendChild(container, n)][..0] == [];
  }

  lemma SerialsSplit(lo: nat, mid: nat, hi: nat)
    requires lo <= mid <= hi
    ensures Serials(lo, hi) == Serials(lo, mid) + Serials(mid, hi)
  {
  }

  /** ... assigns only to its own nodes ... */
  lemma ElementSetsIn(head: seq<HostOp>, kids: seq<HostOp>, container: Node, lo: nat, hi: nat)
    requires lo < hi
    requires forall o :: o in head && o.SetProp? ==> o.node == Made(lo)
    requires SetsIn(kids, lo + 1, hi)
    ensures SetsIn(head + kids + [AppendChild(container, Made(lo))], lo, hi)
  {
  }

  /** ... and appends children before parents. */
  lemma ElementPostOrder(head: seq<HostOp>, kids: seq<HostOp>, container: Node, n: Node)
    requires forall o :: o in head ==> !o.AppendChild?
    requires PostOrder(kids, n)
    ensures PostOrder(head + kids + [AppendChild(container, n)], container)
  {
    var ops := head + kids + [AppendChild(container, n)];
    forall i | 0 <= i < |ops| && ops[i].AppendChild? && ops[i].parent != container
      ensures exists j :: i < j < |ops| && ops[j].AppendChild? && ops[j].child == ops[i].parent
    {
      assert i != |ops| - 1;
      assert i >= |head|;
      {
        var k := i - |head|;
        assert ops[i] == kids[k];
        if ops[i].parent == n {
          assert ops[|ops| - 1].child == n;
        } else {
          var j :| k < j < |kids| && kids[j].AppendChild? && kids[j].child == kids[k].parent;
          assert ops[j + |head|] == kids[j];
        }
      }
    }
  }

  /** What a completed `render` of one element does, as for a list, plus: the
    * element's node is created first and appended to the container last. */
  lemma {:induction false} RenderNodes(e: Element, container: Node, serial: nat)
    ensures var (t, next) := Render(e, container, serial);
      !t.threw ==>
        && RenderedAll(t.ops, container, serial, next) && SetsIn(t.ops, serial, next)
        && t.ops[0] == (if e.etype.name == TEXT_ELEMENT then CreateText(Made(serial)) else CreateElem(Made(serial), e.etype.name))
        && t.ops[|t.ops| - 1] == AppendChild(container, Made(serial))
    decreases e, 1
  {
    var (t, next) := Render(e, container, serial);
    if e.etype.Tag? && !t.threw {
      var n := Made(serial);
      var (kids, mid) := RenderAll(e.children, n, serial + 1);
      RenderAllNodes(e.children, n, serial + 1);
      HeadFacts(e, n);
      assert t.ops == Head(e, n) + kids.ops + [AppendChild(container, n)];
      ElementCounts(Head(e, n), kids.ops, container, serial, next);
      ElementPostOrder(Head(e, n), kids.ops, container, n);
      ElementSetsIn(Head(e, n), kids.ops, container, serial, next);
      assert t.ops[0] == Head(e, n)[0];
    }
  }

  /** The appends of an element's trace: its children's, then its own. */
  lemma ElementLinks(head: seq<HostOp>, kids: seq<HostOp>, container: Node, n: Node)
    requires Links(head) == []
    ensures Links(head + kids + [AppendChild(container, n)]) == Links(kids) + [(container, n)]
  {
    LinksConcat(head, kids);
    LinksConcat(head + kids, [AppendChild(container, n)]);
    assert Links([AppendChild(container, n)]) == Links([]) + [(container, n)] by {
      assert [AppendChild(container, n)][..0] == [];
    }
  }

  /** What a completed `children.forEach(render)` does: it creates
    * Made(lo) .. Made(hi - 1) in this order, appends each exactly once and
    * nothing else, children before parents, and assigns only to them. */
  lemma {:induction false} RenderAllNodes(es: seq<Element>, container: Node, serial: nat)
    ensures var (t, next) := RenderAll(es, container, serial);
      !t.threw ==> RenderedAll(t.ops, container, serial, next) && SetsIn(t.ops, serial, next)
    decreases es, 0
  {
    if es == [] {
      assert Serials(serial, serial) == [];
    } else {
      var init, last := es[..|es| - 1], es[|es| - 1];
      var (t, mid) := RenderAll(init, container, serial);
      RenderAllNodes(init, container, serial);
      if !t.threw {
        var (u, next) := Render(last, container, mid);
        RenderNodes(last, container, mid);
        if !u.threw {
          CreatedConcat(t.ops, u.ops);
          AppendedConcat(t.ops, u.ops);
          SerialsSplit(serial, mid, next);
          PostOrderConcat(t.ops, u.ops, container);
        }
      }
    }
  }

  /** The tree a completed `render` builds: one node per element of the tree
    * of `e`, numbered in pre-order, and its appends are exactly the pairs of
    * `Edges`, in order. */
  lemma {:induction false} RenderShape(e: Element, container: Node, serial: nat)
    ensures var (t, next) := Render(e, container, serial);
      !t.threw ==> next == serial + Size(e) && Links(t.ops) == Edges(e, container, serial)
    decreases e, 1
  {
    var (t, next) := Render(e, container, serial);
    if e.etype.Tag? && !t.threw {
      var n := Made(serial);
      var (kids, mid) := RenderAll(e.children, n, serial + 1);
      RenderAllShape(e.children, n, serial + 1);
      HeadFacts(e, n);
      assert t.ops == Head(e, n) + kids.ops + [AppendChild(container, n)];
      ElementLinks(Head(e, n), kids.ops, container, n);
    }
  }

  /** The trees a completed `children.forEach(render)` builds: one node per
    * element, and its appends are exactly the pairs of `EdgesAll`, in order. */
  lemma {:induction false} RenderAllShape(es: seq<Element>, container: Node, serial: nat)
    ensures var (t, next) := RenderAll(es, container, serial);
      !t.threw ==> next == serial + SizeAll(es) && Links(t.ops) == EdgesAll(es, container, serial)
    decreases es, 0
  {
    if es != [] {
      var init, last := es[..|es| - 1], es[|es| - 1];
      var (t, mid) := RenderAll(init, container, serial);
      RenderAllShape(init, container, serial);
      if !t.threw {
        var (u, next) := Render(last, container, mid);
        RenderShape(last, container, mid);
        if !u.threw {
          assert RenderAll(es, container, serial).0.ops == t.ops + u.ops;
          LinksConcat(t.ops, u.ops);
        }
      }
    }
  }

  /** `render` appends the node of child k of `e`, numbered after `e` and the
    * trees of the children before it, into the node of `e`. */
  lemma RenderNestsAt(e: Element, container: Node, serial: nat, k: nat)
    requires k < |e.children|
    ensures var t := Render(e, container, serial).0;
      !t.threw ==> AppendChild(Made(serial), Made(serial + 1 + SizeAll(e.children[..k]))) in t.ops
  {
    var t := Render(e, container, serial).0;
    if !t.threw {
      RenderShape(e, container, serial);
      ChildEdges(e, container, serial, k);
      LinksIn(t.ops, Made(serial), Made(serial + 1 + SizeAll(e.children[..k])));
    }
  }

  /** `render` nests the nodes as the elements are nested: the node of every
    * child element is appended into the node of its parent element, and the
    * node of `e` into `container`. */
  lemma RenderNests(e: Element, container: Node, serial: nat)
    ensures var t := Render(e, container, serial).0;
      !t.threw ==>
        && AppendChild(container, Made(serial)) in t.ops
        && forall k :: 0 <= k < |e.children| ==>
             AppendChild(Made(serial), Made(serial + 1 + SizeAll(e.children[..k]))) in t.ops
  {
    var t := Render(e, container, serial).0;
    if !t.threw {
      RenderShape(e, container, serial);
      assert (container, Made(serial)) in Edges(e, container, serial);
      LinksIn(t.ops, container, Made(serial));
    }
    forall k | 0 <= k < |e.children|
      ensures !t.threw ==> AppendChild(Made(serial), Made(serial + 1 + SizeAll(e.children[..k]))) in t.ops
    {
      RenderNestsAt(e, container, serial, k);
    }
  }

  /** `children.forEach(render)` appends the top node of child k's tree,
    * numbered after the trees before it, into `container`. */
  lemma RenderAllNestsAt(es: seq<Element>, container: Node, serial: nat, k: nat)
    requires k < |es|
    ensures var t := RenderAll(es, container, serial).0;
      !t.threw ==> AppendChild(container, Made(serial + SizeAll(es[..k]))) in t.ops
  {
    var t := RenderAll(es, container, serial).0;
    if !t.threw {
      RenderAllShape(es, container, serial);
      EdgesAllTops(es, container, serial, k);
      LinksIn(t.ops, container, Made(serial + SizeAll(es[..k])));
    }
  }

  /** `children.forEach(render)` appends the top node of every child's tree
    * into `container`, the k-th numbered after the trees before it. */
  lemma RenderAllNests(es: seq<Element>, container: Node, serial: nat)
    ensures var t := RenderAll(es, container, serial).0;
      !t.threw ==> forall k :: 0 <= k < |es| ==> AppendChild(container, Made(serial + SizeAll(es[..k]))) in t.ops
  {
    forall k | 0 <= k < |es|
      ensures !RenderAll(es, container, serial).0.threw ==>
                AppendChild(container, Made(serial + SizeAll(es[..k]))) in RenderAll(es, container, serial).0.ops
    {
      RenderAllNestsAt(es, container, serial, k);
    }
  }

  /** `render` assigns to the element's node every prop but `children`, and
    * nothing else. */
  lemma RenderAssignsProps(e: Element, container: Node, serial: nat)
    ensures var (t, next) := Render(e, container, serial);
      !t.threw ==>
        && (forall k, v :: (k, v) in e.attrs && IsProps(k) ==> SetProp(Made(serial), k, v) in t.ops)
        && (forall op :: op in t.ops && op.SetProp? && op.node == Made(serial) ==> (op.key, op.value) in e.attrs && IsProps(op.key))
  {
    var (t, next) := Render(e, container, serial);
    if e.etype.Tag? && !t.threw {
      var n := Made(serial);
      var (kids, mid) := RenderAll(e.children, n, serial + 1);
      RenderAllNodes(e.children, n, serial + 1);
      var sets := PassOps(SetAll, n, e.attrs);
      assert t.ops == [Head(e, n)[0]] + sets + kids.ops + [AppendChild(container, n)];
      PassOpsExact(SetAll, n, e.attrs);
      forall k, v | (k, v) in e.attrs && IsProps(k) ensures SetProp(n, k, v) in t.ops {
        var i :| 0 <= i < |e.attrs| && e.attrs[i] == (k, v);
        assert OpOf(SetAll, n, e.attrs[i].0, e.attrs[i].1) in sets;
      }
      forall op | op in t.ops && op.SetProp? && op.node == n ensures (op.key, op.value) in e.attrs && IsProps(op.key) {
        assert op !in kids.ops;
        assert op in sets;
      }
    }
  }
}
