/**
 * The host (DOM) side as seen by the renderer: every DOM call becomes one
 * entry of an operation trace.  Also the prop-key predicates `isProps`,
 * `isEvent`, `isNotEvent`, and the operation lists that `createDOM` and
 * `updateDom` issue for a props object (src/index.tsx:34-55, 88-134).
 */
module Host {
  import opened Elements

  /** A DOM node handle: the container handed to `render`, or a node the
    * renderer created (numbered in creation order). */
  datatype Node = Container(id: nat) | Made(serial: nat)

  /** One call into the DOM. `ClearProp` is the assignment `dom[key] = ""`. */
  datatype HostOp =
    | CreateText(node: Node)
    | CreateElem(node: Node, tag: string)
    | SetProp(node: Node, key: string, value: Value)
    | ClearProp(node: Node, key: string)
    | AddListener(node: Node, event: string, handler: Value)
    | RemoveListener(node: Node, event: string, handler: Value)
    | AppendChild(parent: Node, child: Node)
    | RemoveChild(parent: Node, child: Node)

  /** The operations a computation issued, and whether it then threw
    * (a JavaScript TypeError: a property read or a DOM call on `undefined`). */
  datatype Trace = Trace(ops: seq<HostOp>, threw: bool)

  /** Run `u` after `t`, unless `t` threw. */
  function Then(t: Trace, u: Trace): (r: Trace)
    ensures r.threw <==> t.threw || u.threw
    ensures t.threw ==> r == t
    ensures !t.threw ==> r.ops == t.ops + u.ops
  {
    if t.threw then t else Trace(t.ops + u.ops, u.threw)
  }

  /** `isProps`: every key but `children`. */
  predicate IsProps(key: string)
  {
    key != CHILDREN
  }

  /** `isEvent`: the key starts with "on". */
  predicate IsEvent(key: string)
  {
    |key| >= 2 && key[..2] == "on"
  }

  /** `isNotEvent`. */
  predicate IsNotEvent(key: string)
  {
    !IsEvent(key)
  }

  /** `children` is never an event key. */
  lemma ChildrenIsNotEvent()
    ensures IsNotEvent(CHILDREN)
  {
    assert CHILDREN[..2] == "ch";
  }

  function LowerChar(c: char): char
  {
    if 'A' <= c <= 'Z' then (c as int - 'A' as int + 'a' as int) as char else c
  }

  /** `toLowerCase()` on ASCII letters. */
  function Lower(s: string): (r: string)
    ensures |r| == |s|
    ensures forall i :: 0 <= i < |s| ==> !('A' <= r[i] <= 'Z')
    ensures forall i :: 0 <= i < |s| && 'A' <= s[i] <= 'Z' ==> 'a' <= r[i] <= 'z' && r[i] as int - 'a' as int == s[i] as int - 'A' as int
    ensures forall i :: 0 <= i < |s| && !('A' <= s[i] <= 'Z') ==> r[i] == s[i]
  {
    seq(|s|, i requires 0 <= i < |s| => LowerChar(s[i]))
  }

  /** The DOM event name of an event key: `key.substring(2).toLowerCase()`.
    * Each character after the `on` prefix is kept, except that an upper-case
    * letter becomes the same letter in lower case. */
  function EventName(key: string): (r: string)
    requires IsEvent(key)
    ensures |r| == |key| - 2
    ensures forall i :: 0 <= i < |r| ==> !('A' <= r[i] <= 'Z')
    ensures forall i :: 0 <= i < |r| && 'A' <= key[i + 2] <= 'Z' ==>
              'a' <= r[i] <= 'z' && r[i] as int - 'a' as int == key[i + 2] as int - 'A' as int
    ensures forall i :: 0 <= i < |r| && !('A' <= key[i + 2] <= 'Z') ==> r[i] == key[i + 2]
  {
    Lower(key[2..])
  }

  /** The five `forEach` passes over a props object that issue DOM calls:
    * the four of `updateDom` and the property assignments of `createDOM`. */
  datatype Pass = ClearOld | SetNew | SetAll | UnbindOld | BindNew

  /** The `filter` chain in front of each pass. */
  predicate Selects(p: Pass, key: string)
  {
    match p
    case ClearOld => IsProps(key) && IsNotEvent(key)
    case SetNew => IsProps(key) && IsNotEvent(key)
    case SetAll => IsProps(key)
    case UnbindOld => IsEvent(key)
    case BindNew => IsEvent(key)
  }

  /** The body of each pass for one entry. */
  function OpOf(p: Pass, n: Node, key: string, v: Value): HostOp
    requires Selects(p, key)
  {
    match p
    case ClearOld => ClearProp(n, key)
    case SetNew => SetProp(n, key, v)
    case SetAll => SetProp(n, key, v)
    case UnbindOld => RemoveListener(n, EventName(key), v)
    case BindNew => AddListener(n, EventName(key), v)
  }

  /** The calls one pass issues over `attrs`, in key order. */
  function PassOps(p: Pass, n: Node, attrs: Attrs): (r: seq<HostOp>)
    ensures |r| <= |attrs|
    decreases |attrs|
  {
    if attrs == [] then []
    else
      var last := attrs[|attrs| - 1];
      PassOps(p, n, attrs[..|attrs| - 1]) + (if Selects(p, last.0) then [OpOf(p, n, last.0, last.1)] else [])
  }

  /** Every call a pass issues comes from a selected entry, and every selected
    * entry issues its call. */
  lemma {:induction false} PassOpsExact(p: Pass, n: Node, attrs: Attrs)
    ensures forall op :: op in PassOps(p, n, attrs) <==>
              exists i :: 0 <= i < |attrs| && Selects(p, attrs[i].0) && op == OpOf(p, n, attrs[i].0, attrs[i].1)
  {
    if attrs != [] {
      var init := attrs[..|attrs| - 1];
      PassOpsExact(p, n, init);
      forall op ensures op in PassOps(p, n, attrs) <==>
          exists i :: 0 <= i < |attrs| && Selects(p, attrs[i].0) && op == OpOf(p, n, attrs[i].0, attrs[i].1)
      {
        if exists i :: 0 <= i < |attrs| && Selects(p, attrs[i].0) && op == OpOf(p, n, attrs[i].0, attrs[i].1) {
          var i :| 0 <= i < |attrs| && Selects(p, attrs[i].0) && op == OpOf(p, n, attrs[i].0, attrs[i].1);
          if i < |init| {
            assert init[i] == attrs[i];
          }
        }
        if op in PassOps(p, n, init) {
          var i :| 0 <= i < |init| && Selects(p, init[i].0) && op == OpOf(p, n, init[i].0, init[i].1);
          assert attrs[i] == init[i];
        }
      }
    }
  }

  /** A pass issues nothing exactly when no key passes its filter. */
  lemma PassOpsEmpty(p: Pass, n: Node, attrs: Attrs)
    ensures PassOps(p, n, attrs) == [] <==> forall i :: 0 <= i < |attrs| ==> !Selects(p, attrs[i].0)
  {
    PassOpsExact(p, n, attrs);
    if exists i :: 0 <= i < |attrs| && Selects(p, attrs[i].0) {
      var i :| 0 <= i < |attrs| && Selects(p, attrs[i].0);
      assert OpOf(p, n, attrs[i].0, attrs[i].1) in PassOps(p, n, attrs);
    }
    if PassOps(p, n, attrs) != [] {
      assert PassOps(p, n, attrs)[0] in PassOps(p, n, attrs);
    }
  }

  /** The rank of an operation in `updateDom`'s four-phase order. */
  function Phase(op: HostOp): nat
  {
    match op
    case ClearProp(_, _) => 0
    case SetProp(_, _, _) => 1
    case RemoveListener(_, _, _) => 2
    case AddListener(_, _, _) => 3
    case _ => 4
  }

  function PassPhase(p: Pass): nat
  {
    match p
    case ClearOld => 0
    case SetNew => 1
    case SetAll => 1
    case UnbindOld => 2
    case BindNew => 3
  }

  /** Whether `op` is a call on node `n` itself (not an append or removal). */
  predicate OnNode(op: HostOp, n: Node)
  {
    !op.AppendChild? && !op.RemoveChild? && op.node == n
  }

  /** Operations in nondecreasing phase order. */
  predicate PhaseSorted(ops: seq<HostOp>)
  {
    forall i, j :: 0 <= i < j < |ops| ==> Phase(ops[i]) <= Phase(ops[j])
  }

  lemma SortedConcat(a: seq<HostOp>, b: seq<HostOp>)
    requires PhaseSorted(a) && PhaseSorted(b)
    requires forall x, y :: x in a && y in b ==> Phase(x) <= Phase(y)
    ensures PhaseSorted(a + b)
  {
    forall i, j | 0 <= i < j < |a + b| ensures Phase((a + b)[i]) <= Phase((a + b)[j]) {
      if i < |a| && j >= |a| {
        assert (a + b)[i] == a[i] && (a + b)[j] == b[j - |a|];
      }
    }
  }

  /** The key an attribute operation touches, if any. */
  predicate TouchesKey(op: HostOp, key: string)
  {
    (op.SetProp? || op.ClearProp?) && op.key == key
  }

  /** Every call of a pass is on node `n`, belongs to the pass's phase, never
    * touches `children`, and a listener call uses a lower-case event name. */
  lemma PassOpsShape(p: Pass, n: Node, attrs: Attrs)
    ensures forall op :: op in PassOps(p, n, attrs) ==>
              OnNode(op, n) && Phase(op) == PassPhase(p) && !TouchesKey(op, CHILDREN) &&
              ((op.AddListener? || op.RemoveListener?) ==> forall i :: 0 <= i < |op.event| ==> !('A' <= op.event[i] <= 'Z'))
    ensures PhaseSorted(PassOps(p, n, attrs))
  {
    PassOpsExact(p, n, attrs);
    ChildrenIsNotEvent();
    var ops := PassOps(p, n, attrs);
    forall i, j | 0 <= i < j < |ops| ensures Phase(ops[i]) <= Phase(ops[j]) {
      assert ops[i] in ops && ops[j] in ops;
    }
  }

  /** `updateDom`'s calls on node `n`: clear the old plain props, set the new
    * plain props, unbind the old handlers, bind the new handlers. */
  function UpdateDomOps(n: Node, oldAttrs: Attrs, newAttrs: Attrs): seq<HostOp>
  {
    PassOps(ClearOld, n, oldAttrs) + PassOps(SetNew, n, newAttrs)
    + PassOps(UnbindOld, n, oldAttrs) + PassOps(BindNew, n, newAttrs)
  }

  /** Whether the props have any key besides `children`. */
  predicate AnyProp(attrs: Attrs)
  {
    exists i :: 0 <= i < |attrs| && IsProps(attrs[i].0)
  }

  /** `updateDom` issues its calls in phase order, never touches `children`,
    * and issues no call exactly when neither props object has a key besides
    * `children`. */
  lemma UpdateDomOrder(n: Node, oldAttrs: Attrs, newAttrs: Attrs)
    ensures var ops := UpdateDomOps(n, oldAttrs, newAttrs);
      && PhaseSorted(ops)
      && (forall op :: op in ops ==> OnNode(op, n) && !TouchesKey(op, CHILDREN))
      && (ops == [] <==> !AnyProp(oldAttrs) && !AnyProp(newAttrs))
  {
    var a, b, c, d := PassOps(ClearOld, n, oldAttrs), PassOps(SetNew, n, newAttrs),
                      PassOps(UnbindOld, n, oldAttrs), PassOps(BindNew, n, newAttrs);
    PassOpsShape(ClearOld, n, oldAttrs);
    PassOpsShape(SetNew, n, newAttrs);
    PassOpsShape(UnbindOld, n, oldAttrs);
    PassOpsShape(BindNew, n, newAttrs);
    SortedConcat(a, b);
    SortedConcat(a + b, c);
    SortedConcat(a + b + c, d);
    PassOpsEmpty(ClearOld, n, oldAttrs);
    PassOpsEmpty(SetNew, n, newAttrs);
    PassOpsEmpty(UnbindOld, n, oldAttrs);
    PassOpsEmpty(BindNew, n, newAttrs);
    ChildrenIsNotEvent();
    if AnyProp(oldAttrs) {
      var i :| 0 <= i < |oldAttrs| && IsProps(oldAttrs[i].0);
      assert Selects(ClearOld, oldAttrs[i].0) || Selects(UnbindOld, oldAttrs[i].0);
    }
    if AnyProp(newAttrs) {
      var i :| 0 <= i < |newAttrs| && IsProps(newAttrs[i].0);
      assert Selects(SetNew, newAttrs[i].0) || Selects(BindNew, newAttrs[i].0);
    }
  }

  /** `createDOM`'s calls for a fiber of tag `tag` with props `attrs`: create the
    * node, assign every prop but `children` (handlers included), then bind the
    * handlers as listeners. */
  function CreateDomOps(n: Node, tag: string, attrs: Attrs): seq<HostOp>
  {
    [if tag == TEXT_ELEMENT then CreateText(n) else CreateElem(n, tag)]
    + PassOps(SetAll, n, attrs) + PassOps(BindNew, n, attrs)
  }

  /** `createDOM` creates exactly one node, first, and then only configures it:
    * one assignment per prop besides `children`, one listener per event key. */
  lemma CreateDomShape(n: Node, tag: string, attrs: Attrs)
    ensures var ops := CreateDomOps(n, tag, attrs);
      && |ops| >= 1
      && ops[0] == (if tag == TEXT_ELEMENT then CreateText(n) else CreateElem(n, tag))
      && (forall i :: 1 <= i < |ops| ==> OnNode(ops[i], n) && (ops[i].SetProp? || ops[i].AddListener?))
      && (forall k, v :: (k, v) in attrs && IsProps(k) ==> SetProp(n, k, v) in ops)
      && (forall k, v :: (k, v) in attrs && IsEvent(k) ==> AddListener(n, EventName(k), v) in ops)
  {
    var ops := CreateDomOps(n, tag, attrs);
    PassOpsExact(SetAll, n, attrs);
    PassOpsExact(BindNew, n, attrs);
    forall i | 1 <= i < |ops| ensures OnNode(ops[i], n) && (ops[i].SetProp? || ops[i].AddListener?) {
      assert ops[i] in PassOps(SetAll, n, attrs) || ops[i] in PassOps(BindNew, n, attrs);
    }
    forall k, v | (k, v) in attrs && IsProps(k) ensures SetProp(n, k, v) in ops {
      var i :| 0 <= i < |attrs| && attrs[i] == (k, v);
      assert OpOf(SetAll, n, attrs[i].0, attrs[i].1) in PassOps(SetAll, n, attrs);
    }
    forall k, v | (k, v) in attrs && IsEvent(k) ensures AddListener(n, EventName(k), v) in ops {
      var i :| 0 <= i < |attrs| && attrs[i] == (k, v);
      assert OpOf(BindNew, n, attrs[i].0, attrs[i].1) in PassOps(BindNew, n, attrs);
    }
  }
}
