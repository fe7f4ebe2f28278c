/**
 * The element builder: `createElement` and `createTextElement`, which turn a
 * type, a props object and a list of children into an element record, wrapping
 * every primitive child in a "TEXT_ELEMENT" element.  Both variants of the
 * renderer (src/index.tsx and src/index.jsx) build elements the same way.
 */
module Elements {

  /** A JavaScript value as it can appear in props or as a primitive child.
    * `Fn` is a function object (an event handler), known only by identity. */
  datatype Value = Str(s: string) | Num(n: int) | Bool(b: bool) | Undefined | Fn(id: nat)

  /** An element's `type`: a tag name, or a function component known by identity. */
  datatype ElemType = Tag(name: string) | Component(id: nat)

  /** A props object without its `children` key, in key order. */
  type Attrs = seq<(string, Value)>

  /** An element: its type, its props other than `children`, and `props.children`. */
  datatype Element = Element(etype: ElemType, attrs: Attrs, children: seq<Element>)

  /** What `createElement` receives as a child: an object (an element) or a primitive. */
  datatype Child = Obj(elem: Element) | Prim(value: Value)

  const TEXT_ELEMENT: string := "TEXT_ELEMENT"
  const CHILDREN: string := "children"
  const NODE_VALUE: string := "nodeValue"

  /** A JavaScript object cannot hold one key twice. */
  predicate DistinctKeys(attrs: Attrs)
  {
    forall i, j :: 0 <= i < j < |attrs| ==> attrs[i].0 != attrs[j].0
  }

  /** Whether `key` is a key of the props. */
  predicate HasKey(attrs: Attrs, key: string)
  {
    exists i :: 0 <= i < |attrs| && attrs[i].0 == key
  }

  /** `createTextElement(text)`. */
  function CreateTextElement(text: Value): Element
  {
    Element(Tag(TEXT_ELEMENT), [(NODE_VALUE, text)], [])
  }

  /** The `map` callback of `createElement`: objects pass, primitives are wrapped. */
  function Normalize(child: Child): Element
  {
    match child
    case Obj(e) => e
    case Prim(v) => CreateTextElement(v)
  }

  /** `{...props, children}`: every entry of `props` except a `children` key,
    * which the spread overwrites, in the same order. */
  function WithoutChildren(props: Attrs): (r: Attrs)
    ensures forall p :: p in r <==> p in props && p.0 != CHILDREN
    ensures |r| <= |props|
    ensures DistinctKeys(props) ==> DistinctKeys(r)
  {
    if props == [] then []
    else if props[0].0 == CHILDREN then WithoutChildren(props[1..])
    else
      var rest := WithoutChildren(props[1..]);
      assert forall p :: p in rest ==> p in props[1..];
      [props[0]] + rest
  }

  /** `createElement(type, props, ...children)`. */
  function CreateElement(etype: ElemType, props: Attrs, children: seq<Child>): (e: Element)
    ensures e.etype == etype
    ensures |e.children| == |children|
    ensures forall i :: 0 <= i < |children| && children[i].Obj? ==> e.children[i] == children[i].elem
    ensures forall i :: 0 <= i < |children| && children[i].Prim? ==>
              e.children[i].etype == Tag(TEXT_ELEMENT) &&
              e.children[i].attrs == [(NODE_VALUE, children[i].value)] &&
              e.children[i].children == []
    ensures forall p :: p in e.attrs <==> p in props && p.0 != CHILDREN
    ensures !HasKey(e.attrs, CHILDREN)
  {
    Element(etype, WithoutChildren(props), seq(|children|, i requires 0 <= i < |children| => Normalize(children[i])))
  }

  /** Building an element never loses a prop: every key other than `children`
    * keeps its value, and the props stay a proper object. */
  lemma CreateElementKeepsProps(etype: ElemType, props: Attrs, children: seq<Child>, key: string, v: Value)
    requires DistinctKeys(props)
    ensures DistinctKeys(CreateElement(etype, props, children).attrs)
    ensures key != CHILDREN ==> ((key, v) in CreateElement(etype, props, children).attrs <==> (key, v) in props)
  {
  }

  /** Normalising is idempotent: rebuilding an element from its own children as
    * objects gives back the same children. */
  lemma {:induction false} CreateElementIdempotent(e: Element)
    requires !HasKey(e.attrs, CHILDREN) && DistinctKeys(e.attrs)
    ensures CreateElement(e.etype, e.attrs, seq(|e.children|, i requires 0 <= i < |e.children| => Obj(e.children[i]))) == e
  {
    WithoutChildrenNoop(e.attrs);
  }

  /** Stripping `children` from props that have no such key changes nothing. */
  lemma {:induction false} WithoutChildrenNoop(props: Attrs)
    requires !HasKey(props, CHILDREN)
    ensures WithoutChildren(props) == props
  {
    if props != [] {
      assert !HasKey(props[1..], CHILDREN) by {
        forall i | 0 <= i < |props[1..]| ensures props[1..][i].0 != CHILDREN {
          assert props[1..][i] == props[i + 1];
        }
      }
      assert props[0].0 != CHILDREN;
      WithoutChildrenNoop(props[1..]);
      assert [props[0]] + props[1..] == props;
    }
  }
}
