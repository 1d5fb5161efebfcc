/** A parsed XML document as an immutable tree, and the two LINQ to XML
    queries the feed reader uses on it: `XElement.Element(name)` (first direct
    child with a name) and `XDocument.Descendants(name)` (every element with a
    name, at any depth, in document order). */
module Xml {
  import opened Wrappers

  /** An element: its name, its string value (what the `(string)` cast of an
      `XElement` yields) and its child elements in document order. */
  datatype Element = Element(name: string, value: string, children: seq<Element>)

  /** Index of the first element of `cs` named `name`, searching from `from`. */
  function FirstIndexFrom(cs: seq<Element>, name: string, from: nat): (r: Option<nat>)
    requires from <= |cs|
    ensures r.Some? ==> from <= r.value < |cs| && cs[r.value].name == name
    ensures r.Some? ==> forall j :: from <= j < r.value ==> cs[j].name != name
    ensures r.None? ==> forall j :: from <= j < |cs| ==> cs[j].name != name
    decreases |cs| - from
  {
    if from == |cs| then None
    else if cs[from].name == name then Some(from)
    else FirstIndexFrom(cs, name, from + 1)
  }

  /** `e.Element(name)`: the first direct child named `name`, if any. */
  function FirstChild(e: Element, name: string): (r: Option<Element>)
    ensures r.Some? ==> r.value in e.children && r.value.name == name
    ensures r.None? <==> forall c :: c in e.children ==> c.name != name
    ensures r.Some? ==> exists i :: 0 <= i < |e.children| && e.children[i] == r.value
                          && forall j :: 0 <= j < i ==> e.children[j].name != name
  {
    match FirstIndexFrom(e.children, name, 0)
    case None => None
    case Some(i) => Some(e.children[i])
  }

  /** `(string?)e.Element(name)`: the value of the first child named `name`,
      or absent (C#'s null) when there is no such child. */
  function ChildValue(e: Element, name: string): (r: Option<string>)
    ensures r.None? <==> FirstChild(e, name).None?
    ensures r.Some? ==> r.value == FirstChild(e, name).value.value
  {
    match FirstChild(e, name)
    case None => None
    case Some(c) => Some(c.value)
  }

  /** Reference definition: every element of the tree rooted at `e`, in
      pre-order (document order), the root first. */
  function Nodes(e: Element): seq<Element>
    decreases e
  {
    [e] + NodesOf(e.children)
  }

  function NodesOf(cs: seq<Element>): seq<Element>
    decreases cs
  {
    if cs == [] then [] else Nodes(cs[0]) + NodesOf(cs[1..])
  }

  /** The elements of `s` named `name`, in order. */
  function Named(s: seq<Element>, name: string): seq<Element> {
    if s == [] then []
    else (if s[0].name == name then [s[0]] else []) + Named(s[1..], name)
  }

  /** `XDocument.Descendants(name)` for the document whose root element is
      `e`: a document's descendants include its root. One walk that keeps the
      matching elements as it goes. */
  function DescendantsOrSelf(e: Element, name: string): (r: seq<Element>)
    ensures forall i :: 0 <= i < |r| ==> r[i].name == name
    ensures e.name == name ==> r != [] && r[0] == e
    decreases e
  {
    (if e.name == name then [e] else []) + DescendantsOfAll(e.children, name)
  }

  function DescendantsOfAll(cs: seq<Element>, name: string): (r: seq<Element>)
    ensures forall i :: 0 <= i < |r| ==> r[i].name == name
    decreases cs
  {
    if cs == [] then [] else DescendantsOrSelf(cs[0], name) + DescendantsOfAll(cs[1..], name)
  }

  lemma {:induction false} NamedConcat(a: seq<Element>, b: seq<Element>, name: string)
    ensures Named(a + b, name) == Named(a, name) + Named(b, name)
  {
    if a != [] {
      assert (a + b)[1..] == a[1..] + b;
      NamedConcat(a[1..], b, name);
    } else {
      assert a + b == b;
    }
  }

  /** The walk selects exactly the pre-order nodes carrying the name, in
      document order. */
  lemma {:induction false} DescendantsAreNamedNodes(e: Element, name: string)
    ensures DescendantsOrSelf(e, name) == Named(Nodes(e), name)
    decreases e
  {
    DescendantsOfAllAreNamedNodes(e.children, name);
    NamedConcat([e], NodesOf(e.children), name);
  }

  lemma {:induction false} DescendantsOfAllAreNamedNodes(cs: seq<Element>, name: string)
    ensures DescendantsOfAll(cs, name) == Named(NodesOf(cs), name)
    decreases cs
  {
    if cs != [] {
      DescendantsAreNamedNodes(cs[0], name);
      DescendantsOfAllAreNamedNodes(cs[1..], name);
      NamedConcat(Nodes(cs[0]), NodesOf(cs[1..]), name);
    }
  }

  lemma {:induction false} NamedMembers(s: seq<Element>, name: string, x: Element)
    ensures x in Named(s, name) <==> x in s && x.name == name
    ensures |Named(s, name)| <= |s|
  {
    if s != [] {
      NamedMembers(s[1..], name, x);
      assert s == [s[0]] + s[1..];
    }
  }

  /** An element is selected exactly when it is a node of the tree carrying
      the name; never more elements are selected than the tree has. */
  lemma DescendantsMembers(e: Element, name: string, x: Element)
    ensures x in DescendantsOrSelf(e, name) <==> x in Nodes(e) && x.name == name
    ensures |DescendantsOrSelf(e, name)| <= |Nodes(e)|
  {
    DescendantsAreNamedNodes(e, name);
    NamedMembers(Nodes(e), name, x);
  }
}
