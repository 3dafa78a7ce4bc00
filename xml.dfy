/** The part of the XML library's element API that the store and the TMX helpers use.
    Elements are plain values: two elements are equal when their names, attributes
    and content are equal. */
module Xml {
  import opened Wrappers

  datatype Attribute = Attribute(name: string, value: string)

  datatype Node = Text(text: string) | Child(element: Element)

  datatype Element = Element(name: string, attributes: seq<Attribute>, content: seq<Node>)

  /** `getAttributeValue(name, default)`: the value of the first attribute called `name`. */
  function AttributeValue(attrs: seq<Attribute>, name: string, default: string): string
  {
    if attrs == [] then default
    else if attrs[0].name == name then attrs[0].value
    else AttributeValue(attrs[1..], name, default)
  }

  function GetAttribute(e: Element, name: string, default: string): string
  {
    AttributeValue(e.attributes, name, default)
  }

  function SetValue(attrs: seq<Attribute>, name: string, value: string): (r: seq<Attribute>)
    ensures AttributeValue(r, name, "") == value
    ensures forall other, d :: other != name ==> AttributeValue(r, other, d) == AttributeValue(attrs, other, d)
  {
    if attrs == [] then [Attribute(name, value)]
    else if attrs[0].name == name then [Attribute(name, value)] + attrs[1..]
    else [attrs[0]] + SetValue(attrs[1..], name, value)
  }

  /** `setAttribute(name, value)`: an attribute of that name gets the new value;
      otherwise the attribute is added at the end. */
  function SetAttribute(e: Element, name: string, value: string): (r: Element)
    ensures r.name == e.name && r.content == e.content
    ensures GetAttribute(r, name, "") == value
  {
    e.(attributes := SetValue(e.attributes, name, value))
  }

  function DropAttribute(attrs: seq<Attribute>, name: string): (r: seq<Attribute>)
    ensures forall d :: AttributeValue(r, name, d) == d
    ensures forall other, d :: other != name ==> AttributeValue(r, other, d) == AttributeValue(attrs, other, d)
  {
    if attrs == [] then []
    else if attrs[0].name == name then DropAttribute(attrs[1..], name)
    else [attrs[0]] + DropAttribute(attrs[1..], name)
  }

  /** `removeAttribute(name)`. */
  function RemoveAttribute(e: Element, name: string): Element
  {
    e.(attributes := DropAttribute(e.attributes, name))
  }

  function ElementsNamed(content: seq<Node>, name: string): (r: seq<Element>)
    ensures forall i :: 0 <= i < |r| ==> r[i].name == name
  {
    if content == [] then []
    else if content[0].Child? && content[0].element.name == name then [content[0].element] + ElementsNamed(content[1..], name)
    else ElementsNamed(content[1..], name)
  }

  /** `getChildren(name)`: the child elements called `name`, in document order. */
  function Children(e: Element, name: string): seq<Element>
  {
    ElementsNamed(e.content, name)
  }

  /** `getChild(name)`: the first child element called `name`, or null. */
  function GetChild(e: Element, name: string): Option<Element>
  {
    var named := Children(e, name);
    if named == [] then None else Some(named[0])
  }

  function WithoutElementsNamed(content: seq<Node>, name: string): (r: seq<Node>)
    ensures ElementsNamed(r, name) == []
  {
    if content == [] then []
    else if content[0].Child? && content[0].element.name == name then WithoutElementsNamed(content[1..], name)
    else [content[0]] + WithoutElementsNamed(content[1..], name)
  }

  /** `removeChild(name)`: every child element called `name` leaves the content. */
  function RemoveChildren(e: Element, name: string): Element
  {
    e.(content := WithoutElementsNamed(e.content, name))
  }

  function AsNodes(children: seq<Element>): (r: seq<Node>)
    ensures |r| == |children|
    ensures forall i :: 0 <= i < |r| ==> r[i] == Child(children[i])
  {
    if children == [] then [] else [Child(children[0])] + AsNodes(children[1..])
  }

  /** `setChildren(list)`: the content becomes exactly the given elements. */
  function SetChildren(e: Element, children: seq<Element>): Element
  {
    e.(content := AsNodes(children))
  }

  /** An element whose only content is one text node, as `new Element(name)` followed by `setText(text)`. */
  function TextElement(name: string, attributes: seq<Attribute>, text: string): Element
  {
    Element(name, attributes, [Text(text)])
  }
  /** The elements of a list called `name`, in order. */
  function Named(xs: seq<Element>, name: string): (r: seq<Element>)
    ensures forall i :: 0 <= i < |r| ==> r[i].name == name
  {
    if xs == [] then [] else (if xs[0].name == name then [xs[0]] else []) + Named(xs[1..], name)
  }

  /** `getChildren(name)` after `setChildren(xs)` returns the elements of `xs` called `name`. */
  lemma {:induction false} ChildrenAfterSetChildren(e: Element, xs: seq<Element>, name: string)
    ensures Children(SetChildren(e, xs), name) == Named(xs, name)
  {
    NamedAsNodes(xs, name);
  }

  lemma {:induction false} NamedAsNodes(xs: seq<Element>, name: string)
    ensures ElementsNamed(AsNodes(xs), name) == Named(xs, name)
  {
    if xs != [] {
      NamedAsNodes(xs[1..], name);
      assert AsNodes(xs)[1..] == AsNodes(xs[1..]);
    }
  }

  lemma {:induction false} NamedAppend(a: seq<Element>, b: seq<Element>, name: string)
    ensures Named(a + b, name) == Named(a, name) + Named(b, name)
  {
    if a == [] {
      assert a + b == b;
    } else {
      var head := if a[0].name == name then [a[0]] else [];
      NamedAppend(a[1..], b, name);
      assert a + b == [a[0]] + (a[1..] + b);
      assert a == [a[0]] + a[1..];
      NamedCons(a[0], a[1..] + b, name);
      NamedCons(a[0], a[1..], name);
      assert head + (Named(a[1..], name) + Named(b, name)) == (head + Named(a[1..], name)) + Named(b, name);
    }
  }

  /** Selecting from a list with one more element in front. */
  lemma NamedCons(x: Element, ys: seq<Element>, name: string)
    ensures Named([x] + ys, name) == (if x.name == name then [x] else []) + Named(ys, name)
  {
    assert ([x] + ys)[1..] == ys;
  }

  /** Selecting by name keeps a list whose elements all have that name, and empties
      a list with none of that name. */
  lemma {:induction false} NamedAllOrNone(xs: seq<Element>, name: string)
    ensures (forall i :: 0 <= i < |xs| ==> xs[i].name == name) ==> Named(xs, name) == xs
    ensures (forall i :: 0 <= i < |xs| ==> xs[i].name != name) ==> Named(xs, name) == []
  {
    if xs != [] {
      NamedAllOrNone(xs[1..], name);
    }
  }

  /** Elements of two different names, one name after the other, are told apart by
      selecting either name. */
  lemma SplitByName(a: seq<Element>, b: seq<Element>, first: string, second: string)
    requires first != second
    requires forall i :: 0 <= i < |a| ==> a[i].name == first
    requires forall i :: 0 <= i < |b| ==> b[i].name == second
    ensures Named(a + b, first) == a && Named(a + b, second) == b
  {
    NamedAppend(a, b, first);
    NamedAppend(a, b, second);
    NamedAllOrNone(a, first);
    NamedAllOrNone(a, second);
    NamedAllOrNone(b, first);
    NamedAllOrNone(b, second);
  }
}
