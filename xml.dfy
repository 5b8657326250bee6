/** The parsed markup tree the merge engine works on, as a value: an element
    has a prefix, a local name, attributes in document order and child nodes.
    Text, comments and every other non-element node are `OtherNode`; the
    engine skips them. Namespace URIs of elements and attributes are not kept. */
module Xml {

  datatype Option<T> = None | Some(value: T)

  datatype Attr = Attr(prefix: string, localName: string, value: string)

  datatype Element = Element(prefix: string, localName: string, attributes: seq<Attr>, children: seq<Node>)

  datatype Node = ElementNode(element: Element) | OtherNode

  /** `Name` of a node or attribute: `prefix:localName`, or the local name alone
      when there is no prefix. */
  function QualifiedName(prefix: string, localName: string): string {
    if prefix == "" then localName else prefix + ":" + localName
  }

  function AttrName(a: Attr): string {
    QualifiedName(a.prefix, a.localName)
  }

  function ElementName(e: Element): string {
    QualifiedName(e.prefix, e.localName)
  }

  /** Position `i` holds the first attribute called `name`. */
  ghost predicate FirstNamed(attrs: seq<Attr>, i: int, name: string) {
    0 <= i < |attrs| && AttrName(attrs[i]) == name
    && forall k :: 0 <= k < i ==> AttrName(attrs[k]) != name
  }

  /** The position an attribute lookup by name (`Attributes[name]`,
      `GetAttributeNode`) lands on: the first attribute with that name. */
  function FindAttribute(attrs: seq<Attr>, name: string): (r: Option<nat>)
    ensures r.Some? ==> FirstNamed(attrs, r.value, name)
    ensures r.None? <==> forall k :: 0 <= k < |attrs| ==> AttrName(attrs[k]) != name
  {
    if attrs == [] then None
    else if AttrName(attrs[0]) == name then Some(0)
    else match FindAttribute(attrs[1..], name)
      case None => None
      case Some(i) => Some(i + 1)
  }

  /** `HasAttribute(name)`. */
  predicate HasAttribute(attrs: seq<Attr>, name: string) {
    FindAttribute(attrs, name).Some?
  }

  /** `Attributes[name].Value`. */
  function AttributeValue(attrs: seq<Attr>, name: string): string
    requires HasAttribute(attrs, name)
  {
    attrs[FindAttribute(attrs, name).value].value
  }

  /** `SetAttribute(prefix:localName, value)`: overwrites the value of the first
      attribute with that name, or appends a new attribute when there is none. */
  function SetAttribute(attrs: seq<Attr>, prefix: string, localName: string, value: string): (r: seq<Attr>)
    ensures HasAttribute(attrs, QualifiedName(prefix, localName)) ==>
              var i := FindAttribute(attrs, QualifiedName(prefix, localName)).value;
              |r| == |attrs| && r[i] == attrs[i].(value := value)
              && forall k :: 0 <= k < |attrs| && k != i ==> r[k] == attrs[k]
    ensures !HasAttribute(attrs, QualifiedName(prefix, localName)) ==>
              r == attrs + [Attr(prefix, localName, value)] && AttrName(r[|attrs|]) == QualifiedName(prefix, localName)
  {
    match FindAttribute(attrs, QualifiedName(prefix, localName))
    case Some(i) => attrs[i := attrs[i].(value := value)]
    case None => attrs + [Attr(prefix, localName, value)]
  }

  /** The lookup finds exactly the first attribute with the name. */
  lemma FindIsFirst(attrs: seq<Attr>, i: int, name: string)
    requires FirstNamed(attrs, i, name)
    ensures FindAttribute(attrs, name) == Some(i)
  {
    assert AttrName(attrs[i]) == name;
  }

  /** Appending attributes never changes what a lookup of a name already
      present finds. */
  lemma AppendKeepsLookup(attrs: seq<Attr>, extra: seq<Attr>, name: string)
    requires HasAttribute(attrs, name)
    ensures HasAttribute(attrs + extra, name)
    ensures FindAttribute(attrs + extra, name) == FindAttribute(attrs, name)
    ensures AttributeValue(attrs + extra, name) == AttributeValue(attrs, name)
  {
    var i := FindAttribute(attrs, name).value;
    assert forall k :: 0 <= k < |attrs| ==> (attrs + extra)[k] == attrs[k];
    FindIsFirst(attrs + extra, i, name);
  }

  /** A name absent from `attrs` and then appended is found at the new position. */
  lemma AppendFreshLookup(attrs: seq<Attr>, a: Attr)
    requires !HasAttribute(attrs, AttrName(a))
    ensures FindAttribute(attrs + [a], AttrName(a)) == Some(|attrs|)
    ensures AttributeValue(attrs + [a], AttrName(a)) == a.value
  {
    assert forall k :: 0 <= k < |attrs| ==> (attrs + [a])[k] == attrs[k];
    FindIsFirst(attrs + [a], |attrs|, AttrName(a));
  }

  /** After `SetAttribute`, a lookup of the name it set finds an attribute
      holding the value it set. */
  lemma SetThenLookup(attrs: seq<Attr>, prefix: string, localName: string, value: string)
    ensures var r := SetAttribute(attrs, prefix, localName, value);
            HasAttribute(r, QualifiedName(prefix, localName))
            && AttributeValue(r, QualifiedName(prefix, localName)) == value
  {
    var name := QualifiedName(prefix, localName);
    var r := SetAttribute(attrs, prefix, localName, value);
    if HasAttribute(attrs, name) {
      var i := FindAttribute(attrs, name).value;
      assert AttrName(r[i]) == name;
      FindIsFirst(r, i, name);
    } else {
      AppendFreshLookup(attrs, Attr(prefix, localName, value));
    }
  }
}
