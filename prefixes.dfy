/** `ChangeNamespacePrefix`: renames a namespace prefix throughout the
    descendants of an element (src/Combiner.cs:205-238). */
module NamespacePrefix {
  import opened Text
  import opened Xml

  /** A value holding a `{x:Type ...}` or `{x:Static ...}` extension that
      mentions ` old:` gets every ` old:` replaced by ` new:`. */
  function RenameInExtension(value: string, oldPrefix: string, newPrefix: string): string {
    var spaced := " " + oldPrefix + ":";
    if (Contains(value, "{x:Type") || Contains(value, "{x:Static")) && Contains(value, spaced)
    then ReplaceAll(value, spaced, " " + newPrefix + ":")
    else value
  }

  /** An attribute in the reserved `xmlns` namespace: a namespace
      declaration, `xmlns:p` or the unprefixed `xmlns`. A parsed document
      binds no other prefix to that namespace, so the name decides it. */
  predicate IsDeclaration(a: Attr) {
    a.prefix == "xmlns" || (a.prefix == "" && a.localName == "xmlns")
  }

  /** `attr.Prefix = p` throws an `ArgumentException` (the document's name
      check) when the new name says declaration and the attribute's namespace
      says otherwise, or the reverse: the namespace does not change with the
      prefix. */
  predicate SetterRejects(a: Attr, p: string) {
    IsDeclaration(a.(prefix := p)) != IsDeclaration(a)
  }

  /** Line 226 runs the setter on `a` and it throws. */
  predicate AttributeThrows(a: Attr, oldPrefix: string, newPrefix: string) {
    a.prefix == oldPrefix && SetterRejects(a, newPrefix)
  }

  /** The rename of these nodes throws: some attribute of some element among
      them or below them is one whose prefix setter throws. */
  predicate NodesThrow(nodes: seq<Node>, oldPrefix: string, newPrefix: string)
    decreases nodes, 1
  {
    exists k :: 0 <= k < |nodes| && NodeThrows(nodes[k], oldPrefix, newPrefix)
  }

  predicate NodeThrows(node: Node, oldPrefix: string, newPrefix: string)
    decreases node, 0
  {
    match node
    case OtherNode => false
    case ElementNode(c) =>
      || (exists k :: 0 <= k < |c.attributes| && AttributeThrows(c.attributes[k], oldPrefix, newPrefix))
      || NodesThrow(c.children, oldPrefix, newPrefix)
  }

  /** How the prefix setter of line 226 treats an attribute: the reserved
      prefix `xmlns` is refused to every attribute that is not a declaration,
      the empty prefix is refused to a non-declaration called `xmlns`, and a
      prefixed declaration refuses every prefix but `xmlns`. */
  lemma SetterRules(a: Attr, p: string)
    ensures !IsDeclaration(a) ==> (SetterRejects(a, p) <==> p == "xmlns" || (p == "" && a.localName == "xmlns"))
    ensures a.prefix == "xmlns" ==> (SetterRejects(a, p) <==> p != "xmlns" && !(p == "" && a.localName == "xmlns"))
    ensures SetterRejects(a, a.prefix) == false
  {
  }

  /** A rename between two ordinary prefixes (neither empty nor `xmlns`) never
      throws: this is every alias rename of a parsed document. */
  lemma {:induction false} OrdinaryRenameAccepted(nodes: seq<Node>, oldPrefix: string, newPrefix: string)
    requires oldPrefix != "" && oldPrefix != "xmlns" && newPrefix != "" && newPrefix != "xmlns"
    ensures !NodesThrow(nodes, oldPrefix, newPrefix)
    decreases nodes
  {
    forall k | 0 <= k < |nodes|
      ensures !NodeThrows(nodes[k], oldPrefix, newPrefix)
    {
      match nodes[k]
      case OtherNode =>
      case ElementNode(c) =>
        assert c < nodes[k];
        OrdinaryRenameAccepted(c.children, oldPrefix, newPrefix);
    }
  }

  /** The attribute prefixes below the given nodes, in document order. */
  function AttributePrefixes(nodes: seq<Node>): seq<string>
    decreases nodes
  {
    if nodes == [] then []
    else
      (match nodes[0]
       case OtherNode => []
       case ElementNode(c) =>
         assert c < nodes[0];
         seq(|c.attributes|, k requires 0 <= k < |c.attributes| => c.attributes[k].prefix)
         + AttributePrefixes(c.children))
      + AttributePrefixes(nodes[1..])
  }

  /** A rename of an ordinary prefix to `xmlns` throws exactly when some
      attribute below carries the old prefix (line 226 with the result root's
      default `xmlns` declaration as the match). */
  lemma {:induction false} RenameToXmlnsThrows(nodes: seq<Node>, oldPrefix: string)
    requires oldPrefix != "" && oldPrefix != "xmlns"
    ensures NodesThrow(nodes, oldPrefix, "xmlns") <==> oldPrefix in AttributePrefixes(nodes)
    decreases nodes
  {
    if nodes != [] {
      RenameToXmlnsThrows(nodes[1..], oldPrefix);
      var head := match nodes[0]
        case OtherNode => []
        case ElementNode(c) =>
          seq(|c.attributes|, k requires 0 <= k < |c.attributes| => c.attributes[k].prefix)
          + AttributePrefixes(c.children);
      assert AttributePrefixes(nodes) == head + AttributePrefixes(nodes[1..]);
      assert NodeThrows(nodes[0], oldPrefix, "xmlns") <==> oldPrefix in head by {
        match nodes[0]
        case OtherNode =>
        case ElementNode(c) =>
          assert c < nodes[0];
          RenameToXmlnsThrows(c.children, oldPrefix);
          var own := seq(|c.attributes|, k requires 0 <= k < |c.attributes| => c.attributes[k].prefix);
          assert oldPrefix in own <==> exists k :: 0 <= k < |c.attributes| && AttributeThrows(c.attributes[k], oldPrefix, "xmlns") by {
            if oldPrefix in own {
              var k :| 0 <= k < |own| && own[k] == oldPrefix;
              assert AttributeThrows(c.attributes[k], oldPrefix, "xmlns");
            }
            if exists k :: 0 <= k < |c.attributes| && AttributeThrows(c.attributes[k], oldPrefix, "xmlns") {
              var k :| 0 <= k < |c.attributes| && AttributeThrows(c.attributes[k], oldPrefix, "xmlns");
              assert own[k] == oldPrefix;
            }
          }
      }
      assert NodesThrow(nodes, oldPrefix, "xmlns") <==> NodeThrows(nodes[0], oldPrefix, "xmlns") || NodesThrow(nodes[1..], oldPrefix, "xmlns") by {
        if NodesThrow(nodes, oldPrefix, "xmlns") {
          var k :| 0 <= k < |nodes| && NodeThrows(nodes[k], oldPrefix, "xmlns");
          if k > 0 {
            assert nodes[1..][k - 1] == nodes[k];
          }
        }
        if NodesThrow(nodes[1..], oldPrefix, "xmlns") {
          var k :| 0 <= k < |nodes[1..]| && NodeThrows(nodes[1..][k], oldPrefix, "xmlns");
          assert nodes[k + 1] == nodes[1..][k];
        }
      }
    }
  }

  /** One attribute of a descendant whose prefix setter accepts the rename
      (`AttributeThrows` is the case where it throws): its prefix, then an
      extension value, then a `Property` value starting with `old:`. The
      `Property` test reads the name after the prefix has been renamed. */
  function RenameAttribute(a: Attr, oldPrefix: string, newPrefix: string): Attr {
    var renamed := if a.prefix == oldPrefix then a.(prefix := newPrefix) else a;
    var value := RenameInExtension(renamed.value, oldPrefix, newPrefix);
    var value' := if AttrName(renamed) == "Property" && StartsWith(value, oldPrefix + ":")
                  then ReplaceAll(value, oldPrefix + ":", newPrefix + ":")
                  else value;
    renamed.(value := value')
  }

  /** A child element's attributes after the rename: each keeps its place
      and its local name, carries `new` wherever it carried `old`, and keeps
      every other prefix (one that already was `new` included). */
  function RenameAttributes(attrs: seq<Attr>, oldPrefix: string, newPrefix: string): (r: seq<Attr>)
    ensures |r| == |attrs|
    ensures forall k :: 0 <= k < |attrs| ==> r[k] == RenameAttribute(attrs[k], oldPrefix, newPrefix)
    ensures forall k :: 0 <= k < |attrs| ==>
              && r[k].localName == attrs[k].localName
              && r[k].prefix == (if attrs[k].prefix == oldPrefix then newPrefix else attrs[k].prefix)
  {
    seq(|attrs|, k requires 0 <= k < |attrs| => RenameAttribute(attrs[k], oldPrefix, newPrefix))
  }

  /** A descendant element after the rename: its own prefix and attributes,
      and all of its descendants. */
  function RenameElement(e: Element, oldPrefix: string, newPrefix: string): Element
    decreases e
  {
    Element(if e.prefix == oldPrefix then newPrefix else e.prefix, e.localName,
            RenameAttributes(e.attributes, oldPrefix, newPrefix),
            RenameNodes(e.children, oldPrefix, newPrefix))
  }

  function RenameNode(node: Node, oldPrefix: string, newPrefix: string): Node
    decreases node
  {
    match node
    case OtherNode => OtherNode
    case ElementNode(c) => ElementNode(RenameElement(c, oldPrefix, newPrefix))
  }

  function RenameNodes(nodes: seq<Node>, oldPrefix: string, newPrefix: string): (r: seq<Node>)
    ensures |r| == |nodes|
    ensures forall k :: 0 <= k < |nodes| ==> r[k] == RenameNode(nodes[k], oldPrefix, newPrefix)
    decreases nodes
  {
    if nodes == [] then []
    else [RenameNode(nodes[0], oldPrefix, newPrefix)] + RenameNodes(nodes[1..], oldPrefix, newPrefix)
  }

  /** What `ChangeNamespacePrefix(element, old, new)` leaves behind when no
      prefix setter throws: the start element itself keeps its prefix and
      attributes; every descendant is renamed. */
  function RenameDescendants(element: Element, oldPrefix: string, newPrefix: string): Element {
    element.(children := RenameNodes(element.children, oldPrefix, newPrefix))
  }

  /** The rename as the source performs it: a loop over the child nodes; for
      each child element its prefix, then its attributes, then a recursive
      call for the child's own descendants. `None` is the `ArgumentException`
      of an attribute's prefix setter, which leaves the method. */
  method ChangeNamespacePrefix(element: Element, oldPrefix: string, newPrefix: string) returns (r: Option<Element>)
    ensures r.None? <==> NodesThrow(element.children, oldPrefix, newPrefix)
    ensures r.Some? ==> r.value == RenameDescendants(element, oldPrefix, newPrefix)
    ensures r.Some? ==> r.value.prefix == element.prefix && r.value.localName == element.localName
    ensures r.Some? ==> r.value.attributes == element.attributes && |r.value.children| == |element.children|
    decreases element
  {
    var children := element.children;
    var i := 0;
    while i < |children|
      invariant 0 <= i <= |children| == |element.children|
      invariant forall k :: 0 <= k < i ==> children[k] == RenameNode(element.children[k], oldPrefix, newPrefix)
      invariant forall k :: 0 <= k < i ==> !NodeThrows(element.children[k], oldPrefix, newPrefix)
      invariant children[i..] == element.children[i..]
    {
      match element.children[i] {
        case OtherNode =>
        case ElementNode(child) =>
          var prefix := if child.prefix == oldPrefix then newPrefix else child.prefix;
          var attrs := RenameEachAttribute(child.attributes, oldPrefix, newPrefix);
          if attrs.None? {
            return None;
          }
          var descendants := ChangeNamespacePrefix(child, oldPrefix, newPrefix);
          if descendants.None? {
            return None;
          }
          children := children[i := ElementNode(Element(prefix, child.localName, attrs.value, descendants.value.children))];
      }
      i := i + 1;
    }
    r := Some(element.(children := children));
  }

  /** The inner `foreach` over a child element's attributes (lines 223-234):
      the prefix, then an extension value, then a `Property` value. `None`
      is the throw of the first attribute whose prefix setter refuses `new`. */
  method RenameEachAttribute(attributes: seq<Attr>, oldPrefix: string, newPrefix: string) returns (r: Option<seq<Attr>>)
    ensures r.None? <==> exists k :: 0 <= k < |attributes| && AttributeThrows(attributes[k], oldPrefix, newPrefix)
    ensures r.Some? ==> r.value == RenameAttributes(attributes, oldPrefix, newPrefix)
  {
    var oldString := oldPrefix + ":";
    var newString := newPrefix + ":";
    var oldStringSpaced := " " + oldString;
    var newStringSpaced := " " + newString;
    assert oldStringSpaced == " " + oldPrefix + ":" && newStringSpaced == " " + newPrefix + ":";
    var attrs := attributes;
    var j := 0;
    while j < |attrs|
      invariant 0 <= j <= |attrs| == |attributes|
      invariant forall k :: 0 <= k < j ==> attrs[k] == RenameAttribute(attributes[k], oldPrefix, newPrefix)
      invariant forall k :: 0 <= k < j ==> !AttributeThrows(attributes[k], oldPrefix, newPrefix)
      invariant attrs[j..] == attributes[j..]
    {
      var attr := attrs[j];
      assert attr == attributes[j];
      if attr.prefix == oldPrefix {
        if SetterRejects(attr, newPrefix) {
          return None;
        }
        attr := attr.(prefix := newPrefix);
      }
      if (Contains(attr.value, "{x:Type") || Contains(attr.value, "{x:Static")) && Contains(attr.value, oldStringSpaced) {
        attr := attr.(value := ReplaceAll(attr.value, oldStringSpaced, newStringSpaced));
      }
      if AttrName(attr) == "Property" && StartsWith(attr.value, oldString) {
        attr := attr.(value := ReplaceAll(attr.value, oldString, newString));
      }
      attrs := attrs[j := attr];
      j := j + 1;
    }
    r := Some(attrs);
  }

  // ---------------------------------------------------------------------------
  // What the rename does to a tree

  /** Every element and attribute prefix below the given nodes, in document
      order: an element's prefix, its attributes' prefixes, then its children. */
  function Prefixes(nodes: seq<Node>): seq<string>
    decreases nodes
  {
    if nodes == [] then []
    else
      (match nodes[0]
       case OtherNode => []
       case ElementNode(c) => assert c < nodes[0]; ElementPrefixes(c))
      + Prefixes(nodes[1..])
  }

  function ElementPrefixes(e: Element): seq<string>
    decreases e
  {
    [e.prefix] + seq(|e.attributes|, k requires 0 <= k < |e.attributes| => e.attributes[k].prefix)
    + Prefixes(e.children)
  }

  /** Each `old` in a list of prefixes replaced by `new`. */
  function Substitute(prefixes: seq<string>, oldPrefix: string, newPrefix: string): (r: seq<string>)
    ensures |r| == |prefixes|
  {
    seq(|prefixes|, k requires 0 <= k < |prefixes| => if prefixes[k] == oldPrefix then newPrefix else prefixes[k])
  }

  lemma SubstituteAppend(a: seq<string>, b: seq<string>, oldPrefix: string, newPrefix: string)
    ensures Substitute(a + b, oldPrefix, newPrefix) == Substitute(a, oldPrefix, newPrefix) + Substitute(b, oldPrefix, newPrefix)
  {
  }

  /** The rename maps the prefixes of the renamed nodes one for one: each
      `old` becomes `new`, every other prefix is left alone. */
  lemma {:induction false} RenamePrefixes(nodes: seq<Node>, oldPrefix: string, newPrefix: string)
    ensures Prefixes(RenameNodes(nodes, oldPrefix, newPrefix)) == Substitute(Prefixes(nodes), oldPrefix, newPrefix)
    decreases nodes
  {
    if nodes != [] {
      var r := RenameNodes(nodes, oldPrefix, newPrefix);
      assert r[1..] == RenameNodes(nodes[1..], oldPrefix, newPrefix);
      RenamePrefixes(nodes[1..], oldPrefix, newPrefix);
      match nodes[0]
      case OtherNode =>
      case ElementNode(c) =>
        assert c < nodes[0];
        RenameElementPrefixes(c, oldPrefix, newPrefix);
        SubstituteAppend(ElementPrefixes(c), Prefixes(nodes[1..]), oldPrefix, newPrefix);
    }
  }

  lemma {:induction false} RenameElementPrefixes(e: Element, oldPrefix: string, newPrefix: string)
    ensures ElementPrefixes(RenameElement(e, oldPrefix, newPrefix)) == Substitute(ElementPrefixes(e), oldPrefix, newPrefix)
    decreases e
  {
    var re := RenameElement(e, oldPrefix, newPrefix);
    var attrPrefixes := seq(|e.attributes|, k requires 0 <= k < |e.attributes| => e.attributes[k].prefix);
    var renamedPrefixes := seq(|re.attributes|, k requires 0 <= k < |re.attributes| => re.attributes[k].prefix);
    assert renamedPrefixes == Substitute(attrPrefixes, oldPrefix, newPrefix);
    assert [re.prefix] == Substitute([e.prefix], oldPrefix, newPrefix);
    RenamePrefixes(e.children, oldPrefix, newPrefix);
    assert ElementPrefixes(re) == [re.prefix] + renamedPrefixes + Prefixes(re.children);
    SubstituteAppend([e.prefix] + attrPrefixes, Prefixes(e.children), oldPrefix, newPrefix);
    SubstituteAppend([e.prefix], attrPrefixes, oldPrefix, newPrefix);
  }

  /** After renaming `old` to a different `new`, no descendant element or
      attribute carries the prefix `old`. */
  lemma RenameRemovesPrefix(element: Element, oldPrefix: string, newPrefix: string)
    requires oldPrefix != newPrefix
    ensures oldPrefix !in Prefixes(RenameDescendants(element, oldPrefix, newPrefix).children)
  {
    RenamePrefixes(element.children, oldPrefix, newPrefix);
  }

  /** The tree with every prefix and value blanked out: what the rename may
      not change (nesting, local names, attribute order, non-element nodes). */
  function Skeleton(nodes: seq<Node>): seq<Node>
    decreases nodes
  {
    if nodes == [] then []
    else
      [match nodes[0]
       case OtherNode => OtherNode
       case ElementNode(c) => assert c < nodes[0]; ElementNode(ElementSkeleton(c))]
      + Skeleton(nodes[1..])
  }

  function ElementSkeleton(e: Element): Element
    decreases e
  {
    Element("", e.localName,
            seq(|e.attributes|, k requires 0 <= k < |e.attributes| => Attr("", e.attributes[k].localName, "")),
            Skeleton(e.children))
  }

  /** The rename changes prefixes and values only. */
  lemma {:induction false} RenameKeepsSkeleton(nodes: seq<Node>, oldPrefix: string, newPrefix: string)
    ensures Skeleton(RenameNodes(nodes, oldPrefix, newPrefix)) == Skeleton(nodes)
    decreases nodes
  {
    if nodes != [] {
      var r := RenameNodes(nodes, oldPrefix, newPrefix);
      assert r[1..] == RenameNodes(nodes[1..], oldPrefix, newPrefix);
      RenameKeepsSkeleton(nodes[1..], oldPrefix, newPrefix);
      match nodes[0]
      case OtherNode =>
      case ElementNode(c) =>
        assert c < nodes[0];
        RenameKeepsSkeleton(c.children, oldPrefix, newPrefix);
        var rc := RenameElement(c, oldPrefix, newPrefix);
        assert ElementSkeleton(rc).attributes == ElementSkeleton(c).attributes;
    }
  }

  /** Renaming a prefix to itself changes nothing. */
  lemma {:induction false} RenameToSelf(nodes: seq<Node>, prefix: string)
    ensures RenameNodes(nodes, prefix, prefix) == nodes
    decreases nodes
  {
    if nodes != [] {
      var r := RenameNodes(nodes, prefix, prefix);
      assert r[1..] == RenameNodes(nodes[1..], prefix, prefix);
      RenameToSelf(nodes[1..], prefix);
      match nodes[0]
      case OtherNode =>
      case ElementNode(c) =>
        assert c < nodes[0];
        RenameToSelf(c.children, prefix);
        forall k | 0 <= k < |c.attributes|
          ensures RenameAttribute(c.attributes[k], prefix, prefix) == c.attributes[k]
        {
          ReplaceAllSelf(c.attributes[k].value, " " + prefix + ":");
          ReplaceAllSelf(c.attributes[k].value, prefix + ":");
        }
        assert RenameAttributes(c.attributes, prefix, prefix) == c.attributes;
        assert RenameElement(c, prefix, prefix) == c;
      assert nodes == [nodes[0]] + nodes[1..];
    }
  }
}
