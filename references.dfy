/** `FillKeys`: the keys a resource refers to through `{DynamicResource ...}`
    and `{StaticResource ...}` attribute values (src/Combiner.cs:245-275). */
module References {
  import opened Text
  import opened Xml

  const DynamicResourceString := "{DynamicResource "
  const StaticResourceString := "{StaticResource "

  /** A computation that may throw the `ArgumentOutOfRangeException` of
      `Substring`; the offending attribute value is kept. */
  datatype Result<T> = Ok(value: T) | SubstringOutOfRange(offendingValue: string)

  /** `value.Substring(start, value.Length - start - 1).Trim()`: the text
      between the prefix and the last character, trimmed. A negative length
      throws. */
  function Cut(value: string, start: nat): Result<Option<string>>
    requires start <= |value|
  {
    if |value| - start - 1 < 0 then SubstringOutOfRange(value)
    else Ok(Some(Trim(value[start..|value| - 1])))
  }

  /** The key one attribute value refers to, if any. */
  function ReferenceIn(value: string): Result<Option<string>> {
    if StartsWith(value, DynamicResourceString) then Cut(value, |DynamicResourceString|)
    else if StartsWith(value, StaticResourceString) then Cut(value, |StaticResourceString|)
    else Ok(None)
  }

  /** No value starts with both prefixes. */
  lemma PrefixesExclusive(value: string)
    ensures StartsWith(value, DynamicResourceString) ==> !StartsWith(value, StaticResourceString)
  {
    if StartsWith(value, DynamicResourceString) {
      assert value[1] == DynamicResourceString[1] == 'D';
    }
  }

  /** `Substring` throws exactly for a value that is a bare prefix; a value
      with neither prefix refers to nothing. */
  lemma ReferenceInCases(value: string)
    ensures ReferenceIn(value).SubstringOutOfRange? <==> value == DynamicResourceString || value == StaticResourceString
    ensures ReferenceIn(value) == Ok(None) <==> !StartsWith(value, DynamicResourceString) && !StartsWith(value, StaticResourceString)
  {
    PrefixesExclusive(value);
    if value == DynamicResourceString {
      assert StartsWith(value, DynamicResourceString);
    } else if value == StaticResourceString {
      assert StartsWith(value, StaticResourceString);
    }
    if StartsWith(value, DynamicResourceString) && |value| == |DynamicResourceString| {
      assert value == value[..|DynamicResourceString|];
    }
    if StartsWith(value, StaticResourceString) && |value| == |StaticResourceString| {
      assert value == value[..|StaticResourceString|];
    }
  }

  /** The key is whatever lies between the prefix and the last character,
      trimmed; the last character is not required to be `}`. */
  lemma ReferenceBetween(prefix: string, inner: string, last: char)
    requires prefix == DynamicResourceString || prefix == StaticResourceString
    ensures ReferenceIn(prefix + inner + [last]) == Ok(Some(Trim(inner)))
  {
    var value := prefix + inner + [last];
    assert value[..|prefix|] == prefix;
    assert value[|prefix|..|value| - 1] == inner;
    PrefixesExclusive(value);
  }

  /** The loop over the element's own attributes: each key found is added to
      `acc` unless `acc` already holds it. */
  function OwnKeys(attrs: seq<Attr>, acc: seq<string>): Result<seq<string>>
    decreases |attrs|
  {
    if attrs == [] then Ok(acc)
    else match ReferenceIn(attrs[0].value)
      case SubstringOutOfRange(v) => SubstringOutOfRange(v)
      case Ok(None) => OwnKeys(attrs[1..], acc)
      case Ok(Some(k)) => OwnKeys(attrs[1..], if k in acc then acc else acc + [k])
  }

  /** `result.AddRange(...)` in front of a computation that may throw. */
  function Prepend(keys: seq<string>, r: Result<seq<string>>): Result<seq<string>> {
    match r
    case Ok(ks) => Ok(keys + ks)
    case SubstringOutOfRange(v) => r
  }

  /** What `FillKeys(element)` returns (or throws): the element's own keys,
      then the keys of each child element in document order. */
  function UsedKeys(e: Element): Result<seq<string>>
    decreases e
  {
    match OwnKeys(e.attributes, [])
    case SubstringOutOfRange(v) => SubstringOutOfRange(v)
    case Ok(own) => Prepend(own, ChildKeys(e.children))
  }

  function NodeKeys(node: Node): Result<seq<string>>
    decreases node
  {
    match node
    case OtherNode => Ok([])
    case ElementNode(c) => UsedKeys(c)
  }

  function ChildKeys(nodes: seq<Node>): Result<seq<string>>
    decreases nodes
  {
    if nodes == [] then Ok([])
    else match NodeKeys(nodes[0])
      case SubstringOutOfRange(v) => SubstringOutOfRange(v)
      case Ok(ks) => Prepend(ks, ChildKeys(nodes[1..]))
  }

  /** `FillKeys` as written: a loop over the attributes that skips keys it
      already holds, then a loop over the child elements that appends each
      child's keys without that check. */
  method FillKeys(element: Element) returns (r: Result<seq<string>>)
    ensures r == UsedKeys(element)
    decreases element
  {
    var result: seq<string> := [];
    var i := 0;
    assert element.attributes[i..] == element.attributes;
    while i < |element.attributes|
      invariant 0 <= i <= |element.attributes|
      invariant OwnKeys(element.attributes, []) == OwnKeys(element.attributes[i..], result)
    {
      var value := element.attributes[i].value;
      ghost var pending := OwnKeys(element.attributes[i..], result);
      ReferenceInBranches(value);
      if StartsWith(value, DynamicResourceString) {
        if |value| - |DynamicResourceString| - 1 < 0 {
          OwnKeysThrow(element.attributes, i, result);
          return SubstringOutOfRange(value);
        }
        var key := Trim(value[|DynamicResourceString|..|value| - 1]);
        OwnKeysFound(element.attributes, i, result, key);
        if key !in result {
          result := result + [key];
        }
      } else if StartsWith(value, StaticResourceString) {
        if |value| - |StaticResourceString| - 1 < 0 {
          OwnKeysThrow(element.attributes, i, result);
          return SubstringOutOfRange(value);
        }
        var key := Trim(value[|StaticResourceString|..|value| - 1]);
        OwnKeysFound(element.attributes, i, result, key);
        if key !in result {
          result := result + [key];
        }
      } else {
        OwnKeysSkip(element.attributes, i, result);
      }
      assert pending == OwnKeys(element.attributes[i + 1..], result);
      assert OwnKeys(element.attributes, []) == OwnKeys(element.attributes[i + 1..], result);
      i := i + 1;
    }
    assert element.attributes[i..] == [];
    assert element.children[0..] == element.children;
    var j := 0;
    while j < |element.children|
      invariant 0 <= j <= |element.children|
      invariant UsedKeys(element) == Prepend(result, ChildKeys(element.children[j..]))
    {
      ChildKeysStep(element.children, j);
      match element.children[j] {
        case OtherNode =>
        case ElementNode(child) =>
          var keys := FillKeys(child);
          if keys.SubstringOutOfRange? {
            return keys;
          }
          PrependTwice(result, keys.value, ChildKeys(element.children[j + 1..]));
          result := result + keys.value;
      }
      j := j + 1;
    }
    assert element.children[j..] == [];
    assert result + [] == result;
    r := Ok(result);
  }

  /** Which branch of `FillKeys` a value takes decides what `ReferenceIn` gives. */
  lemma ReferenceInBranches(value: string)
    ensures StartsWith(value, DynamicResourceString) ==> ReferenceIn(value) == Cut(value, |DynamicResourceString|)
    ensures !StartsWith(value, DynamicResourceString) && StartsWith(value, StaticResourceString) ==>
              ReferenceIn(value) == Cut(value, |StaticResourceString|)
    ensures !StartsWith(value, DynamicResourceString) && !StartsWith(value, StaticResourceString) ==>
              ReferenceIn(value) == Ok(None)
  {
  }

  /** One step of the own-attribute loop, at position `i`, for each outcome of
      the lookup. */
  lemma OwnKeysThrow(attrs: seq<Attr>, i: nat, acc: seq<string>)
    requires i < |attrs| && ReferenceIn(attrs[i].value).SubstringOutOfRange?
    ensures OwnKeys(attrs[i..], acc) == SubstringOutOfRange(attrs[i].value)
  {
    assert attrs[i..][0] == attrs[i];
  }

  lemma OwnKeysSkip(attrs: seq<Attr>, i: nat, acc: seq<string>)
    requires i < |attrs| && ReferenceIn(attrs[i].value) == Ok(None)
    ensures OwnKeys(attrs[i..], acc) == OwnKeys(attrs[i + 1..], acc)
  {
    assert attrs[i..][0] == attrs[i];
    assert attrs[i..][1..] == attrs[i + 1..];
  }

  lemma OwnKeysFound(attrs: seq<Attr>, i: nat, acc: seq<string>, key: string)
    requires i < |attrs| && ReferenceIn(attrs[i].value) == Ok(Some(key))
    ensures OwnKeys(attrs[i..], acc) == OwnKeys(attrs[i + 1..], if key in acc then acc else acc + [key])
  {
    assert attrs[i..][0] == attrs[i];
    assert attrs[i..][1..] == attrs[i + 1..];
  }

  /** One step of the child loop, at position `j`. */
  lemma ChildKeysStep(nodes: seq<Node>, j: nat)
    requires j < |nodes|
    ensures var found := NodeKeys(nodes[j]);
            ChildKeys(nodes[j..]) ==
              if found.SubstringOutOfRange? then SubstringOutOfRange(found.offendingValue)
              else Prepend(found.value, ChildKeys(nodes[j + 1..]))
    ensures nodes[j].OtherNode? ==> ChildKeys(nodes[j..]) == ChildKeys(nodes[j + 1..])
  {
    assert nodes[j..][0] == nodes[j];
    assert nodes[j..][1..] == nodes[j + 1..];
    if nodes[j].OtherNode? {
      match ChildKeys(nodes[j + 1..])
      case Ok(ks) => assert [] + ks == ks;
      case SubstringOutOfRange(v) =>
    }
  }

  lemma PrependTwice(a: seq<string>, b: seq<string>, r: Result<seq<string>>)
    ensures Prepend(a, Prepend(b, r)) == Prepend(a + b, r)
  {
    match r
    case Ok(ks) => assert a + (b + ks) == (a + b) + ks;
    case SubstringOutOfRange(v) =>
  }

  // ---------------------------------------------------------------------------
  // An independent description: the set of referenced keys in a subtree

  /** Keys referred to by one attribute list, as a set. */
  function AttrRefs(attrs: seq<Attr>): set<string>
    decreases |attrs|
  {
    if attrs == [] then {}
    else
      (match ReferenceIn(attrs[0].value)
       case Ok(Some(k)) => {k}
       case _ => {})
      + AttrRefs(attrs[1..])
  }

  /** Some attribute value is exactly one of the two prefixes, which makes
      `Substring` throw. */
  predicate AttrsThrow(attrs: seq<Attr>) {
    exists a :: a in attrs && (a.value == DynamicResourceString || a.value == StaticResourceString)
  }

  function SubtreeRefs(e: Element): set<string>
    decreases e
  {
    AttrRefs(e.attributes) + NodesRefs(e.children)
  }

  function NodesRefs(nodes: seq<Node>): set<string>
    decreases nodes
  {
    if nodes == [] then {}
    else
      (match nodes[0]
       case OtherNode => {}
       case ElementNode(c) => assert c < nodes[0]; SubtreeRefs(c))
      + NodesRefs(nodes[1..])
  }

  predicate SubtreeThrows(e: Element)
    decreases e
  {
    AttrsThrow(e.attributes) || NodesThrow(e.children)
  }

  predicate NodesThrow(nodes: seq<Node>)
    decreases nodes
  {
    nodes != [] &&
    ((match nodes[0]
      case OtherNode => false
      case ElementNode(c) => assert c < nodes[0]; SubtreeThrows(c))
     || NodesThrow(nodes[1..]))
  }

  lemma AttrsThrowSplit(attrs: seq<Attr>)
    requires attrs != []
    ensures AttrsThrow(attrs) <==>
              attrs[0].value == DynamicResourceString || attrs[0].value == StaticResourceString || AttrsThrow(attrs[1..])
  {
    assert attrs == [attrs[0]] + attrs[1..];
  }

  /** The own-attribute loop throws exactly when some value is a bare prefix. */
  lemma {:induction false} OwnKeysThrows(attrs: seq<Attr>, acc: seq<string>)
    ensures OwnKeys(attrs, acc).Ok? <==> !AttrsThrow(attrs)
    decreases |attrs|
  {
    if attrs != [] {
      ReferenceInCases(attrs[0].value);
      AttrsThrowSplit(attrs);
      match ReferenceIn(attrs[0].value)
      case SubstringOutOfRange(v) =>
      case Ok(None) =>
        OwnKeysThrows(attrs[1..], acc);
      case Ok(Some(k)) =>
        OwnKeysThrows(attrs[1..], if k in acc then acc else acc + [k]);
    }
  }

  /** When it does not throw, the loop only extends `acc`, and what it adds are
      exactly the keys the attributes refer to. */
  lemma {:induction false} OwnKeysCollects(attrs: seq<Attr>, acc: seq<string>)
    requires OwnKeys(attrs, acc).Ok?
    ensures acc <= OwnKeys(attrs, acc).value
    ensures (set k | k in OwnKeys(attrs, acc).value) == (set k | k in acc) + AttrRefs(attrs)
    decreases |attrs|
  {
    if attrs != [] {
      match ReferenceIn(attrs[0].value)
      case Ok(None) =>
        OwnKeysCollects(attrs[1..], acc);
      case Ok(Some(k)) =>
        var acc' := if k in acc then acc else acc + [k];
        OwnKeysCollects(attrs[1..], acc');
        assert (set x | x in acc') == (set x | x in acc) + {k};
    }
  }

  /** The loop never adds a key `acc` already holds. */
  lemma {:induction false} OwnKeysDistinct(attrs: seq<Attr>, acc: seq<string>)
    requires OwnKeys(attrs, acc).Ok?
    requires forall i, j :: 0 <= i < j < |acc| ==> acc[i] != acc[j]
    ensures var ks := OwnKeys(attrs, acc).value;
            forall i, j :: 0 <= i < j < |ks| ==> ks[i] != ks[j]
    decreases |attrs|
  {
    if attrs != [] {
      match ReferenceIn(attrs[0].value)
      case Ok(None) =>
        OwnKeysDistinct(attrs[1..], acc);
      case Ok(Some(k)) =>
        OwnKeysDistinct(attrs[1..], if k in acc then acc else acc + [k]);
    }
  }

  lemma PrependSet(keys: seq<string>, r: Result<seq<string>>)
    ensures Prepend(keys, r).Ok? == r.Ok?
    ensures r.Ok? ==> (set k | k in Prepend(keys, r).value) == (set k | k in keys) + (set k | k in r.value)
  {
  }

  /** `FillKeys` throws exactly when some value in the subtree is a bare
      prefix; otherwise the keys it returns are exactly the keys the subtree
      refers to. */
  lemma {:induction false} UsedKeysSpec(e: Element)
    ensures UsedKeys(e).Ok? <==> !SubtreeThrows(e)
    ensures UsedKeys(e).Ok? ==> (set k | k in UsedKeys(e).value) == SubtreeRefs(e)
    decreases e
  {
    OwnKeysThrows(e.attributes, []);
    ChildKeysSpec(e.children);
    if OwnKeys(e.attributes, []).Ok? {
      OwnKeysCollects(e.attributes, []);
      PrependSet(OwnKeys(e.attributes, []).value, ChildKeys(e.children));
    }
  }

  lemma {:induction false} ChildKeysSpec(nodes: seq<Node>)
    ensures ChildKeys(nodes).Ok? <==> !NodesThrow(nodes)
    ensures ChildKeys(nodes).Ok? ==> (set k | k in ChildKeys(nodes).value) == NodesRefs(nodes)
    decreases nodes
  {
    if nodes != [] {
      ChildKeysSpec(nodes[1..]);
      match nodes[0]
      case OtherNode =>
        PrependSet([], ChildKeys(nodes[1..]));
      case ElementNode(c) =>
        assert c < nodes[0];
        UsedKeysSpec(c);
        if UsedKeys(c).Ok? {
          PrependSet(UsedKeys(c).value, ChildKeys(nodes[1..]));
        }
    }
  }

  /** The element's own keys come first and are pairwise distinct; the keys
      of its descendants follow them unchecked. */
  lemma OwnKeysFirst(e: Element)
    requires UsedKeys(e).Ok?
    ensures exists own, rest ::
              && UsedKeys(e).value == own + rest
              && (set k | k in own) == AttrRefs(e.attributes)
              && (forall i, j :: 0 <= i < j < |own| ==> own[i] != own[j])
              && ChildKeys(e.children) == Ok(rest)
  {
    OwnKeysCollects(e.attributes, []);
    OwnKeysDistinct(e.attributes, []);
    var own := OwnKeys(e.attributes, []).value;
    var rest := ChildKeys(e.children).value;
    assert UsedKeys(e).value == own + rest;
  }

  /** `{StaticResource Base}` refers to `Base`. */
  lemma StaticBaseReference()
    ensures ReferenceIn("{StaticResource Base}") == Ok(Some("Base"))
  {
    assert "{StaticResource Base}" == StaticResourceString + "Base" + ['}'];
    ReferenceBetween(StaticResourceString, "Base", '}');
    assert Trim("Base") == "Base" by {
      assert !IsWhiteSpace('B') && !IsWhiteSpace('e');
    }
  }

  /** A single attribute referring to `Base` yields the own keys `["Base"]`. */
  lemma SingleReference(attrs: seq<Attr>)
    requires |attrs| == 1 && attrs[0].value == "{StaticResource Base}"
    ensures OwnKeys(attrs, []) == Ok(["Base"])
  {
    StaticBaseReference();
    OwnKeysFound(attrs, 0, [], "Base");
    assert attrs[0..] == attrs && attrs[1..] == [];
    var one: seq<string> := ["Base"];
    assert [] + one == one;
    assert OwnKeys(attrs[1..], one) == Ok(one);
  }

  /** A key referred to by both an element and its child is listed twice. */
  lemma DescendantKeysNotDeduplicated()
    ensures UsedKeys(Element("", "Style", [Attr("", "BasedOn", "{StaticResource Base}")],
                             [ElementNode(Element("", "Setter", [Attr("", "Value", "{StaticResource Base}")], []))]))
            == Ok(["Base", "Base"])
  {
    var setter := Element("", "Setter", [Attr("", "Value", "{StaticResource Base}")], []);
    SingleReference(setter.attributes);
    assert ChildKeys(setter.children) == Ok([]) && ["Base"] + [] == ["Base"];
    assert UsedKeys(setter) == Ok(["Base"]);
    var nodes := [ElementNode(setter)];
    assert nodes[1..] == [];
    assert ChildKeys(nodes) == Ok(["Base"]);
    var style := Element("", "Style", [Attr("", "BasedOn", "{StaticResource Base}")], nodes);
    SingleReference(style.attributes);
    assert UsedKeys(style) == Prepend(["Base"], ChildKeys(nodes));
    assert ["Base"] + ["Base"] == ["Base", "Base"];
  }


}
