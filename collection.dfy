/** Key selection and the collection of keyed resources from the children of
    a source root (src/Combiner.cs:111-137). */
module Collection {
  import opened Xml
  import opened Resources
  import opened References

  const MergedDictionariesName := "ResourceDictionary.MergedDictionaries"

  /** Lines 118-124: the value of `Key`, else of `x:Key`, else of
      `TargetType`; the empty string when none of the three is present. */
  function ResourceKey(attrs: seq<Attr>): string {
    if HasAttribute(attrs, "Key") then AttributeValue(attrs, "Key")
    else if HasAttribute(attrs, "x:Key") then AttributeValue(attrs, "x:Key")
    else if HasAttribute(attrs, "TargetType") then AttributeValue(attrs, "TargetType")
    else ""
  }

  /** The first attribute named `Key` decides, even when its value is empty;
      `x:Key` counts only without `Key`, `TargetType` only without both. */
  lemma KeyChoice(attrs: seq<Attr>, i: nat)
    ensures FirstNamed(attrs, i, "Key") ==> ResourceKey(attrs) == attrs[i].value
    ensures !HasAttribute(attrs, "Key") && FirstNamed(attrs, i, "x:Key") ==> ResourceKey(attrs) == attrs[i].value
    ensures !HasAttribute(attrs, "Key") && !HasAttribute(attrs, "x:Key") && FirstNamed(attrs, i, "TargetType") ==>
              ResourceKey(attrs) == attrs[i].value
    ensures (forall k :: 0 <= k < |attrs| ==> AttrName(attrs[k]) !in {"Key", "x:Key", "TargetType"}) ==>
              ResourceKey(attrs) == ""
  {
    if FirstNamed(attrs, i, "Key") {
      FindIsFirst(attrs, i, "Key");
    }
    if FirstNamed(attrs, i, "x:Key") {
      FindIsFirst(attrs, i, "x:Key");
    }
    if FirstNamed(attrs, i, "TargetType") {
      FindIsFirst(attrs, i, "TargetType");
    }
  }

  /** A child node the loop looks at: an element other than
      `ResourceDictionary.MergedDictionaries`. */
  predicate Eligible(node: Node) {
    node.ElementNode? && ElementName(node.element) != MergedDictionariesName
  }

  /** The entry an eligible child with a fresh, non-empty key becomes. */
  ghost predicate BuiltFrom(entry: ResourceElement, nodes: seq<Node>) {
    && ElementNode(entry.element) in nodes
    && Eligible(ElementNode(entry.element))
    && entry.key != ""
    && entry.key == ResourceKey(entry.element.attributes)
    && UsedKeys(entry.element) == Ok(entry.usedKeys)
  }

  /** One child of a source root (lines 113-136): skipped unless it is an
      eligible element whose key is non-empty and not yet registered;
      otherwise registered with the keys `FillKeys` finds in it. */
  function CollectOne(node: Node, list: seq<ResourceElement>): Result<seq<ResourceElement>> {
    if !Eligible(node) then Ok(list)
    else
      var e := node.element;
      var key := ResourceKey(e.attributes);
      if key == "" || key in Keys(list) then Ok(list)
      else match UsedKeys(e)
        case SubstringOutOfRange(v) => SubstringOutOfRange(v)
        case Ok(used) => Ok(list + [ResourceElement(key, e, used)])
  }

  /** The loop of lines 111-137 over the children of one source root,
      continuing the list `list` built from earlier sources. `FillKeys` may
      throw, which abandons the whole merge. */
  function CollectFrom(nodes: seq<Node>, list: seq<ResourceElement>): Result<seq<ResourceElement>>
    decreases |nodes|
  {
    if nodes == [] then Ok(list)
    else match CollectOne(nodes[0], list)
      case SubstringOutOfRange(v) => SubstringOutOfRange(v)
      case Ok(list') => CollectFrom(nodes[1..], list')
  }

  /** The loop as written, keeping `keys`, `resourceElements` and
      `resourcesList` in step. */
  method CollectResources(nodes: seq<Node>, keys0: seq<string>, index0: map<string, ResourceElement>,
                          list0: seq<ResourceElement>)
    returns (r: Result<seq<ResourceElement>>, keys: seq<string>, index: map<string, ResourceElement>)
    requires keys0 == Keys(list0) && index0 == IndexOf(list0)
    ensures r == CollectFrom(nodes, list0)
    ensures r.Ok? ==> keys == Keys(r.value) && index == IndexOf(r.value)
  {
    keys, index := keys0, index0;
    var list := list0;
    var i := 0;
    assert nodes[i..] == nodes;
    while i < |nodes|
      invariant 0 <= i <= |nodes|
      invariant keys == Keys(list) && index == IndexOf(list)
      invariant CollectFrom(nodes, list0) == CollectFrom(nodes[i..], list)
    {
      CollectStep(nodes, i, list);
      var node := nodes[i];
      if node.ElementNode? && ElementName(node.element) != MergedDictionariesName {
        var imported := node.element;
        var key := ResourceKey(imported.attributes);
        if key != "" && key !in keys {
          keys := keys + [key];
          var used := FillKeys(imported);
          if used.SubstringOutOfRange? {
            return SubstringOutOfRange(used.offendingValue), keys, index;
          }
          var res := ResourceElement(key, imported, used.value);
          index := index[key := res];
          assert (list + [res])[..|list|] == list && (list + [res])[|list|] == res;
          assert IndexOf(list + [res]) == index;
          KeysAppend(list, res);
          list := list + [res];
        }
      }
      i := i + 1;
    }
    assert nodes[i..] == [];
    r := Ok(list);
  }

  /** One step of the loop at position `i`. */
  lemma CollectStep(nodes: seq<Node>, i: nat, list: seq<ResourceElement>)
    requires i < |nodes|
    ensures CollectOne(nodes[i], list).Ok? ==>
              CollectFrom(nodes[i..], list) == CollectFrom(nodes[i + 1..], CollectOne(nodes[i], list).value)
    ensures CollectOne(nodes[i], list).SubstringOutOfRange? ==> CollectFrom(nodes[i..], list) == CollectOne(nodes[i], list)
  {
    assert nodes[i..][0] == nodes[i] && nodes[i..][1..] == nodes[i + 1..];
  }

  lemma KeysOfPrefix(a: seq<ResourceElement>, b: seq<ResourceElement>)
    requires a <= b
    ensures forall k :: k in Keys(a) ==> k in Keys(b)
  {
    forall k | k in Keys(a)
      ensures k in Keys(b)
    {
      var t :| 0 <= t < |a| && Keys(a)[t] == k;
      assert Keys(b)[t] == k;
    }
  }

  /** One child: the list only grows, by at most an entry built from that
      child, and its keys stay distinct. */
  lemma CollectOneExtends(node: Node, list: seq<ResourceElement>)
    requires CollectOne(node, list).Ok?
    ensures list <= CollectOne(node, list).value
    ensures var r := CollectOne(node, list).value;
            forall t :: |list| <= t < |r| ==> BuiltFrom(r[t], [node])
    ensures KeysUnique(list) ==> KeysUnique(CollectOne(node, list).value)
  {
    var r := CollectOne(node, list).value;
    if |r| > |list| {
      assert r[|list|].key !in Keys(list);
      assert forall t :: 0 <= t < |list| ==> list[t].key in Keys(list);
    }
  }

  /** The collected list only grows; every new entry comes from an eligible
      child with a non-empty key, carries that child's `FillKeys` result, and
      no key is registered twice. */
  lemma {:induction false} CollectExtends(nodes: seq<Node>, list: seq<ResourceElement>)
    requires CollectFrom(nodes, list).Ok?
    ensures list <= CollectFrom(nodes, list).value
    ensures var r := CollectFrom(nodes, list).value;
            forall t :: |list| <= t < |r| ==> BuiltFrom(r[t], nodes)
    ensures KeysUnique(list) ==> KeysUnique(CollectFrom(nodes, list).value)
    decreases |nodes|
  {
    if nodes != [] {
      var list' := CollectOne(nodes[0], list).value;
      CollectOneExtends(nodes[0], list);
      CollectExtends(nodes[1..], list');
      var r := CollectFrom(nodes, list).value;
      forall t | |list| <= t < |r|
        ensures BuiltFrom(r[t], nodes)
      {
        if t < |list'| {
          assert BuiltFrom(r[t], [nodes[0]]);
        } else {
          assert BuiltFrom(r[t], nodes[1..]);
          assert ElementNode(r[t].element) in nodes[1..];
        }
      }
    }
  }

  /** No eligible child with a non-empty key is lost: its key is registered
      afterwards, by it or by an earlier element with the same key. */
  lemma {:induction false} CollectCovers(nodes: seq<Node>, list: seq<ResourceElement>)
    requires CollectFrom(nodes, list).Ok?
    ensures forall n :: n in nodes && Eligible(n) && ResourceKey(n.element.attributes) != "" ==>
              ResourceKey(n.element.attributes) in Keys(CollectFrom(nodes, list).value)
    decreases |nodes|
  {
    if nodes != [] {
      var list' := CollectOne(nodes[0], list).value;
      var r := CollectFrom(nodes, list).value;
      CollectCovers(nodes[1..], list');
      CollectExtends(nodes[1..], list');
      KeysOfPrefix(list', r);
      forall n | n in nodes && Eligible(n) && ResourceKey(n.element.attributes) != ""
        ensures ResourceKey(n.element.attributes) in Keys(r)
      {
        if n == nodes[0] {
          var key := ResourceKey(n.element.attributes);
          if key !in Keys(list) {
            assert list'[|list|].key == key;
          } else {
            KeysOfPrefix(list, list');
          }
        } else {
          assert n in nodes[1..];
        }
      }
    }
  }

  /** The first eligible child with a fresh key wins: its element is the one
      registered under that key. */
  lemma {:induction false} CollectFirstWins(nodes: seq<Node>, list: seq<ResourceElement>, p: nat)
    requires CollectFrom(nodes, list).Ok?
    requires p < |nodes| && Eligible(nodes[p])
    requires ResourceKey(nodes[p].element.attributes) != "" && ResourceKey(nodes[p].element.attributes) !in Keys(list)
    requires forall q :: 0 <= q < p && Eligible(nodes[q]) ==>
               ResourceKey(nodes[q].element.attributes) != ResourceKey(nodes[p].element.attributes)
    ensures exists t :: 0 <= t < |CollectFrom(nodes, list).value|
                        && CollectFrom(nodes, list).value[t].key == ResourceKey(nodes[p].element.attributes)
                        && CollectFrom(nodes, list).value[t].element == nodes[p].element
    decreases |nodes|
  {
    var list' := CollectOne(nodes[0], list).value;
    var key := ResourceKey(nodes[p].element.attributes);
    if p == 0 {
      CollectExtends(nodes[1..], list');
      assert CollectFrom(nodes, list).value[|list|] == list'[|list|];
    } else {
      assert nodes[1..][p - 1] == nodes[p];
      assert forall q :: 0 <= q < p - 1 ==> nodes[1..][q] == nodes[q + 1];
      CollectOneOtherKey(nodes[0], list, key);
      CollectFirstWins(nodes[1..], list', p - 1);
    }
  }

  /** A child whose key differs from `key` does not register `key`. */
  lemma CollectOneOtherKey(node: Node, list: seq<ResourceElement>, key: string)
    requires CollectOne(node, list).Ok? && key !in Keys(list)
    requires Eligible(node) ==> ResourceKey(node.element.attributes) != key
    ensures key !in Keys(CollectOne(node, list).value)
  {
    var r := CollectOne(node, list).value;
    if |r| > |list| {
      assert r == list + [r[|list|]];
      assert Keys(r) == Keys(list) + [r[|list|].key];
    }
  }

  /** The collection fails only on an eligible child with a fresh key whose
      subtree holds a bare `{DynamicResource ` or `{StaticResource ` value. */
  lemma {:induction false} CollectFails(nodes: seq<Node>, list: seq<ResourceElement>)
    requires CollectFrom(nodes, list).SubstringOutOfRange?
    ensures exists n :: n in nodes && Eligible(n) && ResourceKey(n.element.attributes) != ""
                        && SubtreeThrows(n.element)
    decreases |nodes|
  {
    assert nodes != [];
    if CollectOne(nodes[0], list).Ok? {
      CollectFails(nodes[1..], CollectOne(nodes[0], list).value);
      var n :| n in nodes[1..] && Eligible(n) && ResourceKey(n.element.attributes) != "" && SubtreeThrows(n.element);
      assert n in nodes;
    } else {
      UsedKeysSpec(nodes[0].element);
      assert nodes[0] in nodes;
    }
  }
}
