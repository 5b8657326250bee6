/** `Combiner.Combine` (src/Combiner.cs:39-177): folds the source resource
    dictionaries into one result root, then orders the kept resources and
    appends them to it. */
module Combiner {
  import opened Xml
  import opened Resources
  import opened References
  import opened NamespacePrefix
  import opened Namespaces
  import opened Collection
  import opened Ordering

  /** The elements of the ordered entries, as child nodes. */
  function ElementNodes(order: seq<ResourceElement>): (r: seq<Node>)
    ensures |r| == |order| && forall i :: 0 <= i < |order| ==> r[i] == ElementNode(order[i].element)
  {
    seq(|order|, i requires 0 <= i < |order| => ElementNode(order[i].element))
  }

  /** Lines 90-99: the `foreach` over the result root's attributes that stops
      at the first one whose value is `v`. */
  method SearchValue(attrs: seq<Attr>, v: string) returns (r: Option<nat>)
    ensures r == FindValue(attrs, v)
  {
    var m := 0;
    while m < |attrs|
      invariant 0 <= m <= |attrs|
      invariant forall k :: 0 <= k < m ==> attrs[k].value != v
    {
      if v == attrs[m].value {
        return Some(m);
      }
      m := m + 1;
    }
    return None;
  }

  /** `rootNode`, the `ResourceDictionary` element of the result document,
      whose attributes and children the merge extends in place. */
  class ResultRoot {
    var attributes: seq<Attr>
    var children: seq<Node>

    constructor ()
      ensures attributes == [] && children == []
    {
      attributes := [];
      children := [];
    }

    /** `rootNode.AppendChild(resourceElement.Element)`. */
    method AppendChild(e: Element)
      modifies this
      ensures children == old(children) + [ElementNode(e)]
      ensures attributes == old(attributes)
    {
      children := children + [ElementNode(e)];
    }

    /** Lines 168-169: the ordered elements appended one by one. */
    method AppendElements(order: seq<ResourceElement>)
      modifies this
      ensures children == old(children) + ElementNodes(order)
      ensures attributes == old(attributes)
    {
      var i := 0;
      while i < |order|
        invariant 0 <= i <= |order|
        invariant children == old(children) + ElementNodes(order[..i])
        invariant attributes == old(attributes)
      {
        AppendChild(order[i].element);
        assert ElementNodes(order[..i + 1]) == ElementNodes(order[..i]) + [ElementNode(order[i].element)];
        i := i + 1;
      }
      assert order[..i] == order;
    }

    /** Lines 64-109: the loop over the source root's attributes. The source
        root `root` is a local copy that the loop rewrites: `SetAttribute`
        may append to it, which extends the loop. */
    method MergeNamespaces(source: Element) returns (r: MergeOutcome)
      modifies this
      ensures r == MergeAll(old(attributes), source)
      ensures r.Merged? ==> attributes == r.rootAttributes
      ensures children == old(children)
    {
      var root := source;
      ghost var n0 := |source.attributes|;
      ghost var outcome := MergeAll(attributes, source);
      var j := 0;
      while j < |root.attributes|
        invariant j <= |root.attributes| && Appended(attributes, root.attributes, n0)
        invariant MergeFrom(attributes, root, n0, j) == outcome
        invariant children == old(children)
        decreases Measure(n0, j, |root.attributes|)
      {
        ghost var before := attributes;
        var st := MergeAttribute(root, j);
        MergeFromStep(before, root, n0, j);
        if st.Loop? {
          return AliasLoop(st.alias);
        }
        if st.Rejected? {
          return RenameRejected(st.prefix);
        }
        root := st.src;
        j := j + 1;
      }
      r := Merged(attributes, root);
    }

    /** Lines 66-108: the body of that loop for the attribute at position `j`:
        skip it, alias a clashing prefix, reuse a prefix already bound to its
        namespace, or copy it onto the result root. */
    method MergeAttribute(root: Element, j: nat) returns (st: Step)
      requires j < |root.attributes|
      modifies this
      ensures st == MergeStep(old(attributes), root, j)
      ensures st.Next? ==> attributes == st.root
      ensures children == old(children)
    {
      var attr := root.attributes[j];
      if HasAttribute(attributes, AttrName(attr)) {
        if attr.value == AttributeValue(attributes, AttrName(attr)) || attr.prefix != "xmlns" {
          return Next(attributes, root);
        }
        var name := attr.localName + "_" + "0";
        if HasAttribute(attributes, "xmlns:" + name) {
          return Loop("xmlns:" + name);
        }
        var src := root.(attributes := SetAttribute(root.attributes, "xmlns", name, attr.value));
        var renamed := ChangeNamespacePrefix(src, attr.localName, name);
        if renamed.None? {
          return Rejected(name);
        }
        attributes := attributes + [Attr("xmlns", name, attr.value)];
        return Next(attributes, renamed.value);
      }
      var found: Option<nat> := None;
      if attr.prefix == "xmlns" {
        found := SearchValue(attributes, attr.value);
      }
      if found.Some? {
        var m := found.value;
        var src := root.(attributes := SetAttribute(root.attributes, attr.prefix, attr.localName, attr.value));
        var renamed := ChangeNamespacePrefix(src, attr.localName, attributes[m].localName);
        if renamed.None? {
          return Rejected(attributes[m].localName);
        }
        return Next(attributes, renamed.value);
      }
      attributes := attributes + [attr];
      return Next(attributes, root);
    }
  }

  /** The two exceptions the core itself can throw: `Substring` on a bare
      `{DynamicResource `/`{StaticResource ` value, and the `ArgumentException`
      of an attribute's prefix setter when `ChangeNamespacePrefix` renames it
      to a prefix the attribute's namespace refuses. */
  datatype Thrown =
    | SubstringThrown(offendingValue: string)
    | PrefixThrown(prefix: string)

  /** How `Combine` ends: with the result root written out, with an exception
      caught and logged (nothing is written), or in one of the two endless
      loops. */
  datatype CombineOutcome =
    | Combined(rootAttributes: seq<Attr>, entries: seq<ResourceElement>, order: seq<ResourceElement>)
    | ExceptionLogged(thrown: Thrown)
    | AliasNeverEnds(alias: string)
    | OrderingNeverEnds(order: seq<ResourceElement>, stuck: seq<ResourceElement>)

  /** What one source does to the running state: it either hands on the new
      result-root attributes and kept entries, or ends the merge. */
  datatype SourceStep =
    | Continue(root: seq<Attr>, list: seq<ResourceElement>)
    | Stop(outcome: CombineOutcome)

  /** Lines 57-137 for one source: a document without a root element
      (`DocumentElement == null`) is skipped; otherwise its declarations are
      merged, then its children collected. */
  function AddSource(source: Option<Element>, root: seq<Attr>, list: seq<ResourceElement>): SourceStep {
    if source.None? then Continue(root, list)
    else match MergeAll(root, source.value)
      case AliasLoop(a) => Stop(AliasNeverEnds(a))
      case RenameRejected(p) => Stop(ExceptionLogged(PrefixThrown(p)))
      case Merged(root', src) =>
        match CollectFrom(src.children, list)
        case SubstringOutOfRange(v) => Stop(ExceptionLogged(SubstringThrown(v)))
        case Ok(list') => Continue(root', list')
  }

  /** Lines 140-169 once every source is in: the ordering of the kept entries. */
  function Finish(root: seq<Attr>, list: seq<ResourceElement>): CombineOutcome {
    match Order(list, IndexOf(list))
    case Ordered(o) => Combined(root, list, o)
    case NeverTerminates(o, s) => OrderingNeverEnds(o, s)
  }

  /** The remaining sources folded onto a result root with attributes `root`
      and the kept entries `list`. */
  function CombineFrom(sources: seq<Option<Element>>, root: seq<Attr>, list: seq<ResourceElement>): CombineOutcome
    decreases |sources|
  {
    if sources == [] then Finish(root, list)
    else match AddSource(sources[0], root, list)
      case Stop(o) => o
      case Continue(root', list') => CombineFrom(sources[1..], root', list')
  }

  /** The whole merge, from an empty result root. */
  function CombineAll(sources: seq<Option<Element>>): CombineOutcome {
    CombineFrom(sources, [], [])
  }

  /** One pass of the loop over the sources (lines 57-137), on the result
      root and the running `keys`, `resourceElements` and `resourcesList`. */
  method AddSourceTo(rootNode: ResultRoot, source: Option<Element>, keys0: seq<string>,
                     index0: map<string, ResourceElement>, list: seq<ResourceElement>)
    returns (step: SourceStep, keys: seq<string>, index: map<string, ResourceElement>)
    requires keys0 == Keys(list) && index0 == IndexOf(list)
    modifies rootNode
    ensures step == AddSource(source, old(rootNode.attributes), list)
    ensures step.Continue? ==>
              rootNode.attributes == step.root && keys == Keys(step.list) && index == IndexOf(step.list)
    ensures rootNode.children == old(rootNode.children)
  {
    if source.None? {
      return Continue(rootNode.attributes, list), keys0, index0;
    }
    var merged := rootNode.MergeNamespaces(source.value);
    if merged.AliasLoop? {
      return Stop(AliasNeverEnds(merged.alias)), keys0, index0;
    }
    if merged.RenameRejected? {
      return Stop(ExceptionLogged(PrefixThrown(merged.prefix))), keys0, index0;
    }
    var collected;
    collected, keys, index := CollectResources(merged.source.children, keys0, index0, list);
    if collected.SubstringOutOfRange? {
      return Stop(ExceptionLogged(SubstringThrown(collected.offendingValue))), keys, index;
    }
    step := Continue(rootNode.attributes, collected.value);
  }

  /** `Combine` as written: a loop over the sources, then the ordering, then
      the loop that appends the ordered elements to the result root. */
  method Combine(sources: seq<Option<Element>>) returns (outcome: CombineOutcome, rootNode: ResultRoot)
    ensures outcome == CombineAll(sources)
    ensures outcome.Combined? ==>
              rootNode.attributes == outcome.rootAttributes && rootNode.children == ElementNodes(outcome.order)
  {
    rootNode := new ResultRoot();
    var keys: seq<string> := [];
    var resourceElements: map<string, ResourceElement> := map[];
    var resourcesList: seq<ResourceElement> := [];
    var s := 0;
    while s < |sources|
      invariant 0 <= s <= |sources|
      invariant CombineFrom(sources[s..], rootNode.attributes, resourcesList) == CombineAll(sources)
      invariant keys == Keys(resourcesList) && resourceElements == IndexOf(resourcesList)
      invariant rootNode.children == []
    {
      assert sources[s..][0] == sources[s] && sources[s..][1..] == sources[s + 1..];
      var step;
      step, keys, resourceElements := AddSourceTo(rootNode, sources[s], keys, resourceElements, resourcesList);
      if step.Stop? {
        return step.outcome, rootNode;
      }
      resourcesList := step.list;
      s := s + 1;
    }
    assert sources[s..] == [];
    var ordered := OrderResources(resourcesList, resourceElements);
    if ordered.NeverTerminates? {
      return OrderingNeverEnds(ordered.order, ordered.stuck), rootNode;
    }
    var finalOrderList := ordered.order;
    rootNode.AppendElements(finalOrderList);
    outcome := Combined(rootNode.attributes, resourcesList, finalOrderList);
  }

  // ---------------------------------------------------------------------------
  // What the whole merge guarantees

  /** Every kept entry that `e` refers to by key is among `done`. */
  ghost predicate RefersOnlyTo(e: ResourceElement, entries: seq<ResourceElement>, done: seq<ResourceElement>) {
    forall k, t :: k in e.usedKeys && 0 <= t < |entries| && entries[t].key == k ==> entries[t] in done
  }

  /** Folding the remaining sources keeps the root's declarations and the kept
      keys unique; a completed merge emits every kept entry exactly once, each
      after the kept entries it refers to; an ordering that never ends is stuck
      on entries that each refer to another stuck entry. */
  lemma {:induction false} CombineFromSpec(sources: seq<Option<Element>>, root: seq<Attr>, list: seq<ResourceElement>)
    requires NamesUnique(root) && KeysUnique(list)
    ensures var r := CombineFrom(sources, root, list);
            r.Combined? ==>
              && root <= r.rootAttributes && NamesUnique(r.rootAttributes)
              && list <= r.entries && KeysUnique(r.entries)
              && multiset(r.order) == multiset(r.entries)
              && forall j :: 0 <= j < |r.order| ==> RefersOnlyTo(r.order[j], r.entries, r.order[..j])
    ensures var r := CombineFrom(sources, root, list);
            r.OrderingNeverEnds? ==>
              && r.stuck != []
              && forall e :: e in r.stuck ==> exists k, s :: k in e.usedKeys && s in r.stuck && s.key == k
    decreases |sources|
  {
    if sources == [] {
      var index := IndexOf(list);
      var o := Order(list, index);
      IndexOfMatches(list);
      if o.Ordered? {
        OrderIsPermutation(list, index);
        OrderIsSound(list, index);
        forall j | 0 <= j < |o.order|
          ensures RefersOnlyTo(o.order[j], list, o.order[..j])
        {
          assert Ready(o.order[j], index, o.order[..j]);
          forall k, t | k in o.order[j].usedKeys && 0 <= t < |list| && list[t].key == k
            ensures list[t] in o.order[..j]
          {
            assert list[t] in list;
          }
        }
      } else {
        StuckEntriesReferToStuck(list, index);
        forall e | e in o.stuck
          ensures exists k, s :: k in e.usedKeys && s in o.stuck && s.key == k
        {
          var k :| k in e.usedKeys && k in index && index[k] in o.stuck;
          assert index[k].key == k;
        }
      }
    } else {
      AddSourceSpec(sources[0], root, list);
      match AddSource(sources[0], root, list)
      case Stop(_) =>
      case Continue(root', list') =>
        CombineFromSpec(sources[1..], root', list');
    }
  }

  /** One source keeps the root's declarations and the kept keys unique. */
  lemma AddSourceSpec(source: Option<Element>, root: seq<Attr>, list: seq<ResourceElement>)
    requires NamesUnique(root) && KeysUnique(list)
    ensures var st := AddSource(source, root, list);
            st.Continue? ==> root <= st.root && NamesUnique(st.root) && list <= st.list && KeysUnique(st.list)
  {
    if source.Some? {
      MergeAllSpec(root, source.value);
      match MergeAll(root, source.value)
      case AliasLoop(_) =>
      case RenameRejected(_) =>
      case Merged(root', src) =>
        if CollectFrom(src.children, list).Ok? {
          CollectExtends(src.children, list);
        }
    }
  }

  /** The whole merge, from an empty result root and no kept entries. */
  lemma CombineAllSpec(sources: seq<Option<Element>>)
    ensures var r := CombineAll(sources);
            r.Combined? ==>
              && NamesUnique(r.rootAttributes) && KeysUnique(r.entries)
              && multiset(r.order) == multiset(r.entries)
              && forall j :: 0 <= j < |r.order| ==> RefersOnlyTo(r.order[j], r.entries, r.order[..j])
    ensures var r := CombineAll(sources);
            r.OrderingNeverEnds? ==>
              && r.stuck != []
              && forall e :: e in r.stuck ==> exists k, s :: k in e.usedKeys && s in r.stuck && s.key == k
  {
    CombineFromSpec(sources, [], []);
  }

  /** A first source declaring the default namespace `urn:p`, then a source
      that declares `urn:p` as `xmlns:p` and has a `p:Tag` attribute below:
      the rename to `xmlns` throws, and the merge ends with that exception
      logged. */
  lemma DefaultPrefixAttributeLogged()
    ensures CombineAll([Some(Element("", "ResourceDictionary", [Attr("", "xmlns", "urn:p")], [])),
                        Some(Element("", "ResourceDictionary", [Attr("xmlns", "p", "urn:p")],
                                     [ElementNode(Element("", "Button", [Attr("p", "Tag", "v")], []))]))])
            == ExceptionLogged(PrefixThrown("xmlns"))
  {
    var first := Element("", "ResourceDictionary", [Attr("", "xmlns", "urn:p")], []);
    var second := Element("", "ResourceDictionary", [Attr("xmlns", "p", "urn:p")],
                          [ElementNode(Element("", "Button", [Attr("p", "Tag", "v")], []))]);
    var root := [Attr("", "xmlns", "urn:p")];
    assert AttrName(first.attributes[0]) == "xmlns";
    assert MergeStep([], first, 0) == Next(root, first);
    assert MergeAll([], first) == Merged(root, first) by {
      assert Appended(root, first.attributes, 1);
      assert MergeFrom([], first, 1, 0) == MergeFrom(root, first, 1, 1);
    }
    assert CollectFrom([], []) == Ok([]);
    assert AddSource(Some(first), [], []) == Continue(root, []);
    DefaultNamespaceReuseThrows();
    assert AddSource(Some(second), root, []) == Stop(ExceptionLogged(PrefixThrown("xmlns")));
  }

  // ---------------------------------------------------------------------------
  // Writing the result (lines 277-296)

  /** What `WriteResultFile` leaves behind: whether the temporary file was
      copied over the result file, and the result file's text afterwards. */
  datatype WriteOutcome = WriteOutcome(copied: bool, result: string)

  /** `existing` is the result file's text, `None` if there is no such file;
      `text` is what `Save` wrote to the temporary file. */
  function WriteResultFile(existing: Option<string>, text: string): (r: WriteOutcome)
    ensures r.result == text
    ensures r.copied <==> existing != Some(text)
  {
    if existing.None? || existing.value != text then WriteOutcome(true, text) else WriteOutcome(false, existing.value)
  }

  /** Writing the same text a second time leaves the file untouched. */
  lemma WriteTwiceCopiesOnce(existing: Option<string>, text: string)
    ensures !WriteResultFile(Some(WriteResultFile(existing, text).result), text).copied
  {
  }
}
