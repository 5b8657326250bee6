/** The merge of a source root's attributes, namespace declarations above
    all, onto the result root (src/Combiner.cs:64-109). */
module Namespaces {
  import opened Xml
  import opened NamespacePrefix

  /** How the merge of one source root ends: with the new result-root
      attributes and the rewritten source root, in the `do`/`while` loop
      that never ends because the alias it would pick is already declared, or
      with the exception a descendant attribute's prefix setter throws when
      renamed to `prefix`. */
  datatype MergeOutcome =
    | Merged(rootAttributes: seq<Attr>, source: Element)
    | AliasLoop(alias: string)
    | RenameRejected(prefix: string)

  /** The only alias the code ever tries: the index is the constant 0. */
  function Alias(localName: string): (r: string)
    ensures |r| == |localName| + 2 && r[..|localName|] == localName
  {
    localName + "_" + "0"
  }

  /** The first result-root attribute whose value is `v`: the one the
      `foreach` over `rootNode.Attributes` stops at. */
  function FindValue(attrs: seq<Attr>, v: string): (r: Option<nat>)
    ensures r.Some? ==> r.value < |attrs| && attrs[r.value].value == v
                        && forall k :: 0 <= k < r.value ==> attrs[k].value != v
    ensures r.None? <==> forall k :: 0 <= k < |attrs| ==> attrs[k].value != v
  {
    if attrs == [] then None
    else if attrs[0].value == v then Some(0)
    else match FindValue(attrs[1..], v)
      case None => None
      case Some(m) => Some(m + 1)
  }

  /** The source attributes from position `n0` on were appended by the merge
      itself: each one's name is on the result root with the same value. */
  ghost predicate Appended(root: seq<Attr>, src: seq<Attr>, n0: nat) {
    n0 <= |src|
    && forall t :: n0 <= t < |src| ==>
         HasAttribute(root, AttrName(src[t])) && AttributeValue(root, AttrName(src[t])) == src[t].value
  }

  /** The loop bound grows by at most one for each original attribute. */
  function Measure(n0: nat, j: nat, count: nat): nat
    requires j <= count
  {
    (if j < n0 then n0 - j else 0) + (count - j)
  }

  /** The state after one attribute, the endless alias loop, or the throw of
      `ChangeNamespacePrefix` renaming to `prefix`. */
  datatype Step =
    | Next(root: seq<Attr>, src: Element)
    | Loop(alias: string)
    | Rejected(prefix: string)

  /** The body of the loop for the source attribute at position `j`. */
  function MergeStep(root: seq<Attr>, src: Element, j: nat): (r: Step)
    requires j < |src.attributes|
    ensures r.Next? ==> root <= r.root && |r.root| <= |root| + 1
  {
    var attr := src.attributes[j];
    var name := AttrName(attr);
    if HasAttribute(root, name) then
      if attr.value == AttributeValue(root, name) || attr.prefix != "xmlns" then Next(root, src)
      else
        var alias := Alias(attr.localName);
        if HasAttribute(root, "xmlns:" + alias) then Loop("xmlns:" + alias)
        else if NodesThrow(src.children, attr.localName, alias) then Rejected(alias)
        else
          var attrs' := SetAttribute(src.attributes, "xmlns", alias, attr.value);
          Next(root + [Attr("xmlns", alias, attr.value)],
               RenameDescendants(src.(attributes := attrs'), attr.localName, alias))
    else
      var found := if attr.prefix == "xmlns" then FindValue(root, attr.value) else None;
      if found.Some? then
        var target := root[found.value].localName;
        if NodesThrow(src.children, attr.localName, target) then Rejected(target)
        else
          var attrs' := SetAttribute(src.attributes, attr.prefix, attr.localName, attr.value);
          Next(root, RenameDescendants(src.(attributes := attrs'), attr.localName, target))
      else
        Next(root + [attr], src)
  }

  /** The loop from position `j` on; `n0` is the attribute count the source
      root had when its merge started. */
  function MergeFrom(root: seq<Attr>, src: Element, n0: nat, j: nat): (r: MergeOutcome)
    requires j <= |src.attributes| && Appended(root, src.attributes, n0)
    ensures r.Merged? ==> root <= r.rootAttributes
    decreases Measure(n0, j, |src.attributes|)
  {
    if j == |src.attributes| then Merged(root, src)
    else
      var st := MergeStep(root, src, j);
      if st.Loop? then AliasLoop(st.alias)
      else if st.Rejected? then RenameRejected(st.prefix)
      else
        StepProgress(root, src, n0, j);
        MergeFrom(st.root, st.src, n0, j + 1)
  }

  /** The merge of a whole source root onto the result root. */
  function MergeAll(root: seq<Attr>, src: Element): MergeOutcome {
    MergeFrom(root, src, |src.attributes|, 0)
  }

  // ---------------------------------------------------------------------------
  // Why the loop ends

  lemma AppendedRootGrows(root: seq<Attr>, extra: seq<Attr>, src: seq<Attr>, n0: nat)
    requires Appended(root, src, n0)
    ensures Appended(root + extra, src, n0)
  {
    forall t | n0 <= t < |src|
      ensures HasAttribute(root + extra, AttrName(src[t]))
              && AttributeValue(root + extra, AttrName(src[t])) == src[t].value
    {
      AppendKeepsLookup(root, extra, AttrName(src[t]));
    }
  }

  /** Overwriting an original attribute keeps the appended ones. */
  lemma OverwriteKeepsAppended(root: seq<Attr>, src: seq<Attr>, n0: nat, prefix: string, localName: string, v: string)
    requires Appended(root, src, n0)
    requires HasAttribute(src, QualifiedName(prefix, localName))
    requires FindAttribute(src, QualifiedName(prefix, localName)).value < n0
    ensures Appended(root, SetAttribute(src, prefix, localName, v), n0)
  {
  }

  /** The alias branch: an original attribute (the appended ones take the
      first branch), and the loop bound grows by at most one. */
  lemma AliasStep(root: seq<Attr>, src: seq<Attr>, n0: nat, j: nat)
    requires j < |src| && Appended(root, src, n0)
    requires HasAttribute(root, AttrName(src[j])) && src[j].value != AttributeValue(root, AttrName(src[j]))
    requires src[j].prefix == "xmlns" && !HasAttribute(root, "xmlns:" + Alias(src[j].localName))
    ensures var alias := Alias(src[j].localName);
            var src' := SetAttribute(src, "xmlns", alias, src[j].value);
            && j < n0 && j < |src'| <= |src| + 1
            && src'[j] == src[j]
            && Appended(root + [Attr("xmlns", alias, src[j].value)], src', n0)
  {
    var alias := Alias(src[j].localName);
    var a := Attr("xmlns", alias, src[j].value);
    assert AttrName(a) == "xmlns:" + alias;
    AppendedRootGrows(root, [a], src, n0);
    if HasAttribute(src, AttrName(a)) {
      var i := FindAttribute(src, AttrName(a)).value;
      assert AttrName(src[i]) == AttrName(a);
      OverwriteKeepsAppended(root + [a], src, n0, "xmlns", alias, src[j].value);
      assert i != j by {
        assert |AttrName(src[j])| == |src[j].localName| + 6;
        assert |AttrName(a)| == |src[j].localName| + 8;
      }
    } else {
      var src' := src + [a];
      AppendFreshLookup(root, a);
      forall t | n0 <= t < |src'|
        ensures HasAttribute(root + [a], AttrName(src'[t]))
                && AttributeValue(root + [a], AttrName(src'[t])) == src'[t].value
      {
        if t < |src| {
          assert src'[t] == src[t];
        }
      }
    }
  }

  /** The branch that reuses a result-root attribute: an original attribute,
      and the overwritten attribute is the first of its name, at or before `j`. */
  lemma ReuseStep(root: seq<Attr>, src: seq<Attr>, n0: nat, j: nat)
    requires j < |src| && Appended(root, src, n0)
    requires !HasAttribute(root, AttrName(src[j]))
    ensures j < n0
    ensures var src' := SetAttribute(src, src[j].prefix, src[j].localName, src[j].value);
            && |src'| == |src| && src'[j] == src[j]
            && Appended(root, src', n0)
  {
    var i := FindAttribute(src, AttrName(src[j])).value;
    assert i <= j;
    OverwriteKeepsAppended(root, src, n0, src[j].prefix, src[j].localName, src[j].value);
  }

  /** One step keeps the appended attributes on the result root and lowers
      the measure: the loop ends unless the alias loop is entered. */
  lemma StepProgress(root: seq<Attr>, src: Element, n0: nat, j: nat)
    requires j < |src.attributes| && Appended(root, src.attributes, n0)
    ensures var st := MergeStep(root, src, j);
            st.Next? ==>
              && j + 1 <= |st.src.attributes|
              && Appended(st.root, st.src.attributes, n0)
              && Measure(n0, j + 1, |st.src.attributes|) < Measure(n0, j, |src.attributes|)
              && st.src.attributes[j] == src.attributes[j]
  {
    var attr := src.attributes[j];
    var name := AttrName(attr);
    if HasAttribute(root, name) {
      if attr.value == AttributeValue(root, name) || attr.prefix != "xmlns" {
      } else if !HasAttribute(root, "xmlns:" + Alias(attr.localName)) {
        AliasStep(root, src.attributes, n0, j);
      }
    } else {
      var found := if attr.prefix == "xmlns" then FindValue(root, attr.value) else None;
      if found.Some? {
        ReuseStep(root, src.attributes, n0, j);
      } else {
        AppendedRootGrows(root, [attr], src.attributes, n0);
      }
    }
  }

  /** The loop from `j` is one step followed by the loop from `j + 1`. */
  lemma MergeFromStep(root: seq<Attr>, src: Element, n0: nat, j: nat)
    requires j < |src.attributes| && Appended(root, src.attributes, n0)
    ensures var st := MergeStep(root, src, j);
            && (st.Loop? ==> MergeFrom(root, src, n0, j) == AliasLoop(st.alias))
            && (st.Rejected? ==> MergeFrom(root, src, n0, j) == RenameRejected(st.prefix))
            && (st.Next? ==>
                  && j + 1 <= |st.src.attributes|
                  && Appended(st.root, st.src.attributes, n0)
                  && Measure(n0, j + 1, |st.src.attributes|) < Measure(n0, j, |src.attributes|)
                  && MergeFrom(root, src, n0, j) == MergeFrom(st.root, st.src, n0, j + 1))
  {
    StepProgress(root, src, n0, j);
  }

  // ---------------------------------------------------------------------------
  // The four branches of one step

  /** Lines 67-70: an attribute whose name the result root already holds is
      skipped when the value is the same or when it is not a namespace
      declaration. */
  lemma SkipBranch(root: seq<Attr>, src: Element, j: nat)
    requires j < |src.attributes|
    requires var a := src.attributes[j];
             HasAttribute(root, AttrName(a)) && (a.value == AttributeValue(root, AttrName(a)) || a.prefix != "xmlns")
    ensures MergeStep(root, src, j) == Next(root, src)
  {
  }

  /** Lines 72-83: a declaration whose prefix the result root binds to another
      namespace either enters the endless alias loop, exactly when the alias
      is already declared there, or declares the alias on both roots with the
      declaration's namespace and renames every descendant prefix to it. The
      rename throws exactly when some descendant attribute refuses the alias,
      which never happens for an ordinary prefix. */
  lemma AliasBranch(root: seq<Attr>, src: Element, j: nat)
    requires j < |src.attributes|
    requires var a := src.attributes[j];
             HasAttribute(root, AttrName(a)) && a.value != AttributeValue(root, AttrName(a)) && a.prefix == "xmlns"
    ensures var a := src.attributes[j];
            var alias := Alias(a.localName);
            var st := MergeStep(root, src, j);
            && (st.Loop? <==> HasAttribute(root, "xmlns:" + alias))
            && (st.Loop? ==> st.alias == "xmlns:" + alias)
            && (st.Rejected? <==> !st.Loop? && NodesThrow(src.children, a.localName, alias))
            && (st.Rejected? ==> st.prefix == alias)
            && (a.localName != "" && a.localName != "xmlns" ==> !st.Rejected?)
            && (st.Next? ==>
                  && st.root == root + [Attr("xmlns", alias, a.value)]
                  && HasAttribute(st.src.attributes, "xmlns:" + alias)
                  && AttributeValue(st.src.attributes, "xmlns:" + alias) == a.value
                  && Prefixes(st.src.children) == Substitute(Prefixes(src.children), a.localName, alias)
                  && a.localName !in Prefixes(st.src.children))
  {
    var a := src.attributes[j];
    var alias := Alias(a.localName);
    if a.localName != "" && a.localName != "xmlns" {
      assert alias != "xmlns" by {
        assert alias[|alias| - 1] == '0';
      }
      OrdinaryRenameAccepted(src.children, a.localName, alias);
    }
    if !HasAttribute(root, "xmlns:" + alias) && !NodesThrow(src.children, a.localName, alias) {
      var attrs' := SetAttribute(src.attributes, "xmlns", alias, a.value);
      assert QualifiedName("xmlns", alias) == "xmlns:" + alias;
      SetThenLookup(src.attributes, "xmlns", alias, a.value);
      RenamePrefixes(src.children, a.localName, alias);
      assert a.localName != alias by {
        assert |alias| == |a.localName| + 2;
      }
      RenameRemovesPrefix(src.(attributes := attrs'), a.localName, alias);
    }
  }

  /** Lines 87-103: a declaration with a new name whose namespace some
      result-root attribute already holds adds nothing to the result root;
      the declaration stays on the source root and every descendant prefix is
      renamed to that attribute's local name. The rename throws exactly when
      some descendant attribute refuses that name: when the match is the
      default `xmlns` declaration, exactly when some descendant attribute
      carries the declared prefix; when it is another ordinary prefix, never. */
  lemma ReuseBranch(root: seq<Attr>, src: Element, j: nat)
    requires j < |src.attributes|
    requires var a := src.attributes[j];
             !HasAttribute(root, AttrName(a)) && a.prefix == "xmlns" && FindValue(root, a.value).Some?
    ensures var a := src.attributes[j];
            var k := FindValue(root, a.value).value;
            var st := MergeStep(root, src, j);
            && root[k].value == a.value
            && (st.Next? || st.Rejected?)
            && (st.Rejected? <==> NodesThrow(src.children, a.localName, root[k].localName))
            && (st.Rejected? ==> st.prefix == root[k].localName)
            && (a.localName != "" && a.localName != "xmlns" && root[k].localName == "xmlns" ==>
                  (st.Rejected? <==> a.localName in AttributePrefixes(src.children)))
            && (a.localName != "" && a.localName != "xmlns" && root[k].localName != "" && root[k].localName != "xmlns" ==>
                  st.Next?)
            && (st.Next? ==>
                  && st.root == root
                  && HasAttribute(st.src.attributes, AttrName(a))
                  && AttributeValue(st.src.attributes, AttrName(a)) == a.value
                  && Prefixes(st.src.children) == Substitute(Prefixes(src.children), a.localName, root[k].localName)
                  && (a.localName != root[k].localName ==> a.localName !in Prefixes(st.src.children)))
  {
    var a := src.attributes[j];
    var k := FindValue(root, a.value).value;
    if a.localName != "" && a.localName != "xmlns" {
      if root[k].localName == "xmlns" {
        RenameToXmlnsThrows(src.children, a.localName);
      } else if root[k].localName != "" {
        OrdinaryRenameAccepted(src.children, a.localName, root[k].localName);
      }
    }
    var attrs' := SetAttribute(src.attributes, a.prefix, a.localName, a.value);
    SetThenLookup(src.attributes, a.prefix, a.localName, a.value);
    RenamePrefixes(src.children, a.localName, root[k].localName);
    if a.localName != root[k].localName {
      RenameRemovesPrefix(src.(attributes := attrs'), a.localName, root[k].localName);
    }
  }

  /** Lines 105-107: any other attribute with a new name is copied onto the
      result root, where its name then looks up its value; the source root is
      left alone. */
  lemma CopyBranch(root: seq<Attr>, src: Element, j: nat)
    requires j < |src.attributes|
    requires var a := src.attributes[j];
             !HasAttribute(root, AttrName(a)) && (a.prefix != "xmlns" || FindValue(root, a.value).None?)
    ensures var a := src.attributes[j];
            var st := MergeStep(root, src, j);
            && st == Next(root + [a], src)
            && FindAttribute(st.root, AttrName(a)) == Some(|root|)
            && AttributeValue(st.root, AttrName(a)) == a.value
  {
    AppendFreshLookup(root, src.attributes[j]);
  }

  // ---------------------------------------------------------------------------
  // What the merge guarantees

  /** No two attributes share a name. */
  predicate NamesUnique(attrs: seq<Attr>) {
    forall i, j :: 0 <= i < j < |attrs| ==> AttrName(attrs[i]) != AttrName(attrs[j])
  }

  /** A step appends only an attribute whose name the result root lacks. */
  lemma StepKeepsNamesUnique(root: seq<Attr>, src: Element, j: nat)
    requires j < |src.attributes| && NamesUnique(root)
    ensures MergeStep(root, src, j).Next? ==> NamesUnique(MergeStep(root, src, j).root)
  {
    var attr := src.attributes[j];
    if HasAttribute(root, AttrName(attr)) {
      var alias := Alias(attr.localName);
      assert AttrName(Attr("xmlns", alias, attr.value)) == "xmlns:" + alias;
    }
  }

  /** The merge never declares a name twice on the result root. */
  lemma {:induction false} MergeKeepsNamesUnique(root: seq<Attr>, src: Element, n0: nat, j: nat)
    requires j <= |src.attributes| && Appended(root, src.attributes, n0)
    requires NamesUnique(root)
    ensures MergeFrom(root, src, n0, j).Merged? ==> NamesUnique(MergeFrom(root, src, n0, j).rootAttributes)
    decreases Measure(n0, j, |src.attributes|)
  {
    if j < |src.attributes| {
      var st := MergeStep(root, src, j);
      if st.Next? {
        StepProgress(root, src, n0, j);
        StepKeepsNamesUnique(root, src, j);
        MergeKeepsNamesUnique(st.root, st.src, n0, j + 1);
      }
    }
  }

  /** Some result-root attribute has the value `v`. */
  ghost predicate ValueOn(root: seq<Attr>, v: string) {
    exists m :: 0 <= m < |root| && root[m].value == v
  }

  /** Every namespace declaration among the first `j` source attributes
      names a namespace the result root declares. */
  ghost predicate Bound(root: seq<Attr>, src: seq<Attr>, j: nat) {
    forall t :: 0 <= t < j && t < |src| && src[t].prefix == "xmlns" ==> ValueOn(root, src[t].value)
  }

  lemma ValueOnGrows(root: seq<Attr>, extra: seq<Attr>, v: string)
    requires ValueOn(root, v)
    ensures ValueOn(root + extra, v)
  {
    var m :| 0 <= m < |root| && root[m].value == v;
    assert (root + extra)[m] == root[m];
  }

  /** The alias branch, the reuse branch and the copy branch each leave the
      value of the declaration they handle on the result root, and every
      value they write into the source is one the result root holds. */
  lemma StepBinds(root: seq<Attr>, src: Element, n0: nat, j: nat)
    requires j < |src.attributes| && Appended(root, src.attributes, n0)
    requires Bound(root, src.attributes, j)
    ensures var st := MergeStep(root, src, j);
            st.Next? ==> Bound(st.root, st.src.attributes, j + 1)
  {
    var attr := src.attributes[j];
    var name := AttrName(attr);
    var st := MergeStep(root, src, j);
    if st.Next? {
      StepProgress(root, src, n0, j);
      forall t | 0 <= t < j + 1 && t < |st.src.attributes| && st.src.attributes[t].prefix == "xmlns"
        ensures ValueOn(st.root, st.src.attributes[t].value)
      {
        var v := st.src.attributes[t].value;
        if t < j && st.src.attributes[t] == src.attributes[t] {
          ValueOnGrows(root, st.root[|root|..], v);
          assert root + st.root[|root|..] == st.root;
        } else if HasAttribute(root, name) {
          if attr.value == AttributeValue(root, name) || attr.prefix != "xmlns" {
            var m := FindAttribute(root, name).value;
            assert root[m].value == v;
          } else {
            assert st.root[|root|].value == v;
          }
        } else {
          var found := if attr.prefix == "xmlns" then FindValue(root, attr.value) else None;
          if found.Some? {
            assert root[found.value].value == v;
          } else {
            assert st.root[|root|].value == v;
          }
        }
      }
    }
  }

  /** The source's namespace declarations, as the merge leaves them, all
      name a namespace the result root declares. */
  lemma {:induction false} MergeBindsDeclarations(root: seq<Attr>, src: Element, n0: nat, j: nat)
    requires j <= |src.attributes| && Appended(root, src.attributes, n0)
    requires Bound(root, src.attributes, j)
    ensures var r := MergeFrom(root, src, n0, j);
            r.Merged? ==> Bound(r.rootAttributes, r.source.attributes, |r.source.attributes|)
    decreases Measure(n0, j, |src.attributes|)
  {
    if j < |src.attributes| {
      var st := MergeStep(root, src, j);
      if st.Next? {
        StepProgress(root, src, n0, j);
        StepBinds(root, src, n0, j);
        MergeBindsDeclarations(st.root, st.src, n0, j + 1);
      }
    }
  }

  /** The whole merge of a source root, from a result root whose names are
      distinct: the result root only grows, keeps its names distinct, and
      declares every namespace the rewritten source root declares. */
  lemma MergeAllSpec(root: seq<Attr>, src: Element)
    requires NamesUnique(root)
    ensures var r := MergeAll(root, src);
            r.Merged? ==>
              && root <= r.rootAttributes
              && NamesUnique(r.rootAttributes)
              && forall t :: 0 <= t < |r.source.attributes| && r.source.attributes[t].prefix == "xmlns" ==>
                   ValueOn(r.rootAttributes, r.source.attributes[t].value)
  {
    MergeKeepsNamesUnique(root, src, |src.attributes|, 0);
    MergeBindsDeclarations(root, src, |src.attributes|, 0);
  }

  /** The ordinary collision: a source that binds `ns` to another namespace
      gets the alias `ns_0`, declared on both roots, and its elements are
      renamed to it. */
  lemma CollisionExample()
    ensures MergeAll([Attr("xmlns", "ns", "urn:a")],
                     Element("", "ResourceDictionary", [Attr("xmlns", "ns", "urn:b")],
                             [ElementNode(Element("ns", "Button", [], []))]))
            == Merged([Attr("xmlns", "ns", "urn:a"), Attr("xmlns", "ns_0", "urn:b")],
                      Element("", "ResourceDictionary", [Attr("xmlns", "ns", "urn:b"), Attr("xmlns", "ns_0", "urn:b")],
                              [ElementNode(Element("ns_0", "Button", [], []))]))
  {
    var root := [Attr("xmlns", "ns", "urn:a")];
    var src := Element("", "ResourceDictionary", [Attr("xmlns", "ns", "urn:b")],
                       [ElementNode(Element("ns", "Button", [], []))]);
    var root' := [Attr("xmlns", "ns", "urn:a"), Attr("xmlns", "ns_0", "urn:b")];
    var src' := Element("", "ResourceDictionary", [Attr("xmlns", "ns", "urn:b"), Attr("xmlns", "ns_0", "urn:b")],
                        [ElementNode(Element("ns_0", "Button", [], []))]);
    CollisionAliasStep();
    assert AttrName(root'[1]) == "xmlns:ns_0" && AttrName(src'.attributes[1]) == "xmlns:ns_0";
    assert FindAttribute(root', "xmlns:ns_0") == Some(1);
    assert AttributeValue(root', "xmlns:ns_0") == "urn:b";
    assert Appended(root', src'.attributes, 1);
    assert MergeStep(root', src', 1) == Next(root', src');
    assert MergeFrom(root, src, 1, 0) == MergeFrom(root', src', 1, 1);
    assert MergeFrom(root', src', 1, 1) == MergeFrom(root', src', 1, 2);
  }

  /** The first step of that example: the clashing `xmlns:ns` is aliased. */
  lemma CollisionAliasStep()
    ensures MergeStep([Attr("xmlns", "ns", "urn:a")],
                      Element("", "ResourceDictionary", [Attr("xmlns", "ns", "urn:b")],
                              [ElementNode(Element("ns", "Button", [], []))]), 0)
            == Next([Attr("xmlns", "ns", "urn:a"), Attr("xmlns", "ns_0", "urn:b")],
                    Element("", "ResourceDictionary", [Attr("xmlns", "ns", "urn:b"), Attr("xmlns", "ns_0", "urn:b")],
                            [ElementNode(Element("ns_0", "Button", [], []))]))
  {
    var root := [Attr("xmlns", "ns", "urn:a")];
    var src := Element("", "ResourceDictionary", [Attr("xmlns", "ns", "urn:b")],
                       [ElementNode(Element("ns", "Button", [], []))]);
    assert AttrName(root[0]) == "xmlns:ns" && AttrName(src.attributes[0]) == "xmlns:ns";
    assert Alias("ns") == "ns_0";
    assert FindAttribute(root, "xmlns:ns") == Some(0);
    assert !HasAttribute(root, "xmlns:ns_0");
    assert QualifiedName("xmlns", "ns_0") == "xmlns:ns_0";
    assert !HasAttribute(src.attributes, "xmlns:ns_0");
    var attrs' := [Attr("xmlns", "ns", "urn:b"), Attr("xmlns", "ns_0", "urn:b")];
    assert SetAttribute(src.attributes, "xmlns", "ns_0", "urn:b") == attrs';
    var renamed := RenameNodes(src.children, "ns", "ns_0");
    assert renamed[0] == RenameNode(src.children[0], "ns", "ns_0");
    assert RenameAttributes([], "ns", "ns_0") == [];
    assert RenameNodes([], "ns", "ns_0") == [];
    var src' := src.(attributes := attrs', children := [ElementNode(Element("ns_0", "Button", [], []))]);
    assert RenameDescendants(src.(attributes := attrs'), "ns", "ns_0") == src';
    assert root + [Attr("xmlns", "ns_0", "urn:b")] == [Attr("xmlns", "ns", "urn:a"), Attr("xmlns", "ns_0", "urn:b")];
  }

  // ---------------------------------------------------------------------------
  // Three consequences of the code as written

  /** When `xmlns:ns_0` is already declared on the result root, a clashing
      `xmlns:ns` sends the `do`/`while` loop round forever. */
  lemma AliasLoopExample()
    ensures MergeAll([Attr("xmlns", "ns", "urn:a"), Attr("xmlns", "ns_0", "urn:c")],
                     Element("", "ResourceDictionary", [Attr("xmlns", "ns", "urn:b")], []))
            == AliasLoop("xmlns:ns_0")
  {
    var root := [Attr("xmlns", "ns", "urn:a"), Attr("xmlns", "ns_0", "urn:c")];
    assert AttrName(root[0]) == "xmlns:ns";
    assert AttrName(root[1]) == "xmlns:ns_0";
    assert Alias("ns") == "ns_0";
    assert FindAttribute(root, "xmlns:ns") == Some(0);
    assert FindAttribute(root, "xmlns:ns_0") == Some(1);
    var src := Element("", "ResourceDictionary", [Attr("xmlns", "ns", "urn:b")], []);
    assert AttrName(src.attributes[0]) == "xmlns:ns";
    assert MergeStep(root, src, 0) == Loop("xmlns:ns_0");
  }

  /** A clashing `xmlns:ns` whose source also declares `xmlns:ns_0`
      overwrites that declaration: both source declarations end up naming
      the namespace of `ns`, and the one of `ns_0` is lost. */
  lemma AliasOverwritesExample()
    ensures MergeAll([Attr("xmlns", "ns", "urn:c")],
                     Element("", "ResourceDictionary", [Attr("xmlns", "ns", "urn:a"), Attr("xmlns", "ns_0", "urn:b")], []))
            == Merged([Attr("xmlns", "ns", "urn:c"), Attr("xmlns", "ns_0", "urn:a")],
                      Element("", "ResourceDictionary", [Attr("xmlns", "ns", "urn:a"), Attr("xmlns", "ns_0", "urn:a")], []))
  {
    var root := [Attr("xmlns", "ns", "urn:c")];
    var src := Element("", "ResourceDictionary", [Attr("xmlns", "ns", "urn:a"), Attr("xmlns", "ns_0", "urn:b")], []);
    assert AttrName(root[0]) == "xmlns:ns" && AttrName(src.attributes[0]) == "xmlns:ns";
    assert AttrName(src.attributes[1]) == "xmlns:ns_0";
    assert Alias("ns") == "ns_0";
    assert FindAttribute(root, "xmlns:ns") == Some(0);
    assert !HasAttribute(root, "xmlns:ns_0");
    assert QualifiedName("xmlns", "ns_0") == "xmlns:ns_0";
    assert FindAttribute(src.attributes, "xmlns:ns_0") == Some(1);
    var attrs' := [Attr("xmlns", "ns", "urn:a"), Attr("xmlns", "ns_0", "urn:a")];
    assert SetAttribute(src.attributes, "xmlns", "ns_0", "urn:a") == attrs';
    var src' := src.(attributes := attrs');
    assert RenameDescendants(src', "ns", "ns_0") == src';
    var root' := [Attr("xmlns", "ns", "urn:c"), Attr("xmlns", "ns_0", "urn:a")];
    assert root + [Attr("xmlns", "ns_0", "urn:a")] == root';
    assert MergeStep(root, src, 0) == Next(root', src');
    assert AttrName(root'[1]) == "xmlns:ns_0";
    assert FindAttribute(root', "xmlns:ns_0") == Some(1);
    assert AttributeValue(root', "xmlns:ns_0") == "urn:a";
    assert Appended(root', src'.attributes, 2);
    assert MergeStep(root', src', 1) == Next(root', src');
    assert MergeFrom(root, src, 2, 0) == MergeFrom(root', src', 2, 1);
  }

  /** A prefixed declaration of a namespace the result root holds as its
      default `xmlns` attribute is renamed to that attribute's local name,
      which is `xmlns` itself. */
  lemma DefaultNamespaceReuse()
    ensures MergeAll([Attr("", "xmlns", "urn:p")],
                     Element("", "ResourceDictionary", [Attr("xmlns", "p", "urn:p")],
                             [ElementNode(Element("p", "Button", [], []))]))
            == Merged([Attr("", "xmlns", "urn:p")],
                      Element("", "ResourceDictionary", [Attr("xmlns", "p", "urn:p")],
                              [ElementNode(Element("xmlns", "Button", [], []))]))
  {
    var root := [Attr("", "xmlns", "urn:p")];
    var src := Element("", "ResourceDictionary", [Attr("xmlns", "p", "urn:p")],
                       [ElementNode(Element("p", "Button", [], []))]);
    assert AttrName(root[0]) == "xmlns" && AttrName(src.attributes[0]) == "xmlns:p";
    assert !HasAttribute(root, "xmlns:p");
    assert FindValue(root, "urn:p") == Some(0);
    assert QualifiedName("xmlns", "p") == "xmlns:p";
    assert FindAttribute(src.attributes, "xmlns:p") == Some(0);
    assert SetAttribute(src.attributes, "xmlns", "p", "urn:p") == src.attributes;
    var renamed := RenameNodes(src.children, "p", "xmlns");
    assert renamed[0] == RenameNode(src.children[0], "p", "xmlns");
    assert RenameAttributes([], "p", "xmlns") == [];
    assert RenameNodes([], "p", "xmlns") == [];
    assert renamed == [ElementNode(Element("xmlns", "Button", [], []))];
  }

  /** The same reuse when a descendant attribute carries the prefix: the
      prefix setter refuses `xmlns` for an attribute that is not a
      declaration, so the merge ends in that exception. */
  lemma DefaultNamespaceReuseThrows()
    ensures MergeAll([Attr("", "xmlns", "urn:p")],
                     Element("", "ResourceDictionary", [Attr("xmlns", "p", "urn:p")],
                             [ElementNode(Element("", "Button", [Attr("p", "Tag", "v")], []))]))
            == RenameRejected("xmlns")
  {
    var root := [Attr("", "xmlns", "urn:p")];
    var button := Element("", "Button", [Attr("p", "Tag", "v")], []);
    var src := Element("", "ResourceDictionary", [Attr("xmlns", "p", "urn:p")], [ElementNode(button)]);
    assert AttrName(root[0]) == "xmlns" && AttrName(src.attributes[0]) == "xmlns:p";
    assert !HasAttribute(root, "xmlns:p");
    assert FindValue(root, "urn:p") == Some(0);
    assert AttributeThrows(button.attributes[0], "p", "xmlns");
    assert NodeThrows(src.children[0], "p", "xmlns");
    assert MergeStep(root, src, 0) == Rejected("xmlns");
  }
}
