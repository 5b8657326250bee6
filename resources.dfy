/** `ResourceElement` (Source/XamlCombine/ResourceElement.cs): one keyed
    resource, the unit the ordering moves around. */
module Resources {
  import opened Xml

  /** The key, the element and the keys it uses, fixed at construction and
      never changed afterwards. Equality compares exactly these three fields.
      `usedKeys` may repeat a key; its length counts the repeats. */
  datatype ResourceElement = ResourceElement(key: string, element: Element, usedKeys: seq<string>)

  /** An entry without dependencies: `UsedKeys.Length == 0`. */
  predicate HasNoDependencies(entry: ResourceElement) {
    |entry.usedKeys| == 0
  }

  predicate KeysUnique(entries: seq<ResourceElement>) {
    forall i, j :: 0 <= i < j < |entries| ==> entries[i].key != entries[j].key
  }

  /** The `keys` list kept beside the entries: `keys.Contains(k)` asks
      whether some kept entry has the key `k`, and the list repeats no key
      exactly when the kept entries have distinct keys. */
  function Keys(entries: seq<ResourceElement>): (r: seq<string>)
    ensures |r| == |entries| && forall i :: 0 <= i < |entries| ==> r[i] == entries[i].key
    ensures forall k :: k in r <==> exists e :: e in entries && e.key == k
    ensures (forall i, j :: 0 <= i < j < |r| ==> r[i] != r[j]) <==> KeysUnique(entries)
  {
    seq(|entries|, i requires 0 <= i < |entries| => entries[i].key)
  }

  /** `keys.Add(key)` beside `resourcesList.Add(res)`: appending an entry
      appends its key. */
  lemma KeysAppend(entries: seq<ResourceElement>, e: ResourceElement)
    ensures Keys(entries + [e]) == Keys(entries) + [e.key]
  {
    assert forall i :: 0 <= i < |entries| ==> (entries + [e])[i] == entries[i];
  }

  /** The `resourceElements` dictionary: each entry added under its key, in
      list order. */
  function IndexOf(entries: seq<ResourceElement>): map<string, ResourceElement>
    decreases |entries|
  {
    if entries == [] then map[]
    else
      var last := entries[|entries| - 1];
      IndexOf(entries[..|entries| - 1])[last.key := last]
  }

  /** `index` maps every key of `entries` to the entry with that key, and
      nothing else. */
  ghost predicate IndexMatches(entries: seq<ResourceElement>, index: map<string, ResourceElement>) {
    && (forall e :: e in entries ==> e.key in index && index[e.key] == e)
    && (forall k :: k in index ==> index[k] in entries && index[k].key == k)
  }

  /** With distinct keys, the dictionary built entry by entry maps each key to
      its own entry and holds no other key. */
  lemma {:induction false} IndexOfMatches(entries: seq<ResourceElement>)
    requires KeysUnique(entries)
    ensures IndexMatches(entries, IndexOf(entries))
    decreases |entries|
  {
    if entries != [] {
      var front := entries[..|entries| - 1];
      var last := entries[|entries| - 1];
      IndexOfMatches(front);
      assert entries == front + [last];
      forall e | e in entries
        ensures e.key in IndexOf(entries) && IndexOf(entries)[e.key] == e
      {
        if e != last {
          assert e in front;
        }
      }
    }
  }

  /** Among entries with distinct keys, two entries are equal exactly when
      their keys are: struct equality of entries amounts to key identity. */
  lemma EqualityIsKeyIdentity(entries: seq<ResourceElement>, a: ResourceElement, b: ResourceElement)
    requires KeysUnique(entries) && a in entries && b in entries
    ensures a == b <==> a.key == b.key
  {
    var i :| 0 <= i < |entries| && entries[i] == a;
    var j :| 0 <= j < |entries| && entries[j] == b;
    assert a.key == b.key ==> i == j;
  }

  /** So the test `finalOrderList.Contains(resourceElements[usedKey])` asks
      whether the entry keyed `usedKey` is already in the output list. */
  lemma ContainsIsKeyMembership(entries: seq<ResourceElement>, index: map<string, ResourceElement>,
                                done: seq<ResourceElement>, k: string)
    requires KeysUnique(entries) && IndexMatches(entries, index) && k in index
    requires forall e :: e in done ==> e in entries
    ensures index[k] in done <==> exists e :: e in done && e.key == k
  {
    if e :| e in done && e.key == k {
      EqualityIsKeyIdentity(entries, e, index[k]);
    }
  }
}
