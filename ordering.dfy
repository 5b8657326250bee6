/** The dependency ordering of the kept resources (src/Combiner.cs:140-166):
    a first pass that moves every entry without references to the output, then
    repeated passes that move every entry whose references are all satisfied. */
module Ordering {
  import opened Resources

  /** The test of a pass: every key the entry uses is either not a kept key or
      belongs to an entry already in the output. */
  predicate Ready(e: ResourceElement, index: map<string, ResourceElement>, done: seq<ResourceElement>) {
    forall k :: k in e.usedKeys ==> k !in index || index[k] in done
  }

  /** Every entry of `order` is ready with respect to the entries before it:
      whatever kept entry it refers to comes earlier. */
  ghost predicate Sound(order: seq<ResourceElement>, index: map<string, ResourceElement>) {
    forall j :: 0 <= j < |order| ==> Ready(order[j], index, order[..j])
  }

  // ---------------------------------------------------------------------------
  // The first pass

  /** The entries without dependencies, in list order. */
  function Independent(list: seq<ResourceElement>): (r: seq<ResourceElement>)
    ensures forall j :: 0 <= j < |r| ==> HasNoDependencies(r[j])
    ensures |r| <= |list|
    decreases |list|
  {
    if list == [] then []
    else
      var last := list[|list| - 1];
      Independent(list[..|list| - 1]) + (if HasNoDependencies(last) then [last] else [])
  }

  /** The entries with dependencies, in list order. */
  function Dependent(list: seq<ResourceElement>): (r: seq<ResourceElement>)
    ensures forall j :: 0 <= j < |r| ==> !HasNoDependencies(r[j])
    ensures |r| <= |list|
    decreases |list|
  {
    if list == [] then []
    else
      var last := list[|list| - 1];
      Dependent(list[..|list| - 1]) + (if HasNoDependencies(last) then [] else [last])
  }

  /** The first pass splits the list without losing or duplicating an entry. */
  lemma {:induction false} SplitIsPermutation(list: seq<ResourceElement>)
    ensures multiset(Independent(list)) + multiset(Dependent(list)) == multiset(list)
    decreases |list|
  {
    if list != [] {
      var front := list[..|list| - 1];
      SplitIsPermutation(front);
      assert list == front + [list[|list| - 1]];
    }
  }

  /** An entry without dependencies is ready whatever the output holds, so the
      first pass output is sound. */
  lemma {:induction false} IndependentIsSound(list: seq<ResourceElement>, index: map<string, ResourceElement>)
    ensures Sound(Independent(list), index)
    decreases |list|
  {
    if list != [] {
      var front := list[..|list| - 1];
      IndependentIsSound(front, index);
      var r := Independent(list);
      forall j | 0 <= j < |r|
        ensures Ready(r[j], index, r[..j])
      {
        if j < |Independent(front)| {
          assert r[..j] == Independent(front)[..j];
        }
      }
    }
  }

  /** The first pass over one more entry of the list. */
  lemma SplitStep(list: seq<ResourceElement>, c: nat)
    requires c < |list|
    ensures Independent(list[..c + 1])
            == Independent(list[..c]) + (if HasNoDependencies(list[c]) then [list[c]] else [])
    ensures Dependent(list[..c + 1])
            == Dependent(list[..c]) + (if HasNoDependencies(list[c]) then [] else [list[c]])
  {
    assert list[..c + 1][..c] == list[..c];
  }

  /** Lines 142-150: one scan that moves every entry with an empty `UsedKeys`
      to the output, removing it from the list and stepping back one place. */
  method MoveIndependent(list: seq<ResourceElement>) returns (finalOrder: seq<ResourceElement>, remaining: seq<ResourceElement>)
    ensures finalOrder == Independent(list)
    ensures remaining == Dependent(list)
  {
    finalOrder := [];
    remaining := list;
    ghost var c := 0;
    var i: int := 0;
    while i < |remaining|
      invariant 0 <= i <= |remaining| && 0 <= c <= |list|
      invariant remaining[..i] == Dependent(list[..c])
      invariant remaining[i..] == list[c..]
      invariant finalOrder == Independent(list[..c])
      decreases |list| - c
    {
      var e := remaining[i];
      assert remaining[i..][0] == e && remaining[i..][1..] == remaining[i + 1..];
      SplitStep(list, c);
      ghost var before := remaining;
      if |e.usedKeys| == 0 {
        finalOrder := finalOrder + [e];
        remaining := remaining[..i] + remaining[i + 1..];
        assert remaining[..i] == before[..i] && remaining[i..] == before[i + 1..];
        i := i - 1;
      } else {
        assert remaining[..i + 1] == remaining[..i] + [e];
      }
      i := i + 1;
      c := c + 1;
    }
    assert list[..c] == list;
    assert remaining[..i] == remaining;
  }

  // ---------------------------------------------------------------------------
  // The later passes

  /** One pass of the `while` loop (lines 154-165): entries are inspected in
      list order; a ready entry is appended to the output at once, so it can
      make a later entry of the same pass ready. Returns the entries left
      behind and the new output. */
  function Pass(remaining: seq<ResourceElement>, done: seq<ResourceElement>, index: map<string, ResourceElement>)
    : (r: (seq<ResourceElement>, seq<ResourceElement>))
    ensures |r.0| <= |remaining|
    ensures done <= r.1
    ensures multiset(r.0) + multiset(r.1) == multiset(remaining) + multiset(done)
    ensures |r.0| == |remaining| ==> r.0 == remaining && r.1 == done
    ensures |r.0| == |remaining| ==> forall e :: e in remaining ==> !Ready(e, index, done)
    decreases |remaining|
  {
    if remaining == [] then ([], done)
    else
      var e := remaining[0];
      assert remaining == [e] + remaining[1..];
      assert multiset(remaining) == multiset{e} + multiset(remaining[1..]);
      if Ready(e, index, done) then Pass(remaining[1..], done + [e], index)
      else
        var r := Pass(remaining[1..], done, index);
        assert multiset([e] + r.0) == multiset{e} + multiset(r.0);
        assert multiset{e} + multiset(r.0) + multiset(r.1) == multiset{e} + (multiset(r.0) + multiset(r.1));
        assert multiset{e} + multiset(remaining[1..]) + multiset(done)
               == multiset{e} + (multiset(remaining[1..]) + multiset(done));
        ([e] + r.0, r.1)
  }

  /** One pass, unfolded at its first entry. */
  lemma PassStep(remaining: seq<ResourceElement>, done: seq<ResourceElement>, index: map<string, ResourceElement>)
    requires remaining != []
    ensures Ready(remaining[0], index, done) ==>
              Pass(remaining, done, index) == Pass(remaining[1..], done + [remaining[0]], index)
    ensures !Ready(remaining[0], index, done) ==>
              Pass(remaining, done, index)
              == ([remaining[0]] + Pass(remaining[1..], done, index).0, Pass(remaining[1..], done, index).1)
  {
  }

  /** A pass appends only entries that are ready at the moment they move. */
  lemma {:induction false} PassKeepsSound(remaining: seq<ResourceElement>, done: seq<ResourceElement>,
                                          index: map<string, ResourceElement>)
    requires Sound(done, index)
    ensures Sound(Pass(remaining, done, index).1, index)
    decreases |remaining|
  {
    if remaining != [] {
      var e := remaining[0];
      if Ready(e, index, done) {
        var done' := done + [e];
        assert forall j :: 0 <= j < |done| ==> done'[..j] == done[..j];
        assert done'[..|done|] == done;
        PassKeepsSound(remaining[1..], done', index);
      } else {
        PassKeepsSound(remaining[1..], done, index);
      }
    }
  }

  /** The result of a pass that has already kept `remaining[..i]` and still
      has to inspect `remaining[i..]`. */
  function PassFrom(remaining: seq<ResourceElement>, i: nat, done: seq<ResourceElement>,
                    index: map<string, ResourceElement>): (seq<ResourceElement>, seq<ResourceElement>)
    requires i <= |remaining|
  {
    var p := Pass(remaining[i..], done, index);
    (remaining[..i] + p.0, p.1)
  }

  /** Moving a ready entry out of the list and into the output does not
      change the outcome of the pass. */
  lemma PassFromMove(remaining: seq<ResourceElement>, i: nat, done: seq<ResourceElement>,
                     index: map<string, ResourceElement>)
    requires i < |remaining| && Ready(remaining[i], index, done)
    ensures PassFrom(remaining, i, done, index)
            == PassFrom(remaining[..i] + remaining[i + 1..], i, done + [remaining[i]], index)
  {
    var rest := remaining[..i] + remaining[i + 1..];
    assert remaining[i..][0] == remaining[i] && remaining[i..][1..] == remaining[i + 1..];
    assert rest[..i] == remaining[..i] && rest[i..] == remaining[i + 1..];
  }

  /** Stepping over an entry that is not ready does not change the outcome
      of the pass. */
  lemma PassFromKeep(remaining: seq<ResourceElement>, i: nat, done: seq<ResourceElement>,
                     index: map<string, ResourceElement>)
    requires i < |remaining| && !Ready(remaining[i], index, done)
    ensures PassFrom(remaining, i, done, index) == PassFrom(remaining, i + 1, done, index)
  {
    var e := remaining[i];
    assert remaining[i..][0] == e && remaining[i..][1..] == remaining[i + 1..];
    var rest := Pass(remaining[i + 1..], done, index).0;
    assert remaining[..i + 1] == remaining[..i] + [e];
    assert remaining[..i] + ([e] + rest) == remaining[..i + 1] + rest;
  }

  /** Before the scan nothing is kept yet; after it nothing is left to inspect. */
  lemma PassFromEnds(remaining: seq<ResourceElement>, done: seq<ResourceElement>, index: map<string, ResourceElement>)
    ensures PassFrom(remaining, 0, done, index) == Pass(remaining, done, index)
    ensures PassFrom(remaining, |remaining|, done, index) == (remaining, done)
  {
    assert remaining[..0] == [] && remaining[0..] == remaining;
    var p := Pass(remaining, done, index);
    assert [] + p.0 == p.0;
    var empty := remaining[|remaining|..];
    assert empty == [];
    assert Pass(empty, done, index) == ([], done);
    assert remaining[..|remaining|] == remaining;
    assert remaining + [] == remaining;
  }

  /** Lines 154-165 as written: the `for` loop with `RemoveAt(i); i--`. */
  method OrderPass(list: seq<ResourceElement>, done: seq<ResourceElement>, index: map<string, ResourceElement>)
    returns (remaining: seq<ResourceElement>, finalOrder: seq<ResourceElement>)
    ensures (remaining, finalOrder) == Pass(list, done, index)
  {
    remaining := list;
    finalOrder := done;
    var i: int := 0;
    PassFromEnds(list, done, index);
    while i < |remaining|
      invariant 0 <= i <= |remaining|
      invariant Pass(list, done, index) == PassFrom(remaining, i, finalOrder, index)
      decreases |remaining| - i
    {
      var e := remaining[i];
      if Ready(e, index, finalOrder) {
        PassFromMove(remaining, i, finalOrder, index);
        finalOrder := finalOrder + [e];
        remaining := remaining[..i] + remaining[i + 1..];
        i := i - 1;
      } else {
        PassFromKeep(remaining, i, finalOrder, index);
      }
      i := i + 1;
    }
    PassFromEnds(remaining, finalOrder, index);
  }

  // ---------------------------------------------------------------------------
  // The whole ordering

  /** How the ordering ends: with every kept entry in the output, or in a
      state that no pass changes, where the `while` loop runs forever. */
  datatype OrderOutcome =
    | Ordered(order: seq<ResourceElement>)
    | NeverTerminates(order: seq<ResourceElement>, stuck: seq<ResourceElement>)

  /** The passes of the `while (resourcesList.Count > 0)` loop. A pass that
      moves nothing leaves the list and the output as they were, so every
      later pass repeats it: that state is reported as `NeverTerminates`. */
  function Passes(remaining: seq<ResourceElement>, done: seq<ResourceElement>, index: map<string, ResourceElement>)
    : (r: OrderOutcome)
    ensures r.Ordered? ==> multiset(r.order) == multiset(remaining) + multiset(done)
    ensures r.NeverTerminates? ==> multiset(r.order) + multiset(r.stuck) == multiset(remaining) + multiset(done)
    ensures r.NeverTerminates? ==> r.stuck != [] && forall e :: e in r.stuck ==> !Ready(e, index, r.order)
    ensures done <= r.order
    decreases |remaining|
  {
    if remaining == [] then Ordered(done)
    else
      var p := Pass(remaining, done, index);
      if |p.0| == |remaining| then NeverTerminates(done, remaining)
      else Passes(p.0, p.1, index)
  }

  /** The ordering of lines 140-166 on the kept entries `list`. */
  function Order(list: seq<ResourceElement>, index: map<string, ResourceElement>): OrderOutcome {
    Passes(Dependent(list), Independent(list), index)
  }

  /** Lines 140-166 as written; the `while` loop stops only where the source's
      would never stop, at a pass that moves nothing. */
  method OrderResources(list: seq<ResourceElement>, index: map<string, ResourceElement>) returns (r: OrderOutcome)
    ensures r == Order(list, index)
  {
    var finalOrder, remaining := MoveIndependent(list);
    while |remaining| > 0
      invariant Order(list, index) == Passes(remaining, finalOrder, index)
      decreases |remaining|
    {
      var remaining', finalOrder' := OrderPass(remaining, finalOrder, index);
      if |remaining'| == |remaining| {
        return NeverTerminates(finalOrder, remaining);
      }
      remaining, finalOrder := remaining', finalOrder';
    }
    r := Ordered(finalOrder);
  }

  // ---------------------------------------------------------------------------
  // What the ordering guarantees

  /** Every kept entry ends up exactly once in the output, or, when the loop
      never ends, exactly once in the output or the stuck list. */
  lemma OrderIsPermutation(list: seq<ResourceElement>, index: map<string, ResourceElement>)
    ensures Order(list, index).Ordered? ==> multiset(Order(list, index).order) == multiset(list)
    ensures Order(list, index).NeverTerminates? ==>
              multiset(Order(list, index).order) + multiset(Order(list, index).stuck) == multiset(list)
  {
    SplitIsPermutation(list);
  }

  lemma {:induction false} PassesKeepSound(remaining: seq<ResourceElement>, done: seq<ResourceElement>,
                                           index: map<string, ResourceElement>)
    requires Sound(done, index)
    ensures Sound(Passes(remaining, done, index).order, index)
    decreases |remaining|
  {
    if remaining != [] {
      var p := Pass(remaining, done, index);
      if |p.0| != |remaining| {
        PassKeepsSound(remaining, done, index);
        PassesKeepSound(p.0, p.1, index);
      }
    }
  }

  /** Every kept entry an entry refers to is placed before it. */
  lemma OrderIsSound(list: seq<ResourceElement>, index: map<string, ResourceElement>)
    ensures Sound(Order(list, index).order, index)
  {
    IndependentIsSound(list, index);
    PassesKeepSound(Dependent(list), Independent(list), index);
  }

  /** The entries without dependencies come first, in their original order. */
  lemma IndependentFirst(list: seq<ResourceElement>, index: map<string, ResourceElement>)
    ensures Independent(list) <= Order(list, index).order
  {
  }

  /** When the loop never ends, the stuck entries are a closed group: each one
      refers to a kept key whose entry is itself stuck (a reference cycle, or
      an entry that refers to its own key). */
  lemma StuckEntriesReferToStuck(list: seq<ResourceElement>, index: map<string, ResourceElement>)
    requires KeysUnique(list) && IndexMatches(list, index)
    requires Order(list, index).NeverTerminates?
    ensures forall e :: e in Order(list, index).stuck ==>
              exists k :: k in e.usedKeys && k in index && index[k] in Order(list, index).stuck
  {
    var o := Order(list, index);
    OrderIsPermutation(list, index);
    forall e | e in o.stuck
      ensures exists k :: k in e.usedKeys && k in index && index[k] in o.stuck
    {
      assert !Ready(e, index, o.order);
      var k :| k in e.usedKeys && k in index && index[k] !in o.order;
      assert index[k] in multiset(list);
    }
  }

  /** In that state a pass changes nothing, so the source's loop repeats the
      same pass forever. */
  lemma StuckIsFixpoint(list: seq<ResourceElement>, index: map<string, ResourceElement>)
    requires Order(list, index).NeverTerminates?
    ensures Pass(Order(list, index).stuck, Order(list, index).order, index)
            == (Order(list, index).stuck, Order(list, index).order)
  {
    var o := Order(list, index);
    NothingReadyMovesNothing(o.stuck, o.order, index);
  }

  lemma {:induction false} NothingReadyMovesNothing(remaining: seq<ResourceElement>, done: seq<ResourceElement>,
                                                    index: map<string, ResourceElement>)
    requires forall e :: e in remaining ==> !Ready(e, index, done)
    ensures Pass(remaining, done, index) == (remaining, done)
    decreases |remaining|
  {
    if remaining != [] {
      var rest := remaining[1..];
      assert remaining[0] in remaining;
      assert forall e :: e in rest ==> e in remaining;
      NothingReadyMovesNothing(rest, done, index);
      PassStep(remaining, done, index);
      assert remaining == [remaining[0]] + rest;
    }
  }

  /** If the kept entries can be ordered soundly at all, the loop terminates:
      it diverges only on a reference cycle. */
  lemma OrderComplete(list: seq<ResourceElement>, index: map<string, ResourceElement>, p: seq<ResourceElement>)
    requires multiset(p) == multiset(list) && Sound(p, index)
    ensures Order(list, index).Ordered?
  {
    var o := Order(list, index);
    if o.NeverTerminates? {
      OrderIsPermutation(list, index);
      SoundOrderFreesAStuckEntry(p, o.order, o.stuck, index);
      assert false;
    }
  }

  /** If the output and the stuck entries together can be put in a sound
      order `p`, the stuck entry that comes first in `p` only refers to kept
      entries already in the output. */
  lemma SoundOrderFreesAStuckEntry(p: seq<ResourceElement>, order: seq<ResourceElement>, stuck: seq<ResourceElement>,
                                   index: map<string, ResourceElement>)
    requires multiset(p) == multiset(order) + multiset(stuck) && Sound(p, index) && stuck != []
    ensures exists e :: e in stuck && Ready(e, index, order)
  {
    assert stuck[0] in multiset(p);
    var m :| 0 <= m < |p| && p[m] in stuck && forall m' :: 0 <= m' < m ==> p[m'] !in stuck by {
      FirstStuck(p, stuck, stuck[0]);
    }
    forall k | k in p[m].usedKeys && k in index
      ensures index[k] in order
    {
      assert Ready(p[m], index, p[..m]);
      assert index[k] in p[..m];
      var m' :| 0 <= m' < m && p[m'] == index[k];
      assert p[m'] in multiset(p);
    }
  }

  /** Some position of `p` holds the first entry that lies in `s`. */
  lemma FirstStuck(p: seq<ResourceElement>, s: seq<ResourceElement>, x: ResourceElement)
    requires x in p && x in s
    ensures exists m :: 0 <= m < |p| && p[m] in s && forall m' :: 0 <= m' < m ==> p[m'] !in s
  {
    var n :| 0 <= n < |p| && p[n] == x;
    var m := n;
    while m > 0 && exists m' :: 0 <= m' < m && p[m'] in s
      invariant 0 <= m <= n && p[m] in s
      decreases m
    {
      var m' :| 0 <= m' < m && p[m'] in s;
      m := m';
    }
  }

  /** An entry moved early in a pass makes a later one ready in the same pass:
      `b` refers only to an external key, `a` refers to `b`. */
  lemma SamePassUnblocks(a: ResourceElement, b: ResourceElement)
    requires a.key == "A" && b.key == "B" && a.usedKeys == ["B"] && b.usedKeys == ["External"]
    ensures Pass([b, a], [], map["A" := a, "B" := b]) == ([], [b, a])
  {
    var index := map["A" := a, "B" := b];
    assert Ready(b, index, []);
    assert [b, a][0] == b && [b, a][1..] == [a];
    assert [] + [b] == [b];
    assert Pass([b, a], [], index) == Pass([a], [b], index);
    assert Ready(a, index, [b]);
    assert [a][0] == a && [a][1..] == [];
    assert [b] + [a] == [b, a];
    assert Pass([a], [b], index) == Pass([], [b, a], index);
  }
}
