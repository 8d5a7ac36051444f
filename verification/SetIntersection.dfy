/** SortedSet.intersect: the members common to all sets, in the order of the last one. */
module SetIntersection {
  import opened Keys
  import opened Entries
  import opened SkipLinks
  import opened SortedSets

  /** With a single set the source calls a method that nodes do not have. */
  datatype Intersection = Members(keys: seq<Key>) | TypeError

  predicate InAll(key: Key, maps: seq<map<Key, real>>) {
    forall j :: 0 <= j < |maps| ==> key in maps[j]
  }

  /** The keys of es that every map has. */
  function Common(es: seq<Entry>, maps: seq<map<Key, real>>): (keys: seq<Key>)
    ensures forall key :: key in keys <==> (exists e :: e in es && e.key == key) && InAll(key, maps)
  {
    if |es| == 0 then []
    else if InAll(es[0].key, maps) then [es[0].key] + Common(es[1..], maps)
    else Common(es[1..], maps)
  }

  /** The keys of es that carry mark v. */
  function Marked<V(==)>(es: seq<Entry>, lookup: map<Key, V>, v: V): seq<Key> {
    if |es| == 0 then []
    else if es[0].key in lookup && lookup[es[0].key] == v then [es[0].key] + Marked(es[1..], lookup, v)
    else Marked(es[1..], lookup, v)
  }

  lemma {:induction false} MarkedAppend<V>(a: seq<Entry>, e: Entry, lookup: map<Key, V>, v: V)
    ensures Marked(a + [e], lookup, v) ==
            Marked(a, lookup, v) + if e.key in lookup && lookup[e.key] == v then [e.key] else []
  {
    if |a| == 0 {
      assert a + [e] == [e];
    } else {
      assert (a + [e])[1..] == a[1..] + [e];
      MarkedAppend(a[1..], e, lookup, v);
    }
  }

  lemma {:induction false} MarkedIsCommon<V>(es: seq<Entry>, lookup: map<Key, V>, v: V, maps: seq<map<Key, real>>)
    requires forall e :: e in es ==> (e.key in lookup && lookup[e.key] == v <==> InAll(e.key, maps))
    ensures Marked(es, lookup, v) == Common(es, maps)
  {
    hide InAll;
    if |es| != 0 {
      MarkedIsCommon(es[1..], lookup, v, maps);
    }
  }

  /** The keys all sets have, in the order of the last one. */
  ghost function InLastOrder(maps: seq<map<Key, real>>): seq<Key> {
    if |maps| == 0 then [] else Common(Listing(maps[|maps| - 1]), maps)
  }

  ghost function Maps(sets: seq<SortedSet>): (maps: seq<map<Key, real>>)
    reads sets
    ensures |maps| == |sets| && forall j {:trigger maps[j]} :: 0 <= j < |maps| ==> maps[j] == sets[j].scores
  {
    if |sets| == 0 then [] else Maps(sets[..|sets| - 1]) + [sets[|sets| - 1].scores]
  }

  // ---------------------------------------------------------------- the loops over one chain

  ghost predicate FirstOf(node: Node?, s: SortedSet)
    reads s
  {
    |s.spine| >= 1 && node == if |s.spine| > 1 then s.spine[1] else null
  }

  /** Every key of s gets mark v. */
  method MarkAll<V>(first: Node?, ghost s: SortedSet, v: V) returns (lookup: map<Key, V>)
    requires s.Valid() && FirstOf(first, s)
    ensures lookup == map k | k in s.scores :: v
  {
    hide Wired, Chained, EntriesOf, Sorted, DistinctScores;
    ghost var es := s.Entries();
    lookup := map[];
    var node := first;
    ghost var p := 0;
    while node != null
      invariant 0 <= p < |s.spine| && node == if p + 1 < |s.spine| then s.spine[p + 1] else null
      invariant forall k :: k in lookup ==> k in s.scores && lookup[k] == v
      invariant forall j :: 0 <= j < p ==> es[j].key in lookup
      decreases |s.spine| - p
    {
      assert es[p] == node.Item() && es[p] in es;
      lookup := lookup[node.key := v];
      FirstLink(s.spine, s.level, p + 1);
      node := node.links[0].next;
      p := p + 1;
    }
    forall k | k in s.scores ensures k in lookup {
      var j :| 0 <= j < |es| && es[j] == Entry(k, s.scores[k]);
    }
  }

  /** Keys of s that carry mark i get mark j; x counts them. */
  method Advance(first: Node?, ghost s: SortedSet, lookup: map<Key, int>, i: int, j: int) returns (lookup': map<Key, int>, x: nat)
    requires s.Valid() && FirstOf(first, s) && i != j
    ensures lookup' == map k | k in lookup :: if lookup[k] == i && k in s.scores then j else lookup[k]
    ensures x == 0 ==> lookup' == lookup
    ensures x == 0 ==> forall k :: k in lookup && lookup[k] == i ==> k !in s.scores
  {
    hide Wired, Chained, EntriesOf, DistinctScores;
    ghost var es := s.Entries();
    lookup', x := lookup, 0;
    var node := first;
    ghost var p := 0;
    while node != null
      invariant 0 <= p < |s.spine| && node == if p + 1 < |s.spine| then s.spine[p + 1] else null
      invariant lookup'.Keys == lookup.Keys
      invariant forall k :: k in lookup ==> lookup'[k] == lookup[k] || (lookup[k] == i && k in s.scores && lookup'[k] == j)
      invariant forall q :: 0 <= q < p && es[q].key in lookup && lookup[es[q].key] == i ==> lookup'[es[q].key] == j
      invariant x == 0 ==> lookup' == lookup
      decreases |s.spine| - p
    {
      assert es[p] == node.Item() && es[p] in es;
      if node.key in lookup' && lookup'[node.key] == i {
        lookup' := lookup'[node.key := j];
        x := x + 1;
      }
      FirstLink(s.spine, s.level, p + 1);
      node := node.links[0].next;
      p := p + 1;
    }
    forall k | k in lookup && lookup[k] == i && k in s.scores ensures lookup'[k] == j {
      var q :| 0 <= q < |es| && es[q] == Entry(k, s.scores[k]);
    }
  }

  /** The keys of s that carry mark v, in order. */
  method Collect<V(==)>(first: Node?, ghost s: SortedSet, lookup: map<Key, V>, v: V) returns (keys: seq<Key>)
    requires s.Valid() && FirstOf(first, s)
    ensures keys == Marked(s.Entries(), lookup, v)
  {
    hide Wired, Chained, EntriesOf, Sorted, Agrees, DistinctScores, Marked;
    ghost var es := s.Entries();
    keys := [];
    var node := first;
    ghost var p := 0;
    NoneMarked(lookup, v);
    assert es[..0] == [];
    while node != null
      invariant 0 <= p < |s.spine| && node == if p + 1 < |s.spine| then s.spine[p + 1] else null
      invariant keys == Marked(es[..p], lookup, v)
      decreases |s.spine| - p
    {
      assert es[p] == node.Item() && es[..p] + [es[p]] == es[..p + 1];
      MarkedAppend(es[..p], es[p], lookup, v);
      if node.key in lookup && lookup[node.key] == v {
        keys := keys + [node.key];
      }
      FirstLink(s.spine, s.level, p + 1);
      node := node.links[0].next;
      p := p + 1;
    }
    assert es[..p] == es;
  }

  lemma NoneMarked<V>(lookup: map<Key, V>, v: V)
    ensures Marked([], lookup, v) == []
  {
  }

  // ---------------------------------------------------------------- two, three and more sets

  method Binary(a: Node?, b: Node?, ghost s: SortedSet, ghost t: SortedSet) returns (keys: seq<Key>)
    requires s.Valid() && t.Valid() && FirstOf(a, s) && FirstOf(b, t)
    ensures keys == InLastOrder([s.scores, t.scores])
  {
    hide SortedSet.Shape, EntriesOf, Sorted, DistinctScores, Marked, Common;
    var lookup := MarkAll(a, s, true);
    keys := Collect(b, t, lookup, true);
    ghost var maps := [s.scores, t.scores];
    forall e | e in t.Entries()
      ensures e.key in lookup && lookup[e.key] == true <==> InAll(e.key, maps)
    {
      assert InAll(e.key, maps) ==> e.key in maps[0];
    }
    MarkedIsCommon(t.Entries(), lookup, true, maps);
    ListingIs(t.Entries(), t.scores);
  }

  method Ternary(a: Node?, b: Node?, c: Node?, ghost s: SortedSet, ghost t: SortedSet, ghost u: SortedSet) returns (keys: seq<Key>)
    requires s.Valid() && t.Valid() && u.Valid() && FirstOf(a, s) && FirstOf(b, t) && FirstOf(c, u)
    ensures keys == InLastOrder([s.scores, t.scores, u.scores])
  {
    hide SortedSet.Shape, EntriesOf, Sorted, DistinctScores, Marked, Common;
    var lookup := MarkAll(a, s, 0);
    var x;
    lookup, x := Advance(b, t, lookup, 0, 1);
    keys := Collect(c, u, lookup, 1);
    ghost var maps := [s.scores, t.scores, u.scores];
    forall e | e in u.Entries()
      ensures e.key in lookup && lookup[e.key] == 1 <==> InAll(e.key, maps)
    {
      assert InAll(e.key, maps) ==> e.key in maps[0] && e.key in maps[1];
    }
    MarkedIsCommon(u.Entries(), lookup, 1, maps);
    ListingIs(u.Entries(), u.scores);
  }

  /** After stage i a key carries i exactly when the first i + 1 sets have it. */
  ghost predicate Staged(lookup: map<Key, int>, maps: seq<map<Key, real>>, i: nat) {
    && i < |maps| && lookup.Keys == maps[0].Keys
    && forall k :: k in lookup ==> 0 <= lookup[k] <= i && (lookup[k] == i <==> InAll(k, maps[..i + 1]))
  }

  lemma NextStage(lookup: map<Key, int>, maps: seq<map<Key, real>>, i: nat, lookup': map<Key, int>)
    requires Staged(lookup, maps, i) && i + 1 < |maps|
    requires lookup' == map k | k in lookup :: if lookup[k] == i && k in maps[i + 1] then i + 1 else lookup[k]
    ensures Staged(lookup', maps, i + 1)
  {
  }

  lemma {:induction false} NoCommon(es: seq<Entry>, maps: seq<map<Key, real>>)
    requires forall e :: e in es ==> !InAll(e.key, maps)
    ensures Common(es, maps) == []
  {
    if |es| != 0 {
      NoCommon(es[1..], maps);
    }
  }

  /** The general case: counters that only keys of every set so far keep up with. */
  method General(firsts: seq<Node?>, ghost sets: seq<SortedSet>) returns (keys: seq<Key>)
    requires |firsts| == |sets| >= 2
    requires forall j {:trigger sets[j]} :: 0 <= j < |sets| ==> sets[j].Valid() && FirstOf(firsts[j], sets[j])
    ensures keys == InLastOrder(Maps(sets))
  {
    hide SortedSet.Shape, EntriesOf, Sorted, DistinctScores, Marked, Common, Maps, Staged, InAll;
    ghost var maps: seq<map<Key, real>> := Maps(sets);
    ghost var last := sets[|sets| - 1];
    var lookup := MarkAll(firsts[0], sets[0], 0);
    FirstStage(lookup, maps);
    var nodes := firsts[1..];
    var n := |nodes| - 1;
    for i := 0 to n
      invariant Staged(lookup, maps, i)
    {
      var x;
      ghost var before := lookup;
      assert sets[i + 1].Valid() && maps[i + 1] == sets[i + 1].scores;
      lookup, x := Advance(nodes[i], sets[i + 1], lookup, i, i + 1);
      if x == 0 {
        StageEmpty(before, maps, i, Listing(maps[|maps| - 1]));
        return [];
      }
      NextStage(before, maps, i, lookup);
    }
    keys := Collect(nodes[n], last, lookup, n);
    ListingIs(last.Entries(), last.scores);
    LastStage(lookup, maps, last.Entries(), last.scores);
    MarkedIsCommon(last.Entries(), lookup, n, maps);
  }

  lemma FirstStage(lookup: map<Key, int>, maps: seq<map<Key, real>>)
    requires |maps| > 0 && lookup == map k | k in maps[0] :: 0
    ensures Staged(lookup, maps, 0)
  {
  }

  lemma StageEmpty(lookup: map<Key, int>, maps: seq<map<Key, real>>, i: nat, es: seq<Entry>)
    requires Staged(lookup, maps, i) && i + 1 < |maps|
    requires forall k :: k in lookup && lookup[k] == i ==> k !in maps[i + 1]
    ensures Common(es, maps) == []
  {
  }

  lemma LastStage(lookup: map<Key, int>, maps: seq<map<Key, real>>, es: seq<Entry>, m: map<Key, real>)
    requires |maps| >= 2 && Staged(lookup, maps, |maps| - 2) && Agrees(es, m) && m == maps[|maps| - 1]
    ensures forall e :: e in es ==> (e.key in lookup && lookup[e.key] == |maps| - 2 <==> InAll(e.key, maps))
  {
  }

  method Intersect(sets: seq<SortedSet>) returns (r: Intersection)
    requires forall j {:trigger sets[j]} :: 0 <= j < |sets| ==> sets[j].Valid()
    ensures var maps := Maps(sets);
      r == if |maps| == 1 && maps[0] != map[] then TypeError else Members(InLastOrder(maps))
  {
    hide SortedSet.Shape, EntriesOf, Sorted, DistinctScores, Common, Maps, InAll, Agrees;
    if |sets| == 0 {
      assert Maps(sets) == [];
      return Members([]);
    }
    var nodes: seq<Node?> := seq(|sets|, _ => null);
    for i := |sets| downto 0
      invariant |nodes| == |sets|
      invariant forall j {:trigger sets[j]} :: i <= j < |sets| ==> sets[j].scores != map[] && FirstOf(nodes[j], sets[j])
    {
      if sets[i].length == 0 {
        EmptySetShared(sets[i], Maps(sets), i);
        return Members([]);
      }
      assert sets[i].Valid();
      FirstNode(sets[i]);
      nodes := nodes[i := sets[i].head.links[0].next];
    }
    if |nodes| == 1 {
      return TypeError;
    }
    if |nodes| == 2 {
      var keys := Binary(nodes[0], nodes[1], sets[0], sets[1]);
      assert Maps(sets) == [sets[0].scores, sets[1].scores];
      return Members(keys);
    }
    if |nodes| == 3 {
      var keys := Ternary(nodes[0], nodes[1], nodes[2], sets[0], sets[1], sets[2]);
      assert Maps(sets) == [sets[0].scores, sets[1].scores, sets[2].scores];
      return Members(keys);
    }
    var keys := General(nodes, sets);
    return Members(keys);
  }

  ghost predicate Once(keys: seq<Key>) {
    forall p, q :: 0 <= p < q < |keys| ==> keys[p] != keys[q]
  }

  lemma {:induction false} CommonOnce(es: seq<Entry>, maps: seq<map<Key, real>>)
    requires forall p, q :: 0 <= p < q < |es| ==> es[p].key != es[q].key
    ensures Once(Common(es, maps))
  {
    hide InAll;
    if |es| != 0 {
      CommonOnce(es[1..], maps);
    }
  }

  /** The result holds exactly the keys that every set has, each once. */
  lemma IntersectionIsExact(maps: seq<map<Key, real>>)
    requires |maps| > 0
    ensures Once(InLastOrder(maps))
    ensures forall key :: key in InLastOrder(maps) <==> InAll(key, maps)
  {
    hide Sorted, Common;
    var last := maps[|maps| - 1];
    var es := Listing(last);
    forall p, q | 0 <= p < q < |es| ensures es[p].key != es[q].key {
      if es[p].key == es[q].key { KeysDistinct(es, last, p, q); }
    }
    CommonOnce(es, maps);
    forall key | InAll(key, maps) ensures exists e :: e in es && e.key == key {
      assert Entry(key, last[key]) in es;
    }
  }

  /** The result is in the order of the last set's scores, equal scores in the order of the keys. */
  lemma IntersectionInOrder(maps: seq<map<Key, real>>, i: nat, j: nat)
    requires |maps| > 0 && i < j < |InLastOrder(maps)|
    ensures var keys, last := InLastOrder(maps), maps[|maps| - 1];
      && keys[i] in last && keys[j] in last
      && (last[keys[i]] < last[keys[j]] || (last[keys[i]] == last[keys[j]] && KeyLess(keys[i], keys[j])))
  {
    hide Sorted, Common, KeyLess, InAll;
    var last := maps[|maps| - 1];
    CommonInOrder(Listing(last), maps, last);
  }

  lemma {:induction false} CommonInOrder(es: seq<Entry>, maps: seq<map<Key, real>>, m: map<Key, real>)
    requires Sorted(es) && forall e :: e in es ==> e.key in m && m[e.key] == e.score
    ensures var keys := Common(es, maps);
      && (forall key :: key in keys ==> key in m)
      && forall p, q :: 0 <= p < q < |keys| ==> Before(Entry(keys[p], m[keys[p]]), Entry(keys[q], m[keys[q]]))
  {
    hide InAll, Before;
    if |es| > 0 {
      CommonInOrder(es[1..], maps, m);
      assert es[0] in es;
      var rest := Common(es[1..], maps);
      hide Common, Sorted;
      forall q | 0 <= q < |rest| ensures Before(es[0], Entry(rest[q], m[rest[q]])) {
        assert rest[q] in rest;
        var e :| e in es[1..] && e.key == rest[q];
        FirstBefore(es, e);
      }
    }
  }

  lemma FirstBefore(es: seq<Entry>, e: Entry)
    requires Sorted(es) && |es| > 0 && e in es[1..]
    ensures e in es && Before(es[0], e)
  {
    hide Before;
    var k :| 0 <= k < |es[1..]| && es[1..][k] == e;
    assert es[k + 1] == e;
  }

  lemma FirstNode(s: SortedSet)
    requires s.Valid()
    ensures |s.head.links| > 0 && FirstOf(s.head.links[0].next, s)
    ensures s.length > 0 ==> s.scores != map[]
  {
    hide Wired, Chained, EntriesOf;
    assert s.length > 0 ==> s.Entries()[0] in s.Entries();
    FirstLink(s.spine, s.level, 0);
  }

  /** No key is in an empty set. */
  lemma EmptySetShared(s: SortedSet, maps: seq<map<Key, real>>, i: nat)
    requires i < |maps| && s.Valid() && s.length == 0 && maps[i] == s.scores
    ensures maps[i] == map[] && InLastOrder(maps) == []
  {
    hide Wired, Chained, EntriesOf;
    assert s.Entries() == [];
    NoCommon(Listing(maps[|maps| - 1]), maps);
  }
}
