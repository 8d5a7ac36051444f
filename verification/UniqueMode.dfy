/**
  Unique mode at score 0. The head of the chain carries value 0, so a walk that looks for 0 and never
  leaves the head takes the head for a node that has the score. Whether it leaves the head depends on
  the heights of the nodes.
 */
module UniqueMode {
  import opened Keys
  import opened Entries
  import opened Options
  import opened SkipLinks
  import opened SortedSets
  import opened SetRuns

  /** 0 is sought among other scores of both signs. */
  ghost predicate DependsOnHeights(m: map<Key, real>, key: Key, value: real) {
    SeeksZero(m, key, value) && !NoneNegative(m, key) && !AllNegative(m, key)
  }

  ghost function FateIn(s: SortedSet, key: Key, value: real): Fate
    reads s
    requires |s.spine| >= 1
  {
    FateOf(s.unique, s.Others(key), s.Score(key), value)
  }

  /** Unique mode is meant to refuse a score exactly when another key has it. */
  ghost function Meant(m: map<Key, real>, key: Key, value: real): Fate {
    if Taken(m, key, value) then Refused else Stored
  }

  /** It does so when it does not look for 0, and when all other scores are negative; it does not when it
      looks for 0 and no other score is negative. In the one case left, heights decide. */
  lemma KeptWhen(s: SortedSet, key: Key, value: real)
    requires s.Valid() && s.unique && s.Score(key) != Some(value) && !DependsOnHeights(s.scores, key, value)
    ensures FateIn(s, key, value) == Meant(s.scores, key, value) <==>
            !SeeksZero(s.scores, key, value) || AllNegative(s.scores, key)
  {
    hide SortedSet.Valid, SortedSet.Others, Taken, HeadBlocks, SeeksZero, FateOf;
    FateIs(s, key, value);
    SignsDecide(s, key);
  }

  /** Elsewhere heights make no difference. */
  lemma HeightsDoNotMatter(s: SortedSet, t: SortedSet, key: Key, value: real)
    requires s.Valid() && t.Valid() && s.unique == t.unique && s.scores == t.scores
    requires s.Score(key) != Some(value) && (s.unique ==> !DependsOnHeights(s.scores, key, value))
    ensures FateIn(s, key, value) == FateIn(t, key, value)
  {
    hide SortedSet.Valid, SortedSet.Others, Taken, HeadBlocks, SeeksZero, FateOf, NoneNegative, AllNegative;
    FateIs(s, key, value);
    FateIs(t, key, value);
    SignsDecide(s, key);
    SignsDecide(t, key);
  }

  /** So runs are foreseen except where heights decide or a key is bound to be lost. */
  lemma ForeseenMeans(s: SortedSet, key: Key, value: real)
    requires s.Valid() && s.unique
    ensures Foreseen(s.scores, key, value) <==>
            !DependsOnHeights(s.scores, key, value) && !s.Loses(key, value)
  {
    hide SortedSet.Valid, SortedSet.Others, Taken, HeadBlocks, NoneNegative, AllNegative;
    SignsDecide(s, key);
    if s.Score(key) == Some(value) { NotLost(s, key, value); }
    if s.Score(key) == Some(0.0) && Taken(s.scores, key, value) {
      assert !(NoneNegative(s.scores, key) && AllNegative(s.scores, key)) by { OneSignOnly(s.scores, key); }
    }
  }

  lemma OneSignOnly(m: map<Key, real>, key: Key)
    ensures !(NoneNegative(m, key) && AllNegative(m, key))
  {
  }

  // ---------------------------------------------------------------- both outcomes

  /** add for a new key, with the height that the coin gives. */
  method Place(s: SortedSet, h: nat, key: Key, value: real) returns (node: Node)
    requires s.Valid() && s.unique && key !in s.scores && !Refuses(s.spine, value) && 1 <= h <= MAX_LEVEL
    modifies s, s.spine
    ensures s.Offered(key, value, Was(None)) && s.Valid() && s.unique && s.scores == old(s.scores)[key := value]
    ensures fresh(node) && node.height == h
    ensures var r := Position(old(s.Entries()), Entry(key, value));
      s.Entries() == Splice(old(s.Entries()), r, Entry(key, value)) && s.spine == Splice(old(s.spine), r + 1, node)
  {
    hide Wired, Chained, Predecessors, Sorted, EntriesOf, Position, Refuses, Splice, DistinctScores, Put, Without;
    ghost var e := Entry(key, value);
    assert e !in s.Entries();
    hide Agrees;
    SortedSplice(s.Entries(), e);
    PutSpec(s.Entries(), s.scores, key, value, None);
    WiredHead(s.spine, s.level);
    var ok, update, rank;
    ghost var us;
    ok, update, rank, us := s.DescendForInsert(key, value);
    NotTaken(s.spine, value);
    PredecessorAt(s.spine, 0, s.level, us[0], update, us, 0);
    node := s.Attach(h, key, value, update, rank, us);
    EntriesOfSplice(old(s.spine), us[0] + 1, node);
    s.scores := s.scores[key := value];
  }

  /** Nodes of one sign are taller than those of the other. */
  ghost predicate BySign(spine: seq<Node>, blocks: bool) {
    forall x {:trigger spine[x]} :: 1 <= x < |spine| ==>
      spine[x].height == if (spine[x].value >= 0.0) == blocks then 2 else 1
  }

  /** What comes before an entry of a listing with distinct scores. */
  lemma Earlier(es: seq<Entry>, m: map<Key, real>, i: nat)
    requires i < |es| && Sorted(es) && Agrees(es, m) && DistinctScores(es)
    ensures Position(es[..i], es[i]) == i
    ensures forall p :: 0 <= p < i ==> es[p].key != es[i].key && es[p].score < es[i].score
  {
    hide Position, KeyLess;
    forall p | 0 <= p < i ensures Before(es[p], es[i]) && es[p].key != es[i].key {
      hide Sorted, Agrees;
      if es[p].key == es[i].key { KeysDistinct(es, m, p, i); }
    }
    var front := es[..i];
    var r := Position(front, es[i]);
    assert r < i ==> Before(front[r], es[i]);
    PositionSplits(front, es[i]);
  }

  /** The next entry of a listing that starts below 0 is welcome behind those already there. */
  lemma NextFits(s: SortedSet, es: seq<Entry>, m: map<Key, real>, i: nat)
    requires s.Valid() && i < |es| && s.Entries() == es[..i]
    requires Sorted(es) && Agrees(es, m) && DistinctScores(es) && es[0].score < 0.0
    ensures es[i].key !in s.scores && !Refuses(s.spine, es[i].score) && Position(es[..i], es[i]) == i
  {
    hide SortedSet.Shape, EntriesOf, Position, HeadBlocks, Sorted, DistinctScores;
    assert forall k :: k in s.scores ==> Entry(k, s.scores[k]) in s.Entries();
    hide Agrees;
    Earlier(es, m, i);
    forall x | 1 <= x < |s.spine| ensures s.spine[x].value < es[i].score {
      assert s.Entries()[x - 1] == s.spine[x].Item();
    }
    OneSign(s.spine);
  }

  lemma StillBySign(spine: seq<Node>, node: Node, blocks: bool)
    requires |spine| >= 1 && BySign(spine, blocks) && node.height == if (node.value >= 0.0) == blocks then 2 else 1
    ensures BySign(Splice(spine, |spine|, node), blocks)
  {
    hide Splice;
  }

  /** A listing that starts below 0, added in order. */
  method Build(es: seq<Entry>, ghost m: map<Key, real>, blocks: bool) returns (s: SortedSet)
    requires Sorted(es) && Agrees(es, m) && DistinctScores(es) && |es| > 0 && es[0].score < 0.0
    ensures fresh(s) && fresh(s.spine) && s.Valid() && s.unique && s.scores == m && BySign(s.spine, blocks)
  {
    hide SortedSet.Valid, EntriesOf, Sorted, Agrees, DistinctScores, Bindings, Position, Splice, Refuses, BySign;
    s := new SortedSet(true);
    NothingYet(s, es, blocks);
    for i := 0 to |es|
      invariant fresh(s) && fresh(s.spine) && s.Valid() && s.unique
      invariant s.Entries() == es[..i] && s.scores == Bindings(es[..i]) && BySign(s.spine, blocks)
    {
      NextFits(s, es, m, i);
      MoreBindings(es, i);
      ghost var spine := s.spine;
      var node := Place(s, if (es[i].score >= 0.0) == blocks then 2 else 1, es[i].key, es[i].score);
      Appended(s, spine, es, i, node);
      StillBySign(spine, node, blocks);
    }
    assert es[..|es|] == es;
    BindingsAgree(es, m);
  }

  lemma NothingYet(s: SortedSet, es: seq<Entry>, blocks: bool)
    requires s.Valid() && s.Entries() == []
    ensures es[..0] == [] && Bindings(es[..0]) == map[] && BySign(s.spine, blocks)
  {
  }

  /** Splicing at the end is appending. */
  lemma Appended(s: SortedSet, spine: seq<Node>, es: seq<Entry>, i: nat, node: Node)
    requires |spine| == i + 1 && i < |es| && |s.spine| >= 1
    requires s.Entries() == Splice(es[..i], i, es[i]) && s.spine == Splice(spine, i + 1, node)
    ensures s.Entries() == es[..i + 1] && node.Item() == es[i]
  {
    hide EntriesOf, Splice;
    assert s.spine[i + 1] == node && s.Entries()[i] == es[i];
  }

  lemma OthersBySign(s: SortedSet, key: Key, blocks: bool)
    requires s.Valid() && BySign(s.spine, blocks)
    ensures BySign(s.Others(key), blocks)
  {
    hide SortedSet.Shape, EntriesOf, Sorted, DistinctScores, Agrees, Position, Cut;
  }

  lemma TallSign(spine: seq<Node>, x: nat, blocks: bool)
    requires BySign(spine, blocks) && 1 <= x < |spine| && (spine[x].value >= 0.0) == blocks
    ensures HeadBlocks(spine) <==> blocks
  {
    assert Tallest(spine, x);
  }

  /** Among taller nodes of one sign and others of both, that sign decides. */
  lemma TallDecide(s: SortedSet, key: Key, blocks: bool)
    requires s.Valid() && BySign(s.spine, blocks) && !NoneNegative(s.scores, key) && !AllNegative(s.scores, key)
    ensures HeadBlocks(s.Others(key)) <==> blocks
  {
    hide SortedSet.Valid, SortedSet.Others, EntriesOf, Sorted, Without, BySign;
    OthersList(s, key);
    var others := s.Others(key);
    var w := EntriesOf(others);
    OthersBySign(s, key, blocks);
    var low :| low in s.scores && low != key && s.scores[low] < 0.0;
    var high :| high in s.scores && high != key && s.scores[high] >= 0.0;
    var k := if blocks then high else low;
    assert k in s.scores - {key};
    var j :| 0 <= j < |w| && w[j] == Entry(k, s.scores[k]);
    assert w[j] == others[j + 1].Item();
    TallSign(others, j + 1, blocks);
  }

  /** Where heights decide, they decide either way: for every listing of such a map there are two runs of
      add that end in valid sets with these scores, of which one does what is meant and one does not. */
  method HeightsDecide(es: seq<Entry>, ghost m: map<Key, real>, key: Key, value: real) returns (a: SortedSet, b: SortedSet)
    requires Sorted(es) && Agrees(es, m) && DistinctScores(es) && DependsOnHeights(m, key, value)
    ensures a.Valid() && a.unique && a.scores == m && FateIn(a, key, value) == Meant(m, key, value)
    ensures b.Valid() && b.unique && b.scores == m && FateIn(b, key, value) != Meant(m, key, value)
  {
    hide SortedSet.Valid, SortedSet.Others, EntriesOf, Sorted, DistinctScores, BySign, HeadBlocks, Taken, FateOf;
    StartsNegative(es, m, key);
    a := Build(es, m, false);
    b := Build(es, m, true);
    TallDecide(a, key, false);
    TallDecide(b, key, true);
    FateIs(a, key, value);
    FateIs(b, key, value);
  }

  lemma StartsNegative(es: seq<Entry>, m: map<Key, real>, key: Key)
    requires Sorted(es) && Agrees(es, m) && !NoneNegative(m, key)
    ensures |es| > 0 && es[0].score < 0.0
  {
    var k :| k in m && k != key && m[k] < 0.0;
    var j :| 0 <= j < |es| && es[j] == Entry(k, m[k]);
    assert j > 0 ==> Before(es[0], es[j]);
  }

  // ---------------------------------------------------------------- scores apart

  /** In unique mode add keeps all scores apart unless it loses the key, and then it does not. */
  method AddKeepsScoresApart(s: SortedSet, key: Key, value: real) returns (r: AddResult)
    requires s.Valid() && s.unique
    modifies s, s.spine
    ensures ScoresApart(s.scores) <==> !old(s.Loses(key, value))
    ensures s.Offered(key, value, r)
  {
    hide SortedSet.Shape, SortedSet.Others, EntriesOf, Sorted, HeadBlocks, Put, Without, FateOf;
    ghost var m := s.scores;
    ghost var lost := s.Loses(key, value);
    if s.Score(key) != Some(value) { FateIs(s, key, value); } else { NotLost(s, key, value); }
    r := s.Add(key, Some(value));
    if lost {
      var k :| k in m && k != key && m[k] == value;
      assert s.scores[k] == s.scores[key];
    } else {
      ValidIsApart(s);
    }
  }

  // ---------------------------------------------------------------- a lost key

  method ZeroAndFive() returns (s: SortedSet)
    ensures fresh(s) && fresh(s.spine) && s.Valid() && s.unique && s.scores == map[[2] := 0.0, [3] := 5.0]
  {
    hide SortedSet.Valid, EntriesOf, Without;
    s := new SortedSet(true);
    var a := AddTo(s, [1], -1.0);
    var b := AddTo(s, [2], 0.0);
    assert s.scores == map[[1] := -1.0, [2] := 0.0];
    var c := AddTo(s, [3], 5.0);
    var d := s.Rem([1]);
    assert s.scores == map[[2] := 0.0, [3] := 5.0];
  }

  /** A run of unique mode that drops a member from the chain and reports no error: 2, scored 0, is
      offered the score of 3 while nothing scores below 0. */
  method ForgottenMember() returns (s: SortedSet, r: AddResult, keys: seq<Key>)
    ensures r == Was(Some(0.0)) && s.scores == map[[2] := 5.0, [3] := 5.0] && keys == [[3]]
  {
    hide SortedSet.Valid, SortedSet.Shape, SortedSet.Others, Sorted, Agrees, DistinctScores, Put, Without, HeadBlocks, EntriesOf, FateOf, Refuses;
    s := ZeroAndFive();
    assert [3] in s.scores;
    SignsDecide(s, [2]);
    FateIs(s, [2], 5.0);
    OthersList(s, [2]);
    OnlyEntry(Without(s.Entries(), [2]), s.scores - {[2]}, [3], 5.0);
    r := s.Add([2], Some(5.0));
    keys := s.KeyList();
  }

  lemma OnlyEntry(es: seq<Entry>, m: map<Key, real>, key: Key, score: real)
    requires Sorted(es) && Agrees(es, m) && m == map[key := score]
    ensures es == [Entry(key, score)]
  {
    ListingIs(es, m);
    ListingIs([Entry(key, score)], m);
  }
}
