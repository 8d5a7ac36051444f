/** What the queries of a sorted set list, entry by entry. */
module SetLaws {
  import opened Keys
  import opened Entries
  import opened Options
  import opened SortedSets
  import opened SetRuns

  /** Keys are compared unit by unit: at the first difference, or where one of them ends. */
  lemma {:induction false} KeyLessMeans(a: Key, b: Key)
    ensures KeyLess(a, b) <==>
      exists i {:trigger a[..i]} :: 0 <= i <= |a| && i < |b| && a[..i] == b[..i] && (i == |a| || a[i] < b[i])
  {
    if |a| > 0 && |b| > 0 && a[0] == b[0] {
      KeyLessMeans(a[1..], b[1..]);
      var x, y := a[1..], b[1..];
      if i :| 0 <= i <= |x| && i < |y| && x[..i] == y[..i] && (i == |x| || x[i] < y[i]) {
        assert a[..i + 1] == [a[0]] + x[..i] && b[..i + 1] == [b[0]] + y[..i];
      }
      if j :| 0 <= j <= |a| && j < |b| && a[..j] == b[..j] && (j == |a| || a[j] < b[j]) {
        assert j > 0;
        assert x[..j - 1] == a[..j][1..] && y[..j - 1] == b[..j][1..];
      }
    } else if |b| > 0 {
      assert a[..0] == b[..0];
    }
  }

  // ---------------------------------------------------------------- replies

  /** The reply lists these entries, one by one: pairs of key and score, or keys. */
  ghost predicate Shows(reply: Reply, es: seq<Entry>, withScores: bool) {
    if withScores then
      reply.Pairs? && |reply.pairs| == |es| &&
      forall k {:trigger es[k]} :: 0 <= k < |es| ==> reply.pairs[k].key == es[k].key && reply.pairs[k].score == es[k].score
    else
      reply.Keys? && |reply.keys| == |es| && forall k {:trigger es[k]} :: 0 <= k < |es| ==> reply.keys[k] == es[k].key
  }

  lemma ShowLists(es: seq<Entry>, withScores: bool)
    ensures Shows(Show(es, withScores), es, withScores)
  {
  }

  // ---------------------------------------------------------------- by score

  /** Above the minimum, or at it unless it is exclusive; absent and infinite ends bound nothing. */
  predicate AboveMin(score: real, min: Option<Bound>, exclusive: bool) {
    match min
    case None => true
    case Some(NegInf) => true
    case Some(PosInf) => false
    case Some(Fin(a)) => a < score || (a == score && !exclusive)
  }

  predicate BelowMax(score: real, max: Option<Bound>, exclusive: bool) {
    match max
    case None => true
    case Some(PosInf) => true
    case Some(NegInf) => false
    case Some(Fin(a)) => score < a || (a == score && !exclusive)
  }

  lemma HasMeans(min: Option<Bound>, max: Option<Bound>, minExclusive: bool, maxExclusive: bool, score: real)
    ensures ScoreRange(LowEnd(min), HighEnd(max), minExclusive, maxExclusive).Has(score) <==>
            AboveMin(score, min, minExclusive) && BelowMax(score, max, maxExclusive)
  {
  }

  /** rangeByScore lists exactly the entries whose score meets both ends, each once, in order. */
  lemma ScoresListed(es: seq<Entry>, min: Option<Bound>, max: Option<Bound>, minExclusive: bool, maxExclusive: bool, withScores: bool)
    returns (listed: seq<Entry>)
    requires Sorted(es)
    ensures Shows(Show(Sift(es, ScoreRange(LowEnd(min), HighEnd(max), minExclusive, maxExclusive), true), withScores), listed, withScores)
    ensures Sorted(listed)
    ensures forall e :: e in listed <==>
      e in es && AboveMin(e.score, min, minExclusive) && BelowMax(e.score, max, maxExclusive)
  {
    hide Sift, ScoreRange.Has, Sorted;
    var range := ScoreRange(LowEnd(min), HighEnd(max), minExclusive, maxExclusive);
    listed := Sift(es, range, true);
    ShowLists(listed, withScores);
    SiftSorted(es, range, true);
    forall e: Entry ensures range.Has(e.score) <==> AboveMin(e.score, min, minExclusive) && BelowMax(e.score, max, maxExclusive) {
      HasMeans(min, max, minExclusive, maxExclusive, e.score);
    }
  }

  /** remRangeByScore leaves exactly the entries that miss one of the inclusive ends, and counts the others. */
  lemma ScoresLeft(es: seq<Entry>, min: Option<Bound>, max: Option<Bound>)
    requires Sorted(es)
    ensures var range := Inclusive(LowEnd(min), HighEnd(max)); var left := Sift(es, range, false);
      && Sorted(left) && |left| + |Sift(es, range, true)| == |es|
      && forall e :: e in left <==> e in es && !(AboveMin(e.score, min, false) && BelowMax(e.score, max, false))
  {
    hide Sift, ScoreRange.Has, Sorted;
    var range := Inclusive(LowEnd(min), HighEnd(max));
    SiftSorted(es, range, false);
    SiftParted(es, range);
    forall e: Entry ensures range.Has(e.score) <==> AboveMin(e.score, min, false) && BelowMax(e.score, max, false) {
      HasMeans(min, max, false, false, e.score);
    }
  }

  lemma {:induction false} SiftSorted(es: seq<Entry>, range: ScoreRange, has: bool)
    requires Sorted(es)
    ensures Sorted(Sift(es, range, has))
  {
    hide ScoreRange.Has, Before;
    if |es| > 0 {
      SiftSorted(es[1..], range, has);
      var rest := Sift(es[1..], range, has);
      forall q | 0 <= q < |rest| ensures Before(es[0], rest[q]) {
        assert rest[q] in rest;
        var k :| 0 <= k < |es[1..]| && es[1..][k] == rest[q];
        assert es[k + 1] == rest[q];
      }
    }
  }

  lemma {:induction false} SiftParted(es: seq<Entry>, range: ScoreRange)
    ensures |Sift(es, range, true)| + |Sift(es, range, false)| == |es|
  {
    if |es| > 0 {
      SiftParted(es[1..], range);
    }
  }

  // ---------------------------------------------------------------- by rank

  /** Rank k of n lies between the ends: negative ones count from the end, absent ones bound nothing. */
  predicate Between(n: nat, start: Option<int>, stop: Option<int>, inclusive: bool, k: nat) {
    && (start.None? || if start.value >= 0 then start.value <= k else n + start.value <= k)
    && (stop.None? || if stop.value >= 0 then k < stop.value || (inclusive && k == stop.value)
                      else k < n + stop.value || (inclusive && k == n + stop.value))
  }

  /** range lists exactly the ranks between its ends, and remRangeByRank leaves exactly the others. */
  lemma RanksListed(es: seq<Entry>, start: Option<int>, stop: Option<int>, inclusive: bool)
    requires Sorted(es)
    ensures var listed, left := Ranks(es, start, stop, inclusive, true, 0), Ranks(es, start, stop, inclusive, false, 0);
      && Sorted(listed) && Sorted(left) && |listed| + |left| == |es|
      && (forall e :: e in listed || e in left ==> e in es)
      && forall k {:trigger es[k]} :: 0 <= k < |es| ==>
           (es[k] in listed <==> Between(|es|, start, stop, inclusive, k)) && (es[k] in left <==> !Between(|es|, start, stop, inclusive, k))
  {
    hide Ranks, Between, Before, Window;
    RanksAreWindow(es, start, stop, inclusive);
    var (lo, hi) := Window(|es|, start, stop, inclusive);
    forall k | 0 <= k < |es|
      ensures es[k] in es[lo..hi] <==> Between(|es|, start, stop, inclusive, k)
      ensures es[k] in es[..lo] + es[hi..] <==> !Between(|es|, start, stop, inclusive, k)
    {
      WindowIsBetween(|es|, start, stop, inclusive, k);
      InBlock(es, lo, hi, k);
    }
  }

  lemma WindowIsBetween(n: nat, start: Option<int>, stop: Option<int>, inclusive: bool, k: nat)
    requires k < n
    ensures var (lo, hi) := Window(n, start, stop, inclusive); lo <= k < hi <==> Between(n, start, stop, inclusive, k)
  {
  }

  lemma InBlock(es: seq<Entry>, lo: nat, hi: nat, k: nat)
    requires Sorted(es) && lo <= hi <= |es| && k < |es|
    ensures es[k] in es[lo..hi] <==> lo <= k < hi
    ensures es[k] in es[..lo] + es[hi..] <==> k < lo || hi <= k
  {
    hide Before;
    BeforeIrreflexive(es[k]);
    var block, others := es[lo..hi], es[..lo] + es[hi..];
    if lo <= k < hi {
      assert block[k - lo] == es[k];
    } else {
      assert others[if k < lo then k else k - (hi - lo)] == es[k];
    }
  }

  // ---------------------------------------------------------------- the machine, in terms of its map

  function ScoreOf(m: map<Key, real>, key: Key): Option<real> {
    if key in m then Some(m[key]) else None
  }

  /** A listing of some of the keys of m with their scores, in order. */
  ghost predicate Lists(m: map<Key, real>, listed: seq<Entry>) {
    Sorted(listed) && forall e :: e in listed ==> e.key in m && m[e.key] == e.score
  }

  lemma ScoreStep(unique: bool, m: map<Key, real>, key: Key)
    ensures Step(unique, m, Score(key)) == (m, Scored(ScoreOf(m, key)))
    ensures Step(unique, m, Rem(key)) == (m - {key}, Scored(ScoreOf(m, key)))
    ensures Step(unique, m, Add(key, None)) == (m - {key}, Added(Was(ScoreOf(m, key))))
    ensures Step(unique, m, Op.Empty).0 == map[]
  {
  }

  /** Outside unique mode every score is stored, and the old one answered. */
  lemma StoreStep(m: map<Key, real>, key: Key, score: real)
    ensures Step(false, m, Add(key, Some(score))) == (m[key := score], Added(Was(ScoreOf(m, key))))
    ensures var sum := (if key in m then m[key] else 0.0) + score;
      Step(false, m, IncrBy(score, key)) == (m[key := sum], Summed(sum, Was(ScoreOf(m, key))))
  {
    assert key in m ==> m[key := m[key]] == m;
  }

  /** In unique mode a score is refused when another key has it, and so is 0 where no other key has less;
      then nothing changes. */
  lemma UniqueStep(m: map<Key, real>, key: Key, score: real)
    requires ScoreOf(m, key) != Some(score)
    ensures var refused := (exists k :: k in m && k != key && m[k] == score)
                           || (score == 0.0 && forall k :: k in m && k != key ==> m[k] >= 0.0);
      Step(true, m, Add(key, Some(score))) ==
      if refused then (m, Added(Violation)) else (m[key := score], Added(Was(ScoreOf(m, key))))
  {
  }

  lemma CardStep(unique: bool, m: map<Key, real>)
    ensures Step(unique, m, Card) == (m, Counted(|m|))
  {
    ListingSize(Listing(m), m);
  }

  /** The rank of a member is its place in the listing; the empty name and absent ones have none. */
  lemma RankStep(unique: bool, m: map<Key, real>, key: Key) returns (listed: seq<Entry>, k: nat)
    ensures Lists(m, listed) && |listed| == |m|
    ensures key in m && key != [] ==>
      k < |listed| && listed[k].key == key && Step(unique, m, Rank(key)) == (m, Ranked(Some(k)))
    ensures key !in m || key == [] ==> Step(unique, m, Rank(key)) == (m, Ranked(None))
  {
    listed, k := Listing(m), 0;
    ListingSize(listed, m);
    if key in m && key != [] {
      PositionOfMember(listed, Entry(key, m[key]));
      k := Position(listed, Entry(key, m[key]));
    }
  }

  /** count is the number of keys in the range, except that one of several counts as none. */
  lemma CountStep(unique: bool, m: map<Key, real>, min: Option<Bound>, max: Option<Bound>) returns (listed: seq<Entry>)
    ensures Lists(m, listed)
    ensures forall k :: k in m ==> (Entry(k, m[k]) in listed <==> AboveMin(m[k], min, false) && BelowMax(m[k], max, false))
    ensures Step(unique, m, Count(min, max)) == (m, Counted(if |listed| == 1 && |m| > 1 then 0 else |listed|))
  {
    ListingSize(Listing(m), m);
    listed := ScoresListed(Listing(m), min, max, false, false, true);
    SameReply(listed, Sift(Listing(m), Inclusive(LowEnd(min), HighEnd(max)), true));
  }

  lemma SameReply(a: seq<Entry>, b: seq<Entry>)
    requires Shows(Show(b, true), a, true)
    ensures |a| == |b|
  {
  }

  /** rangeByScore answers with the keys whose scores meet the ends, in order. */
  lemma RangeByScoreStep(unique: bool, m: map<Key, real>, min: Option<Bound>, max: Option<Bound>, minExclusive: bool, maxExclusive: bool, withScores: bool)
    returns (reply: Reply, listed: seq<Entry>)
    ensures Step(unique, m, RangeByScore(min, max, minExclusive, maxExclusive, withScores)) == (m, Listed(reply))
    ensures Shows(reply, listed, withScores) && Lists(m, listed)
    ensures forall k :: k in m ==>
      (Entry(k, m[k]) in listed <==> AboveMin(m[k], min, minExclusive) && BelowMax(m[k], max, maxExclusive))
  {
    var range := ScoreRange(LowEnd(min), HighEnd(max), minExclusive, maxExclusive);
    reply := Show(Sift(Listing(m), range, true), withScores);
    listed := ScoresListed(Listing(m), min, max, minExclusive, maxExclusive, withScores);
  }

  /** range answers with the keys whose places in the listing lie between the ends. */
  lemma RangeStep(unique: bool, m: map<Key, real>, start: Option<int>, stop: Option<int>, withScores: bool)
    returns (reply: Reply, all: seq<Entry>, listed: seq<Entry>)
    ensures Step(unique, m, Range(start, stop, withScores)) == (m, Listed(reply))
    ensures Lists(m, all) && |all| == |m| && Shows(reply, listed, withScores) && Lists(m, listed)
    ensures forall e :: e in listed ==> e in all
    ensures forall k {:trigger all[k]} :: 0 <= k < |all| ==> (all[k] in listed <==> Between(|all|, start, stop, true, k))
  {
    hide Between, Ranks;
    all := Listing(m);
    ListingSize(all, m);
    RanksListed(all, start, stop, true);
    listed := Ranks(all, start, stop, true, true, 0);
    reply := Show(listed, withScores);
    ShowLists(listed, withScores);
  }

  /** remRangeByScore takes exactly the keys whose scores meet both ends, and counts them. */
  lemma RemRangeByScoreStep(unique: bool, m: map<Key, real>, min: Option<Bound>, max: Option<Bound>)
    ensures var (left, answer) := Step(unique, m, RemRangeByScore(min, max));
      && answer == Counted(|m| - |left|)
      && forall k :: (k in left <==> k in m && !(AboveMin(m[k], min, false) && BelowMax(m[k], max, false)))
                     && (k in left ==> left[k] == m[k])
  {
    hide Sift, Bindings, Sorted, ScoreRange.Has;
    var es := Listing(m);
    var rest := Sift(es, Inclusive(LowEnd(min), HighEnd(max)), false);
    ScoresLeft(es, min, max);
    BindingsOfSome(m, rest);
    ListingSize(es, m);
  }

  /** remRangeByRank takes exactly the keys whose places lie between start and before end. */
  lemma RemRangeByRankStep(unique: bool, m: map<Key, real>, start: Option<int>, end: Option<int>) returns (all: seq<Entry>)
    ensures Lists(m, all) && |all| == |m|
    ensures var (left, answer) := Step(unique, m, RemRangeByRank(start, end));
      && answer == Counted(|m| - |left|)
      && (forall k :: k in left ==> k in m && left[k] == m[k])
      && forall k {:trigger all[k]} :: 0 <= k < |all| ==> (all[k].key in left <==> !Between(|all|, start, end, false, k))
  {
    hide Ranks, Bindings, Between;
    all := Listing(m);
    ListingSize(all, m);
    RanksListed(all, start, end, false);
    var rest := Ranks(all, start, end, false, false, 0);
    BindingsOfSome(m, rest);
  }

  /** A listing of some keys as a map. */
  lemma BindingsOfSome(m: map<Key, real>, es: seq<Entry>)
    requires Lists(m, es)
    ensures Bindings(es).Keys <= m.Keys && |Bindings(es)| == |es|
    ensures forall k :: k in Bindings(es) ==> Bindings(es)[k] == m[k]
    ensures forall k :: k in m ==> (k in Bindings(es) <==> Entry(k, m[k]) in es)
  {
    hide Bindings, Sorted;
    var part := map k | k in m && Entry(k, m[k]) in es :: m[k];
    assert Agrees(es, part);
    BindingsAgree(es, part);
    ListingSize(es, part);
  }
}
