/**
  What a sorted set is, seen from outside: a map from keys to scores. Every operation is a step on that
  map, and every answer a function of it, whatever heights the nodes were given.
 */
module SetRuns {
  import opened Keys
  import opened Entries
  import opened Options
  import opened SkipLinks
  import opened SortedSets

  datatype Op =
    | Add(key: Key, score: Option<real>)
    | Rem(key: Key)
    | IncrBy(increment: real, key: Key)
    | RemRangeByRank(start: Option<int>, end: Option<int>)
    | RemRangeByScore(min: Option<Bound>, max: Option<Bound>)
    | Empty
    | Score(key: Key)
    | Rank(key: Key)
    | Card
    | Count(min: Option<Bound>, max: Option<Bound>)
    | Range(start: Option<int>, stop: Option<int>, withScores: bool)
    | RangeByScore(min: Option<Bound>, max: Option<Bound>, minExclusive: bool, maxExclusive: bool, withScores: bool)

  datatype Answer =
    | Added(result: AddResult)
    | Summed(sum: real, result: AddResult)
    | Scored(score: Option<real>)
    | Ranked(rank: Option<nat>)
    | Counted(count: int)
    | Listed(reply: Reply)
    | Nothing

  // ---------------------------------------------------------------- the machine

  function SumIn(m: map<Key, real>, increment: real, key: Key): real {
    (if key in m then m[key] else 0.0) + increment
  }

  ghost function RankIn(m: map<Key, real>, key: Key): Option<nat> {
    if key in m && key != [] then Some(Position(Listing(m), Entry(key, m[key]))) else None
  }

  ghost function CountIn(m: map<Key, real>, min: Bound, max: Bound): int {
    var n := |Sift(Listing(m), Inclusive(min, max), true)|;
    if n == 1 && |Listing(m)| > 1 then 0 else n
  }

  ghost function Step(unique: bool, m: map<Key, real>, op: Op): (map<Key, real>, Answer) {
    match op
    case Add(key, score) =>
      if score.None? then (m - {key}, Added(Was(ScoreIn(m, key))))
      else var (m', r) := Offer(unique, m, key, score.value); (m', Added(r))
    case Rem(key) => (m - {key}, Scored(ScoreIn(m, key)))
    case IncrBy(increment, key) =>
      var sum := SumIn(m, increment, key);
      var (m', r) := Offer(unique, m, key, sum); (m', Summed(sum, r))
    case RemRangeByRank(start, end) =>
      (Bindings(Ranks(Listing(m), start, end, false, false, 0)), Counted(|Ranks(Listing(m), start, end, false, true, 0)|))
    case RemRangeByScore(min, max) =>
      var range := Inclusive(LowEnd(min), HighEnd(max));
      (Bindings(Sift(Listing(m), range, false)), Counted(|Sift(Listing(m), range, true)|))
    case Empty => (map[], Nothing)
    case Score(key) => (m, Scored(ScoreIn(m, key)))
    case Rank(key) => (m, Ranked(RankIn(m, key)))
    case Card => (m, Counted(|Listing(m)|))
    case Count(min, max) => (m, Counted(CountIn(m, LowEnd(min), HighEnd(max))))
    case Range(start, stop, withScores) => (m, Listed(Show(Ranks(Listing(m), start, stop, true, true, 0), withScores)))
    case RangeByScore(min, max, minExclusive, maxExclusive, withScores) =>
      (m, Listed(Show(Sift(Listing(m), ScoreRange(LowEnd(min), HighEnd(max), minExclusive, maxExclusive), true), withScores)))
  }

  /** What unique mode answers to the operation does not depend on heights, and no key is lost. */
  ghost predicate ForeseenOp(m: map<Key, real>, op: Op) {
    match op
    case Add(key, Some(score)) => Foreseen(m, key, score)
    case IncrBy(increment, key) => Foreseen(m, key, SumIn(m, increment, key))
    case _ => true
  }

  // ---------------------------------------------------------------- refinement

  method AddTo(s: SortedSet, key: Key, value: real) returns (r: AddResult)
    requires s.Valid()
    requires s.unique ==> Foreseen(s.scores, key, value)
    modifies s, s.spine
    ensures s.Valid() && s.unique == old(s.unique)
    ensures (s.scores, r) == Offer(s.unique, old(s.scores), key, value)
    ensures forall i :: 0 <= i < |s.spine| ==> s.spine[i] in old(s.spine) || fresh(s.spine[i])
  {
    hide SortedSet.Valid, SortedSet.Others, FateOf, Taken, NoneNegative, AllNegative, Foreseen, Put, Without;
    if s.Score(key) != Some(value) { OfferIs(s, key, value); }
    r := s.Add(key, Some(value));
  }

  method IncrementIn(s: SortedSet, increment: real, key: Key) returns (sum: real, r: AddResult)
    requires s.Valid()
    requires s.unique ==> Foreseen(s.scores, key, SumIn(s.scores, increment, key))
    modifies s, s.spine
    ensures s.Valid() && s.unique == old(s.unique)
    ensures sum == SumIn(old(s.scores), increment, key) && (s.scores, r) == Offer(s.unique, old(s.scores), key, sum)
    ensures forall i :: 0 <= i < |s.spine| ==> s.spine[i] in old(s.spine) || fresh(s.spine[i])
  {
    hide SortedSet.Valid, SortedSet.Others, FateOf, Taken, NoneNegative, AllNegative, Foreseen, Put, Without;
    ghost var v := SumIn(s.scores, increment, key);
    if s.Score(key) != Some(v) { OfferIs(s, key, v); }
    sum, r := s.IncrBy(increment, key);
  }

  /** Operations that only read. */
  predicate Reads(op: Op) {
    op.Score? || op.Rank? || op.Card? || op.Count? || op.Range? || op.RangeByScore?
  }

  method Answering(s: SortedSet, op: Op) returns (a: Answer)
    requires s.Valid() && Reads(op)
    ensures (s.scores, a) == Step(s.unique, s.scores, op)
  {
    hide SortedSet.Shape, EntriesOf, Sorted, Agrees, DistinctScores, Sift, Ranks, Show;
    ListingIs(s.Entries(), s.scores);
    match op {
      case Score(key) =>
        a := Scored(s.Score(key));
      case Rank(key) =>
        var r := s.Rank(key);
        RankIs(s, key, r);
        a := Ranked(r);
      case Card =>
        var n := s.Card();
        a := Counted(n);
      case Count(min, max) =>
        var n := s.Count(min, max);
        a := Counted(n);
      case Range(start, stop, withScores) =>
        var l := s.Range(start, stop, withScores);
        a := Listed(l);
      case RangeByScore(min, max, minExclusive, maxExclusive, withScores) =>
        var l := s.RangeByScore(min, max, minExclusive, maxExclusive, withScores);
        a := Listed(l);
    }
  }

  lemma RankIs(s: SortedSet, key: Key, r: Option<nat>)
    requires s.Valid() && (r.Some? <==> key in s.scores && key != [])
    requires r.Some? ==> r.value < |s.Entries()| && s.Entries()[r.value] == Entry(key, s.scores[key])
    ensures r == RankIn(s.scores, key)
  {
    hide SortedSet.Shape, EntriesOf, Sorted;
    ListingIs(s.Entries(), s.scores);
    if r.Some? {
      PositionOfMember(s.Entries(), Entry(key, s.scores[key]));
      KeysDistinct(s.Entries(), s.scores, r.value, Position(s.Entries(), Entry(key, s.scores[key])));
    }
  }

  /** Every operation is the machine's step. */
  method Apply(s: SortedSet, op: Op) returns (a: Answer)
    requires s.Valid() && (s.unique ==> ForeseenOp(s.scores, op))
    modifies s, s.spine
    ensures s.Valid() && s.unique == old(s.unique)
    ensures (s.scores, a) == Step(s.unique, old(s.scores), op)
    ensures forall i :: 0 <= i < |s.spine| ==> s.spine[i] in old(s.spine) || fresh(s.spine[i])
  {
    hide SortedSet.Shape, EntriesOf, Sorted, Agrees, DistinctScores, Sift, Ranks, Without;
    if Reads(op) {
      a := Answering(s, op);
      return;
    }
    ListingIs(s.Entries(), s.scores);
    match op {
      case Add(key, score) =>
        if score.None? {
          var r := s.Add(key, None);
          a := Added(r);
        } else {
          var r := AddTo(s, key, score.value);
          a := Added(r);
        }
      case Rem(key) =>
        var r := s.Rem(key);
        a := Scored(r);
      case IncrBy(increment, key) =>
        var sum, r := IncrementIn(s, increment, key);
        a := Summed(sum, r);
      case RemRangeByRank(start, end) =>
        var n := s.RemRangeByRank(start, end);
        s.Describes();
        a := Counted(n);
      case RemRangeByScore(min, max) =>
        var n := s.RemRangeByScore(min, max);
        s.Describes();
        a := Counted(n);
      case Empty =>
        s.Empty();
        a := Nothing;
    }
  }

  // ---------------------------------------------------------------- whole runs

  ghost function Run(unique: bool, m: map<Key, real>, ops: seq<Op>): (map<Key, real>, seq<Answer>)
    decreases |ops|
  {
    if |ops| == 0 then (m, [])
    else
      var (m', a) := Step(unique, m, ops[0]);
      var (m'', answers) := Run(unique, m', ops[1..]);
      (m'', [a] + answers)
  }

  ghost predicate ForeseenRun(m: map<Key, real>, ops: seq<Op>)
    decreases |ops|
  {
    |ops| == 0 || (ForeseenOp(m, ops[0]) && ForeseenRun(Step(true, m, ops[0]).0, ops[1..]))
  }

  /** answers are those of the first i operations, which lead from m0 to m. */
  ghost predicate Reached(unique: bool, m0: map<Key, real>, ops: seq<Op>, i: nat, m: map<Key, real>, answers: seq<Answer>) {
    i <= |ops| &&
    var (end, rest) := Run(unique, m, ops[i..]);
    Run(unique, m0, ops) == (end, answers + rest)
  }

  lemma ReachedStart(unique: bool, m0: map<Key, real>, ops: seq<Op>)
    ensures Reached(unique, m0, ops, 0, m0, [])
  {
    hide Run;
    assert ops[0..] == ops && [] + Run(unique, m0, ops).1 == Run(unique, m0, ops).1;
  }

  lemma ReachedNext(unique: bool, m0: map<Key, real>, ops: seq<Op>, i: nat, m: map<Key, real>, answers: seq<Answer>)
    requires Reached(unique, m0, ops, i, m, answers) && i < |ops|
    ensures var (m', a) := Step(unique, m, ops[i]); Reached(unique, m0, ops, i + 1, m', answers + [a])
    ensures unique && ForeseenRun(m, ops[i..]) ==> ForeseenOp(m, ops[i]) && ForeseenRun(Step(unique, m, ops[i]).0, ops[i + 1..])
  {
    hide Step, ForeseenOp;
    assert ops[i..][0] == ops[i] && ops[i..][1..] == ops[i + 1..];
    var (m', a) := Step(unique, m, ops[i]);
    var rest := Run(unique, m', ops[i + 1..]).1;
    assert answers + ([a] + rest) == (answers + [a]) + rest;
  }

  lemma ReachedEnd(unique: bool, m0: map<Key, real>, ops: seq<Op>, m: map<Key, real>, answers: seq<Answer>)
    requires Reached(unique, m0, ops, |ops|, m, answers)
    ensures (m, answers) == Run(unique, m0, ops)
  {
    assert answers + [] == answers;
  }

  lemma ValidIsApart(s: SortedSet)
    requires s.Valid() && s.unique
    ensures ScoresApart(s.scores)
  {
    hide SortedSet.Valid;
    forall k | k in s.scores ensures !Taken(s.scores, k, s.scores[k]) {
      ScoresOnce(s, k);
    }
  }

  /** Every run that is foreseen, in unique mode or not, is a run of the machine; in unique mode it
      brings no two keys to the same score. */
  method Drive(s: SortedSet, ops: seq<Op>) returns (answers: seq<Answer>)
    requires s.Valid() && (s.unique ==> ForeseenRun(s.scores, ops))
    modifies s, s.spine
    ensures s.Valid() && s.unique == old(s.unique) && (s.scores, answers) == Run(s.unique, old(s.scores), ops)
    ensures s.unique ==> ScoresApart(s.scores)
    ensures forall i :: 0 <= i < |s.spine| ==> s.spine[i] in old(s.spine) || fresh(s.spine[i])
  {
    hide SortedSet.Valid, Step, ForeseenOp, ForeseenRun, Reached, Run;
    answers := [];
    assert ops[0..] == ops;
    ReachedStart(s.unique, s.scores, ops);
    for i := 0 to |ops|
      invariant s.Valid() && s.unique == old(s.unique)
      invariant forall i :: 0 <= i < |s.spine| ==> s.spine[i] in old(s.spine) || fresh(s.spine[i])
      invariant s.unique ==> ForeseenRun(s.scores, ops[i..])
      invariant Reached(s.unique, old(s.scores), ops, i, s.scores, answers)
    {
      ReachedNext(s.unique, old(s.scores), ops, i, s.scores, answers);
      var a := Apply(s, ops[i]);
      answers := answers + [a];
    }
    ReachedEnd(s.unique, old(s.scores), ops, s.scores, answers);
    if s.unique { ValidIsApart(s); }
  }

  /** Heights cannot be observed: two sets with the same scores, driven by the same operations, give the
      same answers, whatever heights each has given its nodes. In unique mode the run has to be foreseen;
      what is not foreseen depends on heights, or loses a key. */
  method Twins(a: SortedSet, b: SortedSet, ops: seq<Op>) returns (x: seq<Answer>, y: seq<Answer>)
    requires a.Valid() && b.Valid() && a.Apart(b) && a.unique == b.unique && a.scores == b.scores
    requires a.unique ==> ForeseenRun(a.scores, ops)
    modifies a, b, a.spine, b.spine
    ensures x == y && a.scores == b.scores
  {
    hide SortedSet.Valid, Step, ForeseenOp, Run, ForeseenRun;
    x := Drive(a, ops);
    y := Drive(b, ops);
  }

  ghost predicate ScoresApart(m: map<Key, real>) {
    forall j, k :: j in m && k in m && j != k ==> m[j] != m[k]
  }

  lemma {:induction false} BindingsWithin(es: seq<Entry>)
    ensures forall k :: k in Bindings(es) ==> Entry(k, Bindings(es)[k]) in es
  {
    if |es| != 0 {
      BindingsWithin(es[..|es| - 1]);
    }
  }

  lemma {:induction false} RanksWithin(es: seq<Entry>, start: Option<int>, stop: Option<int>, inclusive: bool, selected: bool, k: nat)
    requires k <= |es|
    ensures forall e :: e in Ranks(es, start, stop, inclusive, selected, k) ==> e in es
    decreases |es| - k
  {
    if k < |es| {
      RanksWithin(es, start, stop, inclusive, selected, k + 1);
    }
  }

  lemma SubListing(m: map<Key, real>, es: seq<Entry>)
    requires ScoresApart(m) && forall e :: e in es ==> e in Listing(m)
    ensures ScoresApart(Bindings(es))
  {
    hide Bindings, Listing;
    BindingsWithin(es);
    assert forall e :: e in es ==> e.key in m && m[e.key] == e.score;
  }

  lemma UniqueStepKeepsScoresApart(m: map<Key, real>, op: Op)
    requires ScoresApart(m)
    ensures ScoresApart(Step(true, m, op).0)
  {
    hide Bindings, Sift, Ranks, Listing, Show;
    match op {
      case RemRangeByRank(start, end) =>
        RanksWithin(Listing(m), start, end, false, false, 0);
        SubListing(m, Ranks(Listing(m), start, end, false, false, 0));
      case RemRangeByScore(min, max) =>
        SubListing(m, Sift(Listing(m), Inclusive(LowEnd(min), HighEnd(max)), false));
      case _ =>
    }
  }

  /** On the machine, in unique mode no run brings two keys to the same score. */
  lemma {:induction false} UniqueRunKeepsScoresApart(m: map<Key, real>, ops: seq<Op>)
    requires ScoresApart(m)
    ensures ScoresApart(Run(true, m, ops).0)
    decreases |ops|
  {
    hide Step, ScoresApart;
    if |ops| != 0 {
      UniqueStepKeepsScoresApart(m, ops[0]);
      UniqueRunKeepsScoresApart(Step(true, m, ops[0]).0, ops[1..]);
    }
  }

  // ---------------------------------------------------------------- ranks and positions

  /** rank inverts the access by index; the empty key alone never has a rank. */
  method RankAfterGet(s: SortedSet, i: nat) returns (node: Node?, r: Option<nat>)
    requires s.Valid() && i < |s.Entries()|
    ensures node != null && node.Item() == s.Entries()[i]
    ensures r == if node.key == [] then None else Some(i)
  {
    hide SortedSet.Shape, EntriesOf, Sorted;
    ghost var es := s.Entries();
    node := s.Get(i);
    assert es[i] == node.Item() && es[i] in es;
    r := s.Rank(node.key);
    if r.Some? {
      KeysDistinct(es, s.scores, i, r.value);
    }
  }

  /** Access by index inverts rank. */
  method GetAfterRank(s: SortedSet, key: Key) returns (r: Option<nat>, node: Node?)
    requires s.Valid()
    ensures node != null <==> key in s.scores && key != []
    ensures node != null ==> node.key == key && node.value == s.scores[key]
  {
    hide SortedSet.Shape, EntriesOf, Sorted;
    r := s.Rank(key);
    node := null;
    if r.Some? {
      node := s.Get(r.value);
      assert s.Entries()[r.value] == node.Item();
    }
  }

  // ---------------------------------------------------------------- a count that forgets

  /** With 1 and 2 scored 1 and 2, the range from 1 to 1 lists a member and counts none. */
  method CountForgetsOne() returns (n: int, listed: Reply)
    ensures n == 0 && listed == Keys([[1]])
  {
    hide SortedSet.Valid, EntriesOf;
    var s := new SortedSet(false);
    var a := AddTo(s, [1], 1.0);
    var b := AddTo(s, [2], 2.0);
    ghost var es := [Entry([1], 1.0), Entry([2], 2.0)];
    assert s.scores == map[[1] := 1.0, [2] := 2.0];
    OneInRange(es, s.scores);
    var count := Answering(s, Count(Some(Fin(1.0)), Some(Fin(1.0))));
    var range := Answering(s, RangeByScore(Some(Fin(1.0)), Some(Fin(1.0)), false, false, false));
    return count.count, range.reply;
  }

  lemma OneInRange(es: seq<Entry>, m: map<Key, real>)
    requires es == [Entry([1], 1.0), Entry([2], 2.0)] && m == map[[1] := 1.0, [2] := 2.0]
    ensures Listing(m) == es && Sift(es, Inclusive(Fin(1.0), Fin(1.0)), true) == [es[0]]
    ensures KeysOf([es[0]]) == [[1]]
  {
    ListingIs(es, m);
    assert es[1..] == [es[1]] && es[1..][1..] == [];
  }
}
