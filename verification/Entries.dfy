/** The sequence that a sorted set stands for: (key, score) pairs in score order, ties broken by key. */
module Entries {
  import opened Keys
  import opened Options

  datatype Entry = Entry(key: Key, score: real)

  /** A score bound: a JavaScript number other than NaN. */
  datatype Bound = NegInf | Fin(value: real) | PosInf
  {
    /** score < this */
    predicate Above(score: real) {
      match this
      case NegInf => false
      case Fin(v) => score < v
      case PosInf => true
    }

    /** score <= this */
    predicate AtLeast(score: real) {
      match this
      case NegInf => false
      case Fin(v) => score <= v
      case PosInf => true
    }

    /** this < other */
    predicate Less(other: Bound) {
      match (this, other)
      case (Fin(a), Fin(b)) => a < b
      case _ => this != other && (this.NegInf? || other.PosInf?)
    }
  }

  datatype ScoreRange = ScoreRange(min: Bound, max: Bound, minExclusive: bool, maxExclusive: bool)
  {
    predicate Has(score: real) {
      && !min.Above(score)
      && max.AtLeast(score)
      && !(minExclusive && min == Fin(score))
      && !(maxExclusive && max == Fin(score))
    }
  }

  function Inclusive(min: Bound, max: Bound): ScoreRange {
    ScoreRange(min, max, false, false)
  }

  predicate Before(a: Entry, b: Entry) {
    a.score < b.score || (a.score == b.score && KeyLess(a.key, b.key))
  }

  lemma BeforeIrreflexive(a: Entry)
    ensures !Before(a, a)
  {
    KeyLessIrreflexive(a.key);
  }

  lemma BeforeTransitive(a: Entry, b: Entry, c: Entry)
    requires Before(a, b) && Before(b, c)
    ensures Before(a, c)
  {
    if a.score == b.score == c.score {
      KeyLessTransitive(a.key, b.key, c.key);
    }
  }

  lemma BeforeTotal(a: Entry, b: Entry)
    requires a != b
    ensures Before(a, b) || Before(b, a)
  {
    if a.score == b.score {
      KeyLessTotal(a.key, b.key);
    }
  }

  lemma BeforeAsymmetric(a: Entry, b: Entry)
    requires Before(a, b)
    ensures !Before(b, a)
  {
    if Before(b, a) {
      BeforeTransitive(a, b, a);
      BeforeIrreflexive(a);
    }
  }

  ghost predicate Sorted(es: seq<Entry>) {
    forall p, q :: 0 <= p < q < |es| ==> Before(es[p], es[q])
  }

  ghost predicate DistinctScores(es: seq<Entry>) {
    forall p, q :: 0 <= p < q < |es| ==> es[p].score != es[q].score
  }

  /** es lists the bindings of m. */
  ghost predicate Agrees(es: seq<Entry>, m: map<Key, real>) {
    && (forall e :: e in es ==> e.key in m && m[e.key] == e.score)
    && (forall k :: k in m ==> Entry(k, m[k]) in es)
  }

  /** A map has only one sorted listing. */
  lemma {:induction false} SortedListingUnique(a: seq<Entry>, b: seq<Entry>)
    requires Sorted(a) && Sorted(b)
    requires forall e :: e in a <==> e in b
    ensures a == b
  {
    assert forall i :: 0 <= i < |b| ==> b[i] in a;
    assert forall i :: 0 <= i < |a| ==> a[i] in b;
    if |a| != 0 && |b| != 0 {
      if a[0] != b[0] {
        var i :| 0 <= i < |b| && b[i] == a[0];
        var j :| 0 <= j < |a| && a[j] == b[0];
        BeforeAsymmetric(b[0], a[0]);
        assert false;
      }
      forall e ensures e in a[1..] <==> e in b[1..] {
        BeforeIrreflexive(a[0]);
        assert e in a <==> e == a[0] || e in a[1..];
        assert e in b <==> e == b[0] || e in b[1..];
      }
      SortedListingUnique(a[1..], b[1..]);
    }
  }

  /** In a sorted listing no key occurs twice. */
  lemma KeysDistinct(es: seq<Entry>, m: map<Key, real>, p: nat, q: nat)
    requires Sorted(es) && Agrees(es, m)
    requires p < |es| && q < |es| && es[p].key == es[q].key
    ensures p == q
  {
    BeforeIrreflexive(es[p]);
    assert es[p] in es && es[q] in es;
    assert es[p] == es[q];
  }

  // ---------------------------------------------------------------- positions

  /** How many leading entries come before e. */
  function Position(es: seq<Entry>, e: Entry): (r: nat)
    ensures r <= |es|
  {
    if |es| == 0 || !Before(es[0], e) then 0 else 1 + Position(es[1..], e)
  }

  lemma {:induction false} PositionSplits(es: seq<Entry>, e: Entry)
    requires Sorted(es)
    ensures forall p :: 0 <= p < |es| ==> (Before(es[p], e) <==> p < Position(es, e))
  {
    if |es| != 0 {
      if Before(es[0], e) {
        PositionSplits(es[1..], e);
        forall p | 0 <= p < |es| ensures Before(es[p], e) <==> p < Position(es, e) {
          if p > 0 { assert es[p] == es[1..][p - 1]; }
        }
      } else {
        forall p | 0 <= p < |es| ensures !Before(es[p], e) {
          if p > 0 && Before(es[p], e) { BeforeTransitive(es[0], es[p], e); }
        }
      }
    }
  }

  lemma PositionOfMember(es: seq<Entry>, e: Entry)
    requires Sorted(es)
    ensures e in es <==> Position(es, e) < |es| && es[Position(es, e)] == e
  {
    PositionSplits(es, e);
    if e in es {
      var j :| 0 <= j < |es| && es[j] == e;
      BeforeIrreflexive(e);
      assert forall p :: 0 <= p < j ==> Before(es[p], es[j]);
    }
  }

  /** How many leading entries score below b. */
  function ScorePosition(es: seq<Entry>, b: Bound): (r: nat)
    ensures r <= |es|
  {
    if |es| == 0 || !b.Above(es[0].score) then 0 else 1 + ScorePosition(es[1..], b)
  }

  lemma {:induction false} ScorePositionSplits(es: seq<Entry>, b: Bound)
    requires Sorted(es)
    ensures forall p :: 0 <= p < |es| ==> (b.Above(es[p].score) <==> p < ScorePosition(es, b))
  {
    if |es| != 0 && b.Above(es[0].score) {
      ScorePositionSplits(es[1..], b);
      forall p | 0 <= p < |es| ensures b.Above(es[p].score) <==> p < ScorePosition(es, b) {
        if p > 0 { assert es[p] == es[1..][p - 1]; }
      }
    }
  }

  /** How many leading entries score at most b. */
  function ScoreEnd(es: seq<Entry>, b: Bound): (r: nat)
    ensures r <= |es|
  {
    if |es| == 0 || !b.AtLeast(es[0].score) then 0 else 1 + ScoreEnd(es[1..], b)
  }

  lemma {:induction false} ScoreEndSplits(es: seq<Entry>, b: Bound)
    requires Sorted(es)
    ensures forall p :: 0 <= p < |es| ==> (b.AtLeast(es[p].score) <==> p < ScoreEnd(es, b))
  {
    if |es| != 0 && b.AtLeast(es[0].score) {
      ScoreEndSplits(es[1..], b);
      forall p | 0 <= p < |es| ensures b.AtLeast(es[p].score) <==> p < ScoreEnd(es, b) {
        if p > 0 { assert es[p] == es[1..][p - 1]; }
      }
    }
  }

  // ---------------------------------------------------------------- removing and inserting one entry

  ghost function Cut<T>(s: seq<T>, k: nat): (r: seq<T>)
    requires k < |s|
    ensures |r| == |s| - 1
    ensures forall x {:trigger r[x]} :: 0 <= x < |r| ==> r[x] == if x < k then s[x] else s[x + 1]
  {
    s[..k] + s[k + 1..]
  }

  ghost function Splice<T>(s: seq<T>, k: nat, n: T): (r: seq<T>)
    requires k <= |s|
    ensures |r| == |s| + 1 && r[k] == n
    ensures forall x {:trigger r[x]} :: 0 <= x < |r| && x != k ==> r[x] == if x < k then s[x] else s[x - 1]
  {
    s[..k] + [n] + s[k..]
  }

  lemma SortedCut(es: seq<Entry>, k: nat)
    requires Sorted(es) && k < |es|
    ensures Sorted(Cut(es, k))
  {
  }

  lemma DistinctCut(es: seq<Entry>, k: nat)
    requires DistinctScores(es) && k < |es|
    ensures DistinctScores(Cut(es, k))
  {
  }

  lemma AgreesCut(es: seq<Entry>, m: map<Key, real>, k: nat)
    requires Sorted(es) && Agrees(es, m) && k < |es|
    ensures Agrees(Cut(es, k), m - {es[k].key})
  {
    hide Cut, Sorted, Before;
    var c := Cut(es, k);
    forall e | e in c ensures e.key in m - {es[k].key} && m[e.key] == e.score {
      var x :| 0 <= x < |c| && c[x] == e;
      var y := if x < k then x else x + 1;
      assert es[y] == e;
      if e.key == es[k].key { KeysDistinct(es, m, y, k); }
    }
    forall key | key in m - {es[k].key} ensures Entry(key, m[key]) in c {
      var y :| 0 <= y < |es| && es[y] == Entry(key, m[key]);
      assert c[if y < k then y else y - 1] == es[y];
    }
  }

  /** es without the block from lo to hi. */
  function Outside(es: seq<Entry>, lo: nat, hi: nat): seq<Entry>
    requires lo <= |es| && hi <= |es|
  {
    if lo <= hi then es[..lo] + es[hi..] else es
  }

  lemma OutsideNothing(es: seq<Entry>, lo: nat, hi: nat)
    requires hi <= lo <= |es|
    ensures Outside(es, lo, hi) == es
  {
  }

  lemma OutsideAll(es: seq<Entry>)
    ensures Outside(es, 0, |es|) == []
  {
  }

  /** Cutting at the same place again takes the next entry of a block. */
  lemma CutBlock(es: seq<Entry>, lo: nat, hi: nat)
    requires lo <= hi < |es|
    ensures |Outside(es, lo, hi)| == |es| - (hi - lo) && Outside(es, lo, hi)[lo] == es[hi]
    ensures Cut(Outside(es, lo, hi), lo) == Outside(es, lo, hi + 1)
  {
  }

  /** A listing is as long as its map is large. */
  lemma {:induction false} ListingSize(es: seq<Entry>, m: map<Key, real>)
    requires Sorted(es) && Agrees(es, m)
    ensures |es| == |m|
    decreases |es|
  {
    hide Cut, Before;
    if |es| == 0 {
      assert m.Keys == {};
    } else {
      assert es[0] in es;
      AgreesCut(es, m, 0);
      SortedCut(es, 0);
      ListingSize(Cut(es, 0), m - {es[0].key});
      assert m.Keys == (m - {es[0].key}).Keys + {es[0].key};
    }
  }

  lemma SortedSplice(es: seq<Entry>, e: Entry)
    requires Sorted(es) && e !in es
    ensures Sorted(Splice(es, Position(es, e), e))
  {
    hide Splice, Before;
    var r := Position(es, e);
    PositionSplits(es, e);
    forall p | 0 <= p < |es| && p >= r ensures Before(e, es[p]) {
      BeforeTotal(es[p], e);
    }
    var s := Splice(es, r, e);
    forall p, q | 0 <= p < q < |s| ensures Before(s[p], s[q]) {
    }
  }

  // ---------------------------------------------------------------- what the operations mean

  /** The listing without a key. */
  function Without(es: seq<Entry>, key: Key): (r: seq<Entry>)
    ensures forall e :: e in r <==> e in es && e.key != key
  {
    if |es| == 0 then []
    else if es[0].key == key then Without(es[1..], key)
    else [es[0]] + Without(es[1..], key)
  }

  lemma {:induction false} WithoutAbsent(es: seq<Entry>, key: Key)
    requires forall e :: e in es ==> e.key != key
    ensures Without(es, key) == es
  {
    if |es| != 0 {
      WithoutAbsent(es[1..], key);
    }
  }

  lemma CutHead<T>(s: seq<T>, k: nat)
    requires k < |s|
    ensures Cut(s, k) == if k == 0 then s[1..] else [s[0]] + Cut(s[1..], k - 1)
  {
  }

  lemma {:induction false} WithoutOne(es: seq<Entry>, k: nat)
    requires k < |es| && forall p :: 0 <= p < |es| && p != k ==> es[p].key != es[k].key
    ensures Without(es, es[k].key) == Cut(es, k)
  {
    hide Cut;
    CutHead(es, k);
    if k == 0 {
      WithoutAbsent(es[1..], es[0].key);
    } else {
      WithoutOne(es[1..], k - 1);
    }
  }

  /** The listing after a key has been given a score. */
  ghost function Put(es: seq<Entry>, key: Key, score: real): seq<Entry> {
    var w := Without(es, key);
    Splice(w, Position(w, Entry(key, score)), Entry(key, score))
  }

  lemma WithoutAgrees(es: seq<Entry>, m: map<Key, real>, key: Key)
    requires Agrees(es, m)
    ensures Agrees(Without(es, key), m - {key})
  {
  }

  lemma PutAgrees(es: seq<Entry>, m: map<Key, real>, key: Key, score: real)
    requires Agrees(es, m)
    ensures Agrees(Put(es, key, score), m[key := score])
  {
  }

  lemma {:induction false} WithoutSorted(es: seq<Entry>, key: Key)
    requires Sorted(es)
    ensures Sorted(Without(es, key))
  {
    hide Before;
    if |es| != 0 {
      WithoutSorted(es[1..], key);
      var w := Without(es[1..], key);
      forall q | 0 <= q < |w| ensures Before(es[0], w[q]) {
        assert w[q] in es[1..];
      }
    }
  }

  /** Giving a key a score keeps the listing sorted, and makes it the listing of the updated map. */
  lemma PutListsUpdate(es: seq<Entry>, m: map<Key, real>, key: Key, score: real)
    requires Sorted(es) && Agrees(es, m)
    ensures Sorted(Put(es, key, score)) && Agrees(Put(es, key, score), m[key := score])
  {
    WithoutSorted(es, key);
    SortedSplice(Without(es, key), Entry(key, score));
    PutAgrees(es, m, key, score);
  }

  lemma WithoutKey(es: seq<Entry>, m: map<Key, real>, key: Key)
    requires Sorted(es) && Agrees(es, m)
    ensures key !in m ==> Without(es, key) == es
    ensures key in m ==>
      var e := Entry(key, m[key]);
      e in es && Position(es, e) < |es| && Without(es, key) == Cut(es, Position(es, e))
  {
    if key !in m {
      WithoutAbsent(es, key);
    } else {
      var e := Entry(key, m[key]);
      PositionOfMember(es, e);
      var k := Position(es, e);
      forall p | 0 <= p < |es| && p != k ensures es[p].key != key {
        if es[p].key == key { KeysDistinct(es, m, p, k); }
      }
      WithoutOne(es, k);
    }
  }

  // ---------------------------------------------------------------- what the queries mean

  function KeysOf(es: seq<Entry>): (keys: seq<Key>)
    ensures |keys| == |es|
    ensures forall k {:trigger keys[k]} :: 0 <= k < |keys| ==> keys[k] == es[k].key
  {
    seq(|es|, k requires 0 <= k < |es| => es[k].key)
  }

  /** Queries list members alone or, with scores, pairs. */
  datatype Reply = Keys(keys: seq<Key>) | Pairs(pairs: seq<Entry>)
  {
    function Push(e: Entry): Reply {
      match this
      case Keys(keys) => Keys(keys + [e.key])
      case Pairs(pairs) => Pairs(pairs + [e])
    }
  }

  function Show(es: seq<Entry>, withScores: bool): Reply {
    if withScores then Pairs(es) else Keys(KeysOf(es))
  }

  lemma ShowPush(es: seq<Entry>, withScores: bool, e: Entry)
    ensures Show(es, withScores).Push(e) == Show(es + [e], withScores)
  {
  }

  /** The entries whose score a range has, or those whose score it has not. */
  function Sift(es: seq<Entry>, range: ScoreRange, has: bool): (r: seq<Entry>)
    ensures |r| <= |es|
    ensures forall e :: e in r <==> e in es && range.Has(e.score) == has
  {
    if |es| == 0 then []
    else if range.Has(es[0].score) == has then [es[0]] + Sift(es[1..], range, has)
    else Sift(es[1..], range, has)
  }

  lemma {:induction false} SiftNone(es: seq<Entry>, range: ScoreRange, has: bool)
    requires forall k :: 0 <= k < |es| ==> range.Has(es[k].score) != has
    ensures Sift(es, range, has) == []
  {
    if |es| != 0 {
      SiftNone(es[1..], range, has);
    }
  }

  lemma {:induction false} SiftAll(es: seq<Entry>, range: ScoreRange, has: bool)
    requires forall k :: 0 <= k < |es| ==> range.Has(es[k].score) == has
    ensures Sift(es, range, has) == es
  {
    if |es| != 0 {
      SiftAll(es[1..], range, has);
    }
  }

  lemma {:induction false} SiftConcat(a: seq<Entry>, b: seq<Entry>, range: ScoreRange, has: bool)
    ensures Sift(a + b, range, has) == Sift(a, range, has) + Sift(b, range, has)
  {
    if |a| == 0 {
      assert a + b == b;
    } else {
      assert (a + b)[1..] == a[1..] + b;
      SiftConcat(a[1..], b, range, has);
      assert [a[0]] + (Sift(a[1..], range, has) + Sift(b, range, has)) == [a[0]] + Sift(a[1..], range, has) + Sift(b, range, has);
    }
  }

  lemma SiftAppend(a: seq<Entry>, e: Entry, range: ScoreRange, has: bool)
    ensures Sift(a + [e], range, has) == Sift(a, range, has) + if range.Has(e.score) == has then [e] else []
  {
    SiftConcat(a, [e], range, has);
  }

  lemma SiftParts(a: seq<Entry>, b: seq<Entry>, c: seq<Entry>, range: ScoreRange, has: bool)
    ensures Sift(a + b + c, range, has) == Sift(a, range, has) + Sift(b, range, has) + Sift(c, range, has)
  {
    SiftConcat(a + b, c, range, has);
    SiftConcat(a, b, range, has);
  }

  lemma SiftMiddle(es: seq<Entry>, lo: nat, hi: nat, range: ScoreRange)
    requires lo <= hi <= |es| && forall k :: 0 <= k < |es| ==> (range.Has(es[k].score) <==> lo <= k < hi)
    ensures Sift(es, range, true) == es[lo..hi]
    ensures Sift(es, range, false) == es[..lo] + es[hi..]
  {
    hide Sift, ScoreRange.Has;
    assert es == es[..lo] + es[lo..hi] + es[hi..];
    SiftParts(es[..lo], es[lo..hi], es[hi..], range, true);
    SiftParts(es[..lo], es[lo..hi], es[hi..], range, false);
    SiftNone(es[..lo], range, true);
    SiftAll(es[lo..hi], range, true);
    SiftNone(es[hi..], range, true);
    SiftAll(es[..lo], range, false);
    SiftNone(es[lo..hi], range, false);
    SiftAll(es[hi..], range, false);
  }

  /** In a sorted listing the entries of an inclusive range are consecutive. */
  lemma SiftIsSlice(es: seq<Entry>, min: Bound, max: Bound)
    requires Sorted(es)
    ensures var lo, hi, range := ScorePosition(es, min), ScoreEnd(es, max), Inclusive(min, max);
      && Sift(es, range, true) == (if lo <= hi then es[lo..hi] else [])
      && Sift(es, range, false) == Outside(es, lo, hi)
  {
    hide ScorePosition, ScoreEnd, Sift, Sorted;
    var lo, hi, range := ScorePosition(es, min), ScoreEnd(es, max), Inclusive(min, max);
    ScorePositionSplits(es, min);
    ScoreEndSplits(es, max);
    SiftMiddle(es, if lo <= hi then lo else 0, if lo <= hi then hi else 0, range);
  }

  /** Whether rank k of n lies between start and stop: absent ends are open, negative ones count from
      the end, and stop itself is in or out. */
  predicate Selected(n: nat, start: Option<int>, stop: Option<int>, inclusive: bool, k: int) {
    && 0 <= k < n
    && (start.Some? ==> (if start.value < 0 then n + start.value else start.value) <= k)
    && (stop.Some? ==> var s := if stop.value < 0 then n + stop.value else stop.value; if inclusive then k <= s else k < s)
  }

  /** The entries from rank k on that are selected, or those that are not. */
  function Ranks(es: seq<Entry>, start: Option<int>, stop: Option<int>, inclusive: bool, selected: bool, k: nat): seq<Entry>
    requires k <= |es|
    decreases |es| - k
  {
    if k == |es| then []
    else (if Selected(|es|, start, stop, inclusive, k) == selected then [es[k]] else [])
         + Ranks(es, start, stop, inclusive, selected, k + 1)
  }

  lemma {:induction false} RanksIn(es: seq<Entry>, start: Option<int>, stop: Option<int>, inclusive: bool, lo: nat, hi: nat, k: nat)
    requires lo <= hi <= |es| && k <= |es|
    requires forall j :: 0 <= j < |es| ==> (Selected(|es|, start, stop, inclusive, j) <==> lo <= j < hi)
    ensures Ranks(es, start, stop, inclusive, true, k) == if k >= hi then [] else es[if k < lo then lo else k..hi]
    decreases |es| - k
  {
    hide Selected;
    if k < |es| {
      RanksIn(es, start, stop, inclusive, lo, hi, k + 1);
      assert lo <= k < hi ==> es[k..hi] == [es[k]] + es[k + 1..hi];
    }
  }

  lemma {:induction false} RanksBehind(es: seq<Entry>, start: Option<int>, stop: Option<int>, inclusive: bool, lo: nat, hi: nat, k: nat)
    requires lo <= hi <= |es| && lo <= k <= |es|
    requires forall j :: 0 <= j < |es| ==> (Selected(|es|, start, stop, inclusive, j) <==> lo <= j < hi)
    ensures Ranks(es, start, stop, inclusive, false, k) == es[if k < hi then hi else k..]
    decreases |es| - k
  {
    hide Selected;
    if k < |es| {
      RanksBehind(es, start, stop, inclusive, lo, hi, k + 1);
      assert k >= hi ==> es[k..] == [es[k]] + es[k + 1..];
    }
  }

  lemma {:induction false} RanksAhead(es: seq<Entry>, start: Option<int>, stop: Option<int>, inclusive: bool, lo: nat, hi: nat, k: nat)
    requires k <= lo <= hi <= |es|
    requires forall j :: 0 <= j < |es| ==> (Selected(|es|, start, stop, inclusive, j) <==> lo <= j < hi)
    ensures Ranks(es, start, stop, inclusive, false, k) == es[k..lo] + es[hi..]
    decreases |es| - k
  {
    hide Selected;
    if k == lo {
      RanksBehind(es, start, stop, inclusive, lo, hi, k);
      assert es[k..lo] + es[hi..] == es[hi..];
    } else {
      RanksAhead(es, start, stop, inclusive, lo, hi, k + 1);
      assert es[k..lo] == [es[k]] + es[k + 1..lo];
    }
  }

  /** Selected ranks are consecutive. */
  lemma RanksAreSlices(es: seq<Entry>, start: Option<int>, stop: Option<int>, inclusive: bool, lo: nat, hi: nat)
    requires lo <= hi <= |es|
    requires forall j :: 0 <= j < |es| ==> (Selected(|es|, start, stop, inclusive, j) <==> lo <= j < hi)
    ensures Ranks(es, start, stop, inclusive, true, 0) == es[lo..hi]
    ensures Ranks(es, start, stop, inclusive, false, 0) == Outside(es, lo, hi)
  {
    RanksIn(es, start, stop, inclusive, lo, hi, 0);
    RanksAhead(es, start, stop, inclusive, lo, hi, 0);
    assert es[0..lo] == es[..lo];
  }

  function Max(a: int, b: int): int { if a > b then a else b }

  /** The bounds the source computes from start and stop, as a half-open window. */
  function Window(n: nat, start: Option<int>, stop: Option<int>, inclusive: bool): (int, int) {
    var lo := if start.None? then 0 else if start.value < 0 then Max(n + start.value, 0) else start.value;
    var hi := if stop.None? then n else (if stop.value < 0 then n + stop.value else stop.value) + if inclusive then 1 else 0;
    if lo >= hi || lo >= n then (0, 0) else (lo, if hi > n then n else hi)
  }

  /** The window holds exactly the selected ranks. */
  lemma WindowSelects(n: nat, start: Option<int>, stop: Option<int>, inclusive: bool)
    ensures var (lo, hi) := Window(n, start, stop, inclusive);
      && 0 <= lo <= hi <= n
      && forall j :: 0 <= j < n ==> (Selected(n, start, stop, inclusive, j) <==> lo <= j < hi)
  {
  }

  lemma RanksAreWindow(es: seq<Entry>, start: Option<int>, stop: Option<int>, inclusive: bool)
    ensures var (lo, hi) := Window(|es|, start, stop, inclusive);
      && 0 <= lo <= hi <= |es|
      && Ranks(es, start, stop, inclusive, true, 0) == es[lo..hi]
      && Ranks(es, start, stop, inclusive, false, 0) == Outside(es, lo, hi)
  {
    WindowSelects(|es|, start, stop, inclusive);
    var (lo, hi) := Window(|es|, start, stop, inclusive);
    RanksAreSlices(es, start, stop, inclusive, lo, hi);
  }

  // ---------------------------------------------------------------- listings as maps

  /** The map a listing describes, later entries overriding earlier ones. */
  function Bindings(es: seq<Entry>): map<Key, real> {
    if |es| == 0 then map[] else Bindings(es[..|es| - 1])[es[|es| - 1].key := es[|es| - 1].score]
  }

  lemma {:induction false} BindingsOf(es: seq<Entry>, m: map<Key, real>, n: nat)
    requires Sorted(es) && Agrees(es, m) && n <= |es|
    ensures forall k :: k in Bindings(es[..n]) ==> k in m && Bindings(es[..n])[k] == m[k]
    ensures forall p :: 0 <= p < n ==> es[p].key in Bindings(es[..n])
  {
    hide Before, Sorted;
    if n != 0 {
      BindingsOf(es, m, n - 1);
      assert es[..n][..n - 1] == es[..n - 1] && es[n - 1] in es;
    }
  }

  lemma MoreBindings(es: seq<Entry>, n: nat)
    requires n < |es|
    ensures Bindings(es[..n + 1]) == Bindings(es[..n])[es[n].key := es[n].score]
  {
    assert es[..n + 1][..n] == es[..n];
  }

  /** A set's own listing describes its map. */
  lemma BindingsAgree(es: seq<Entry>, m: map<Key, real>)
    requires Sorted(es) && Agrees(es, m)
    ensures Bindings(es) == m
  {
    hide Before, Sorted, Bindings;
    BindingsOf(es, m, |es|);
    assert es[..|es|] == es;
    forall k | k in m ensures k in Bindings(es) {
      var p :| 0 <= p < |es| && es[p] == Entry(k, m[k]);
    }
  }

  // ---------------------------------------------------------------- the listing of a map

  lemma {:induction false} ListingExists(m: map<Key, real>)
    ensures exists es :: Sorted(es) && Agrees(es, m)
    decreases |m|
  {
    if m == map[] {
      assert Sorted([]) && Agrees([], m);
    } else {
      var k :| k in m;
      ListingExists(m - {k});
      var es :| Sorted(es) && Agrees(es, m - {k});
      PutListsUpdate(es, m - {k}, k, m[k]);
      assert (m - {k})[k := m[k]] == m;
    }
  }

  ghost function Listing(m: map<Key, real>): (es: seq<Entry>)
    ensures Sorted(es) && Agrees(es, m)
  {
    ListingExists(m);
    var es :| Sorted(es) && Agrees(es, m);
    es
  }

  lemma ListingIs(es: seq<Entry>, m: map<Key, real>)
    requires Sorted(es) && Agrees(es, m)
    ensures Listing(m) == es
  {
    forall e ensures e in Listing(m) <==> e in es {
      assert e in es ==> e == Entry(e.key, m[e.key]);
    }
    SortedListingUnique(Listing(m), es);
  }
}
