/** The ZADD command, from its parameters to the sorted set stored under the key. */
module Zadd {
  import opened Keys
  import opened Entries
  import opened Options
  import opened SkipLinks
  import opened SortedSets

  /** A raw parameter: its text, and its reading as a number, none when that is NaN. */
  datatype Param = Param(text: Key, number: Option<real>)

  datatype Outcome = Integer(value: int) | SyntaxError | NotAFloat | TypeError

  /** Every score position from 1 up to n holds a number. */
  predicate ScoresReadable(params: seq<Param>, n: nat) {
    forall i :: 1 <= i < n && i < |params| && i % 2 == 1 ==> params[i].number.Some?
  }

  /** The members and scores given at positions 1..n, later ones overriding earlier ones. */
  function Given(params: seq<Param>, n: nat): map<Key, real>
    requires n <= |params| && n % 2 == 1 && ScoresReadable(params, n)
  {
    if n == 1 then map[]
    else
      assert (n - 2) % 2 == 1;
      Given(params, n - 2)[params[n - 1].text := params[n - 2].number.value]
  }

  /** The source's parseInput; none when a score is not a number. */
  method ParseInput(params: seq<Param>) returns (s: SortedSet?)
    requires |params| % 2 == 1
    ensures s == null <==> !ScoresReadable(params, |params|)
    ensures s == null <==> exists i {:trigger params[i]} :: 0 < i < |params| && i % 2 == 1 && params[i].number.None?
    ensures s != null ==> fresh(s) && fresh(s.spine) && s.Valid() && !s.unique && s.scores == Given(params, |params|)
  {
    hide SortedSet.Shape, Sorted, EntriesOf, Agrees, Put, Without, SortedSet.Others;
    var r := new SortedSet(false);
    var i := 1;
    while i < |params|
      invariant 1 <= i <= |params| && i % 2 == 1 && ScoresReadable(params, i)
      invariant fresh(r) && fresh(r.spine) && r.Valid() && !r.unique && r.scores == Given(params, i)
    {
      if params[i].number.None? {
        return null;
      }
      assert ScoresReadable(params, i + 2);
      var added := r.Add(params[i + 1].text, params[i].number);
      i := i + 2;
    }
    return r;
  }

  /** What merge does first, for its log: it calls a method of the value of every element of a listing
      that holds plain keys, which have no value. */
  method LogMerge(value: SortedSet) returns (throws: bool)
    requires value.Valid()
    ensures throws <==> value.scores != map[]
  {
    hide SortedSet.Shape, Sorted, EntriesOf;
    ListingSize(value.Entries(), value.scores);
    var listing := value.ToArray(false);
    throws := |listing.keys| > 0;
  }

  /** ZADD as it is written: whatever its parameters, the key keeps what it held. */
  method ExecuteAsWritten(params: seq<Param>, initial: SortedSet?) returns (r: Outcome, stored: SortedSet?)
    requires |params| >= 3 && (initial != null ==> initial.Valid())
    ensures stored == initial
    ensures r == if |params| % 2 == 0 then SyntaxError else if !ScoresReadable(params, |params|) then NotAFloat else TypeError
  {
    hide SortedSet.Valid, ScoresReadable;
    stored := initial;
    if |params| % 2 != 1 {
      return SyntaxError, initial;
    }
    var value := ParseInput(params);
    if value == null {
      return NotAFloat, initial;
    }
    GivenMembers(params, |params|);
    assert params[2].text in value.scores;
    var throws := LogMerge(value);
    assert throws;
    return TypeError, initial;
  }

  /** ZADD as it is meant, without the logging. initial is the sorted set under the key, if any; stored is what the key holds afterwards. */
  method Execute(params: seq<Param>, initial: SortedSet?) returns (r: Outcome, stored: SortedSet?)
    requires |params| >= 3 && (initial != null ==> initial.Valid() && !initial.unique)
    ensures r == SyntaxError <==> |params| % 2 == 0
    ensures r == NotAFloat <==> |params| % 2 == 1 && !ScoresReadable(params, |params|)
    ensures !r.Integer? ==> stored == initial
    ensures initial != null ==> unchanged(initial) && initial.Valid()
    ensures r.Integer? ==>
      var before := if initial == null then map[] else initial.scores;
      && stored != null && fresh(stored) && stored.Valid() && !stored.unique
      && stored.scores == before + Given(params, |params|)
      && r.value == |stored.scores| - |before|
  {
    hide SortedSet.Valid, SortedSet.Ordered, Sorted, EntriesOf, KeysOf, Given, ScoresReadable;
    if |params| % 2 != 1 {
      return SyntaxError, initial;
    }
    var initialCount := 0;
    if initial != null {
      SizeOf(initial);
      var keys := initial.KeyList();
      initialCount := |keys|;
    }
    var value := ParseInput(params);
    if value == null {
      return NotAFloat, initial;
    }
    stored := value;
    if initial != null {
      stored := Merge(initial, value);
    }
    SizeOf(stored);
    var keys := stored.KeyList();
    return Integer(|keys| - initialCount), stored;
  }

  lemma SizeOf(s: SortedSet)
    requires s.Valid()
    ensures s.Ordered() && |KeysOf(s.Entries())| == |s.scores|
  {
    hide SortedSet.Shape, Sorted, Agrees, EntriesOf;
    ListingSize(s.Entries(), s.scores);
  }

  /** The callback: a new set takes over the old scores, then the new ones. */
  method Merge(older: SortedSet, newer: SortedSet) returns (merged: SortedSet)
    requires older.Valid() && newer.Valid()
    ensures fresh(merged) && merged.Valid() && !merged.unique && merged.scores == older.scores + newer.scores
    ensures unchanged(older) && older.Valid()
  {
    hide SortedSet.Valid;
    merged := new SortedSet(false);
    var first := merged.AddAll(older);
    var second := merged.AddAll(newer);
  }

  /** The reply counts the members that were not there before, each once. */
  lemma ReplyCountsNewMembers(before: map<Key, real>, given: map<Key, real>)
    ensures |before + given| - |before| == |given.Keys - before.Keys|
  {
  }

  /** The members given are exactly the texts at the even positions from 2 on. */
  lemma {:induction false} GivenMembers(params: seq<Param>, n: nat)
    requires n <= |params| && n % 2 == 1 && ScoresReadable(params, n)
    ensures forall k :: k in Given(params, n) <==> exists j {:trigger params[j]} :: 2 <= j < n && j % 2 == 0 && params[j].text == k
  {
    if n > 1 {
      GivenMembers(params, n - 2);
      assert params[n - 1].text in Given(params, n);
    }
  }

  /** Each ends up with the score in front of its last mention. */
  lemma {:induction false} GivenIsLastMention(params: seq<Param>, n: nat, j: nat)
    requires n <= |params| && n % 2 == 1 && ScoresReadable(params, n)
    requires 2 <= j < n && j % 2 == 0
    requires forall k :: j < k < n && k % 2 == 0 ==> params[k].text != params[j].text
    ensures params[j].text in Given(params, n) && Given(params, n)[params[j].text] == params[j - 1].number.value
  {
    if j != n - 1 {
      GivenIsLastMention(params, n - 2, j);
    }
  }
}
