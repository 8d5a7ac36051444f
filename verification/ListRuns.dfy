/** What LREM takes, that nothing is lost between lists, and whole runs of list commands. */
module ListRuns {
  import opened Resp
  import opened Occurrences
  import opened Lists

  // ---------------------------------------------------------------- LREM as it is documented

  /** From head to tail. */
  function RemoveFirst(items: seq<string>, value: string, n: nat): seq<string> {
    if |items| == 0 then []
    else if items[0] == value && n > 0 then RemoveFirst(items[1..], value, n - 1)
    else [items[0]] + RemoveFirst(items[1..], value, n)
  }

  /** From tail to head. */
  function RemoveLast(items: seq<string>, value: string, n: nat): seq<string> {
    if |items| == 0 then []
    else
      var k := |items| - 1;
      if items[k] == value && n > 0 then RemoveLast(items[..k], value, n - 1)
      else RemoveLast(items[..k], value, n) + [items[k]]
  }

  lemma {:induction false} RemoveFirstStrips(items: seq<string>, value: string, from: int, n: nat)
    requires from <= 0
    ensures Strip(items, value, from, n) == RemoveFirst(items, value, n)
  {
    if n == 0 {
      StripNothing(items, value, from, n);
      RemoveFirstNone(items, value);
    } else if |items| > 0 {
      hide *;
      StripHead(items, value, from, n);
      RemoveFirstHead(items, value, n);
      RemoveFirstStrips(items[1..], value, if items[0] == value then from - 1 else from, if items[0] == value then n - 1 else n);
    }
  }

  lemma StripHead(items: seq<string>, value: string, from: int, to: int)
    requires |items| > 0 && from <= 0 < to
    ensures Strip(items, value, from, to) ==
      if items[0] == value then Strip(items[1..], value, from - 1, to - 1) else [items[0]] + Strip(items[1..], value, from, to)
  {
    hide Strip, Count;
    var head, rest := [items[0]], items[1..];
    assert items == head + rest;
    CountOne(items[0], value);
    StripConcat(head, rest, value, from, to);
    StripOne(items[0], value, from, to);
  }

  lemma RemoveFirstHead(items: seq<string>, value: string, n: nat)
    requires |items| > 0
    ensures RemoveFirst(items, value, n) ==
      if items[0] == value && n > 0 then RemoveFirst(items[1..], value, n - 1) else [items[0]] + RemoveFirst(items[1..], value, n)
  {
  }

  lemma {:induction false} RemoveFirstNone(items: seq<string>, value: string)
    ensures RemoveFirst(items, value, 0) == items
  {
    if |items| > 0 {
      RemoveFirstNone(items[1..], value);
    }
  }

  lemma StripOne(element: string, value: string, from: int, to: int)
    ensures Strip([element], value, from, to) == Fate(element, value, from, to, 0)
  {
  }

  lemma {:induction false} RemoveLastStrips(items: seq<string>, value: string, n: nat, to: int)
    requires n <= Count(items, value) <= to
    ensures Strip(items, value, Count(items, value) - n, to) == RemoveLast(items, value, n)
  {
    if n == 0 {
      StripNothing(items, value, Count(items, value), to);
      RemoveLastNone(items, value);
    } else {
      var k := |items| - 1;
      var last := items[k];
      RemoveLastStrips(items[..k], value, if last == value then n - 1 else n, to);
    }
  }

  lemma {:induction false} RemoveLastNone(items: seq<string>, value: string)
    ensures RemoveLast(items, value, 0) == items
  {
    if |items| > 0 {
      RemoveLastNone(items[..|items| - 1], value);
    }
  }

  lemma {:induction false} RemoveLastAll(items: seq<string>, value: string, n: nat)
    requires Count(items, value) <= n
    ensures RemoveLast(items, value, n) == Others(items, value)
  {
    if |items| > 0 {
      var k := |items| - 1;
      RemoveLastAll(items[..k], value, if items[k] == value then n - 1 else n);
    }
  }

  lemma {:induction false} StripAll(items: seq<string>, value: string, from: int, to: int)
    requires from <= 0 && Count(items, value) <= to
    ensures Strip(items, value, from, to) == Others(items, value)
  {
    if |items| > 0 {
      StripAll(items[..|items| - 1], value, from, to);
    }
  }

  /** LREM takes as many occurrences as it is asked for, or all there are, and answers how many it took;
      everything else stays where it was in relation to the rest. */
  lemma RemovesExactly(items: seq<string>, value: string, count: int)
    ensures var m := Count(items, value);
      && Takes(items, value, count) == (if count == 0 || Abs(count) > m then m else Abs(count))
      && Count(Removed(items, value, count), value) == m - Takes(items, value, count)
      && |Removed(items, value, count)| == |items| - Takes(items, value, count)
      && Others(Removed(items, value, count), value) == Others(items, value)
  {
    hide Strip, Count, Others;
    var m := Count(items, value);
    CountBelow(items, value);
    CountBelow(items[..Clip(m + count, 0, |items|)], value);
    var low, high := Low(items, value, count), High(items, value, count);
    StripCounts(items, value, low, high);
    StripKeepsOthers(items, value, low, high);
  }

  /** For a count of zero or more it takes what is documented. */
  lemma RemovesFromHead(items: seq<string>, value: string, count: nat)
    ensures Removed(items, value, count) == if count == 0 then Others(items, value) else RemoveFirst(items, value, count)
  {
    hide Strip, Count;
    var m := Count(items, value);
    if count == 0 || count >= m {
      StripAll(items, value, 0, m);
      if count > 0 {
        StripAll(items, value, 0, count);
        RemoveFirstStrips(items, value, 0, count);
      }
    } else {
      RemoveFirstStrips(items, value, 0, count);
    }
  }

  /** For a negative count the source looks for occurrences from place m - |count| on, and takes the
      first |count| of those. That is what is documented exactly when there are no more occurrences than
      asked for, or the places before are all occurrences, or the occurrences from there on lie side by side. */
  lemma RemovesFromTail(items: seq<string>, value: string, c: nat)
    requires c > 0
    ensures var m := Count(items, value);
      Removed(items, value, 0 - c) == RemoveLast(items, value, c) <==>
        || m <= c
        || (forall i :: 0 <= i < m - c && i < |items| ==> items[i] == value)
        || (forall p, x, q :: 0 <= p <= x <= q < |items| && m - c <= p && items[p] == value && items[q] == value ==> items[x] == value)
  {
    hide Strip, Count, SideBySide;
    var m := Count(items, value);
    var low := Low(items, value, 0 - c);
    CountBelow(items, value);
    if m <= c {
      assert items[..0] == [];
      CountBelow([], value);
      StripAll(items, value, 0, m);
      RemoveLastAll(items, value, c);
    } else {
      var k := m - c;
      CountBelow(items[..k], value);
      RemoveLastStrips(items, value, c, m);
      assert low == k <==> forall i :: 0 <= i < k && i < |items| ==> items[i] == value by {
        assert forall i :: 0 <= i < k ==> items[..k][i] == items[i];
      }
      if low < k {
        SameLeft(items, value, low, c);
        SideBySideFrom(items, value, k);
      }
    }
  }

  /** The occurrences from a place on are those of the ranks from the number of earlier ones on. */
  lemma SideBySideFrom(items: seq<string>, value: string, k: nat)
    requires k <= |items| && Count(items[..k], value) < Count(items, value)
    ensures SideBySide(items, value, Count(items[..k], value)) <==>
      forall p, x, q :: 0 <= p <= x <= q < |items| && k <= p && items[p] == value && items[q] == value ==> items[x] == value
  {
    hide Count, Positions;
    var m, low := Count(items, value), Count(items[..k], value);
    var ps := Positions(items, value);
    PositionAt(items, value, low);
    PositionAt(items, value, m - 1);
    Ranked(items, value, low, k);
    Ranked(items, value, low, ps[m - 1]);
    forall p | k <= p < |items| && items[p] == value
      ensures ps[low] <= p <= ps[m - 1]
    {
      CountNext(items, value, p);
      CountPrefix(items[..p], value, k);
      assert items[..p][..k] == items[..k];
      Ranked(items, value, low, p + 1);
      Ranked(items, value, m - 1, p);
      CountPrefix(items, value, p + 1);
    }
  }

  lemma CountNext(items: seq<string>, value: string, p: nat)
    requires p < |items| && items[p] == value
    ensures Count(items[..p + 1], value) == Count(items[..p], value) + 1
  {
    assert items[..p + 1][..p] == items[..p];
  }

  // ---------------------------------------------------------------- which places LREM empties

  /** What stays are the elements at some places, in order: all but those of the occurrences with ranks
      from..to. */
  lemma {:induction false} StripPlaces(items: seq<string>, value: string, from: int, to: int) returns (kept: seq<nat>)
    ensures Keeps(items, kept, Strip(items, value, from, to)) && Avoids(items, value, from, to, kept)
  {
    kept := [];
    if |items| > 0 {
      var n := |items| - 1;
      var front := items[..n];
      assert Strip(items, value, from, to) == Strip(front, value, from, to) + Fate(items[n], value, from, to, Count(front, value));
      hide Keeps, Avoids, Count, Strip;
      var before := StripPlaces(front, value, from, to);
      KeepsOneMore(items, before, Strip(front, value, from, to));
      AvoidsOneMore(items, value, from, to, before, Strip(front, value, from, to));
      kept := before + if items[n] == value && from <= Count(front, value) < to then [] else [n];
    }
  }

  /** The places kept are all but those of the occurrences with ranks from..to. */
  ghost predicate Avoids(items: seq<string>, value: string, from: int, to: int, kept: seq<nat>) {
    forall p {:trigger p in kept} :: 0 <= p < |items| ==>
      (p in kept <==> !(items[p] == value && from <= Count(items[..p], value) < to))
  }

  lemma AvoidsOneMore(items: seq<string>, value: string, from: int, to: int, kept: seq<nat>, left: seq<string>)
    requires |items| > 0 && var front := items[..|items| - 1]; Avoids(front, value, from, to, kept) && Keeps(front, kept, left)
    ensures var n := |items| - 1; var goes := items[n] == value && from <= Count(items[..n], value) < to;
      Avoids(items, value, from, to, kept + if goes then [] else [n])
  {
    hide Count;
    var n := |items| - 1;
    assert forall p :: 0 <= p < n ==> items[p] == items[..n][p] && items[..p] == items[..n][..p];
    KeepsBelow(items[..n], kept, left);
  }

  /** left holds the elements at the places kept, in order. */
  ghost predicate Keeps(items: seq<string>, kept: seq<nat>, left: seq<string>) {
    && |kept| == |left|
    && (forall j {:trigger kept[j]} :: 0 <= j < |kept| ==> kept[j] < |items| && left[j] == items[kept[j]])
    && (forall i, j :: 0 <= i < j < |kept| ==> kept[i] < kept[j])
  }

  lemma KeepsBelow(items: seq<string>, kept: seq<nat>, left: seq<string>)
    requires Keeps(items, kept, left)
    ensures |items| !in kept
  {
  }

  lemma KeepsOneMore(items: seq<string>, kept: seq<nat>, left: seq<string>)
    requires |items| > 0 && Keeps(items[..|items| - 1], kept, left)
    ensures Keeps(items, kept + [], left + []) && Keeps(items, kept + [|items| - 1], left + [items[|items| - 1]])
  {
  }

  /** The places LREM empties: those of the value; for a positive count with fewer than that many
      occurrences before them; for a negative one, from place m - |count| on, with fewer than |count|
      occurrences between there and them. */
  predicate Emptied(items: seq<string>, value: string, count: int, p: nat)
    requires p < |items|
  {
    var t := Count(items, value) + count;
    && items[p] == value
    && (count > 0 ==> Count(items[..p], value) < count)
    && (count < 0 ==> t <= p && Count(items[if t < 0 then 0 else t..p], value) < 0 - count)
  }

  lemma RemovesPlaces(items: seq<string>, value: string, count: int) returns (kept: seq<nat>)
    ensures Keeps(items, kept, Removed(items, value, count))
    ensures forall p {:trigger p in kept} :: 0 <= p < |items| ==> (p in kept <==> !Emptied(items, value, count, p))
  {
    hide Strip, Count, Keeps;
    var low, high := Low(items, value, count), High(items, value, count);
    kept := StripPlaces(items, value, low, high);
    forall p | 0 <= p < |items| && items[p] == value
      ensures low <= Count(items[..p], value) < high <==> Emptied(items, value, count, p)
    {
      RankEmptied(items, value, count, p);
    }
  }

  lemma RankEmptied(items: seq<string>, value: string, count: int, p: nat)
    requires p < |items| && items[p] == value
    ensures Low(items, value, count) <= Count(items[..p], value) < High(items, value, count) <==> Emptied(items, value, count, p)
  {
    hide Count;
    var m := Count(items, value);
    CountBelow(items, value);
    CountNext(items, value, p);
    CountPrefix(items, value, p + 1);
    if count < 0 {
      var t := Clip(m + count, 0, |items|);
      if t <= p {
        CountPrefix(items[..p], value, t);
        assert items[..p][..t] == items[..t] && items[..p][t..] == items[t..p];
      } else {
        CountPrefix(items[..t], value, p + 1);
        assert items[..t][..p + 1] == items[..p + 1];
      }
    }
  }

  /** LREM list -1 a on x a b a takes the first a, not the last one. */
  lemma RemovesWrongOccurrence()
    ensures var items := ["x", "a", "b", "a"];
      Removed(items, "a", -1) == ["x", "b", "a"] && RemoveLast(items, "a", 1) == ["x", "a", "b"]
  {
    var items := ["x", "a", "b", "a"];
    assert items[..3][..2][..1] == ["x"] && items[..3] == ["x", "a", "b"] && items[..3][..2] == ["x", "a"] && items[..1] == ["x"];
    assert Count(["x"], "a") == 0 && Count(["x", "a"], "a") == 1 && Count(items, "a") == 2;
    assert Low(items, "a", -1) == 0 && High(items, "a", -1) == 1;
    assert Strip(["x"], "a", 0, 1) == ["x"];
    assert Strip(["x", "a"], "a", 0, 1) == ["x"];
    assert Strip(["x", "a", "b"], "a", 0, 1) == ["x", "b"];
    RemoveLastNone(["x", "a", "b"], "a");
  }

  // ---------------------------------------------------------------- LTRIM as it is documented

  /** LTRIM keeps the elements from place start to place stop, both included and negative ones counted
      from the end, unless stop lies more than one place before the head and JavaScript's slice counts it
      from the end once more. */
  lemma TrimKeepsRange(items: seq<string>, start: int, stop: int)
    ensures var n := |items|;
      var from, to := if start < 0 then n + start else start, if stop < 0 then n + stop else stop;
      var low, high := if from < 0 then 0 else from, if to >= n then n else to + 1;
      Trimmed(items, start, stop) == (if low < high then items[low..high] else []) <==> !(to < -1 && low < n + to + 1)
  {
  }

  /** What it keeps then is what slice makes of it. */
  lemma TrimSlicesTwice(items: seq<string>, start: int, stop: int)
    requires stop < 0 && |items| + stop < -1
    ensures var n := |items|;
      var low, high := if start >= 0 then start else if n + start < 0 then 0 else n + start, n + (n + stop + 1);
      Trimmed(items, start, stop) == if low < high then items[low..high] else []
  {
  }

  lemma TrimAll(items: seq<string>)
    ensures Trimmed(items, 0, -1) == items
  {
  }

  /** LTRIM list 0 -5 on a b c keeps a and b, and should keep nothing. */
  lemma TrimKeepsTooMuch()
    ensures Trimmed(["a", "b", "c"], 0, -5) == ["a", "b"]
  {
  }

  // ---------------------------------------------------------------- runs

  function Final(s: State, ops: seq<Op>): State
    decreases |ops|
  {
    if |ops| == 0 then s else Final(Apply(s, ops[0]).1, ops[1..])
  }

  function Replies(s: State, ops: seq<Op>): (r: seq<Token>)
    ensures |r| == |ops|
    decreases |ops|
  {
    if |ops| == 0 then [] else [Apply(s, ops[0]).0] + Replies(Apply(s, ops[0]).1, ops[1..])
  }

  lemma {:induction false} FinalAppend(s: State, ops: seq<Op>, op: Op)
    ensures Final(s, ops + [op]) == Apply(Final(s, ops), op).1
    ensures Replies(s, ops + [op]) == Replies(s, ops) + [Apply(Final(s, ops), op).0]
    decreases |ops|
  {
    hide Apply;
    if |ops| == 0 {
      assert ops + [op] == [op] && [op][1..] == [];
    } else {
      assert (ops + [op])[1..] == ops[1..] + [op];
      FinalAppend(Apply(s, ops[0]).1, ops[1..], op);
    }
  }

  predicate AllWellFormed(ops: seq<Op>) {
    forall i {:trigger ops[i]} :: 0 <= i < |ops| ==> WellFormed(ops[i])
  }

  /** Any run over the lists in place answers as the run over plain values, and never leaves an empty list
      or two keys with one list. */
  method Drive(store: ListStore, ops: seq<Op>) returns (replies: seq<Token>)
    requires store.Valid() && AllWellFormed(ops)
    modifies store, store.lists.Values
    ensures store.Valid() && fresh(store.lists.Values - old(store.lists.Values))
    ensures replies == Replies(old(store.Contents()), ops) && store.Contents() == Final(old(store.Contents()), ops)
  {
    hide Apply, ListStore.Valid, ListStore.Contents, NoneEmpty, Final, Replies;
    ghost var was := store.Contents();
    replies := [];
    NoOps(was);
    for i := 0 to |ops|
      invariant store.Valid() && fresh(store.lists.Values - old(store.lists.Values))
      invariant replies == Replies(was, ops[..i]) && store.Contents() == Final(was, ops[..i])
    {
      FinalAppend(was, ops[..i], ops[i]);
      assert ops[..i + 1] == ops[..i] + [ops[i]];
      var reply := Serve(store, ops[i]);
      replies := replies + [reply];
    }
    assert ops[..|ops|] == ops;
  }

  lemma NoOps(s: State)
    ensures Final(s, []) == s && Replies(s, []) == []
  {
  }

  method Serve(store: ListStore, op: Op) returns (reply: Token)
    requires store.Valid() && WellFormed(op)
    modifies store, store.lists.Values
    ensures store.Valid() && fresh(store.lists.Values - old(store.lists.Values))
    ensures (reply, store.Contents()) == Apply(old(store.Contents()), op)
  {
    hide Apply, ListStore.Valid, ListStore.Contents;
    match op {
      case Push(key, side, elements) =>
        reply := store.Push(key, side, elements);
      case Pop(key, side) =>
        reply := store.Pop(key, side);
      case Trim(key, start, stop) =>
        reply := store.Trim(key, start, stop);
      case Remove(key, count, value) =>
        reply := store.Remove(key, count, value);
      case Move(src, dst) =>
        reply := store.Move(src, dst);
    }
  }

  lemma {:induction false} RunsKeepNoEmptyList(s: State, ops: seq<Op>)
    requires NoneEmpty(s) && AllWellFormed(ops)
    ensures NoneEmpty(Final(s, ops))
    decreases |ops|
  {
    hide Apply, NoneEmpty;
    if |ops| > 0 {
      StaysNonEmpty(s, ops[0]);
      RunsKeepNoEmptyList(Apply(s, ops[0]).1, ops[1..]);
    }
  }

  // ---------------------------------------------------------------- conservation

  /** How many copies of an element are stored under some keys. */
  function Stock(s: State, keys: seq<string>, x: string): nat {
    if |keys| == 0 then 0 else Stock(s, keys[1..], x) + Count(ItemsAt(s, keys[0]), x)
  }

  /** How many copies an operation brings in. */
  function Given(op: Op, x: string): nat {
    if op.Push? then Count(op.elements, x) else 0
  }

  /** How many copies it takes out, going by its answer, or what LTRIM cuts off. */
  function Taken(s: State, op: Op, x: string): int {
    var (reply, s') := Apply(s, op);
    match op
    case Pop(key, _) => if ItemsAt(s, key) != [] && reply == Bulk(Text(x)) then 1 else 0
    case Remove(_, _, value) => if reply.Integer? && x == value then reply.n else 0
    case Trim(key, _, _) => Count(ItemsAt(s, key), x) - Count(ItemsAt(s', key), x)
    case _ => 0
  }

  function TakenIn(s: State, ops: seq<Op>, x: string): int
    decreases |ops|
  {
    if |ops| == 0 then 0 else Taken(s, ops[0], x) + TakenIn(Apply(s, ops[0]).1, ops[1..], x)
  }

  function GivenIn(ops: seq<Op>, x: string): nat {
    if |ops| == 0 then 0 else Given(ops[0], x) + GivenIn(ops[1..], x)
  }

  predicate Touches(op: Op, keys: seq<string>) {
    if op.Move? then op.src in keys && op.dst in keys else op.key in keys
  }

  predicate Distinct(keys: seq<string>) {
    forall i, j :: 0 <= i < j < |keys| ==> keys[i] != keys[j]
  }

  lemma {:induction false} StockElsewhere(s: State, t: State, keys: seq<string>, x: string)
    requires forall key :: key in keys ==> ItemsAt(s, key) == ItemsAt(t, key)
    ensures Stock(s, keys, x) == Stock(t, keys, x)
  {
    if |keys| > 0 {
      StockElsewhere(s, t, keys[1..], x);
    }
  }

  /** A change under one key changes the stock by as much. */
  lemma {:induction false} StockAt(s: State, t: State, keys: seq<string>, key: string, x: string)
    requires Distinct(keys) && key in keys && s - {key} == t - {key}
    ensures Stock(s, keys, x) + Count(ItemsAt(t, key), x) == Stock(t, keys, x) + Count(ItemsAt(s, key), x)
  {
    hide ItemsAt, Count;
    var rest := keys[1..];
    SameElsewhere(s, t, key);
    if keys[0] == key {
      assert key !in rest;
      StockElsewhere(s, t, rest, x);
    } else {
      assert key in rest;
      StockAt(s, t, rest, key, x);
    }
  }

  lemma SameElsewhere(s: State, t: State, key: string)
    requires s - {key} == t - {key}
    ensures forall k :: k != key ==> ItemsAt(s, k) == ItemsAt(t, k)
  {
    forall k | k != key
      ensures ItemsAt(s, k) == ItemsAt(t, k)
    {
      assert ItemsAt(s - {key}, k) == ItemsAt(t - {key}, k);
    }
  }

  lemma {:induction false} ReversedSame(items: seq<string>, x: string)
    ensures Count(Reversed(items), x) == Count(items, x)
  {
    if |items| > 0 {
      ReversedSame(items[1..], x);
      CountConcat(Reversed(items[1..]), [items[0]], x);
      CountConcat([items[0]], items[1..], x);
      assert items == [items[0]] + items[1..];
    }
  }

  lemma StripTakes(items: seq<string>, value: string, from: nat, to: nat, x: string)
    requires from <= to <= Count(items, value)
    ensures Count(items, x) == Count(Strip(items, value, from, to), x) + (if x == value then to - from else 0)
  {
    hide Strip, Count, Others;
    StripCounts(items, value, from, to);
    StripKeepsOthers(items, value, from, to);
    if x != value {
      OthersCount(items, value, x);
      OthersCount(Strip(items, value, from, to), value, x);
    }
  }

  lemma {:induction false} OthersCount(items: seq<string>, value: string, x: string)
    requires x != value
    ensures Count(Others(items, value), x) == Count(items, x)
  {
    if |items| > 0 {
      var n := |items| - 1;
      OthersCount(items[..n], value, x);
      var others := Others(items[..n], value);
      assert others + [] == others;
      CountConcat(others, [items[n]], x);
      CountOne(items[n], x);
    }
  }

  lemma StoredAt(s: State, key: string, items: seq<string>)
    ensures s - {key} == Stored(s, key, items) - {key} && ItemsAt(Stored(s, key, items), key) == items
    ensures s - {key} == s[key := items] - {key} && ItemsAt(s[key := items], key) == items
  {
  }

  /** What an operation on one list puts in and takes out of it. */
  lemma ListConserves(s: State, op: Op, x: string)
    requires !op.Move?
    ensures var s' := Apply(s, op).1;
      && Count(ItemsAt(s, op.key), x) + Given(op, x) == Count(ItemsAt(s', op.key), x) + Taken(s, op, x)
      && s - {op.key} == s' - {op.key}
  {
    hide Strip, Count, Reversed, Trimmed, Stored, Low, High;
    var items := ItemsAt(s, op.key);
    match op {
      case Push(key, side, elements) =>
        ReversedSame(elements, x);
        CountConcat(Reversed(elements), items, x);
        CountConcat(items, elements, x);
        StoredAt(s, key, ItemsAt(Apply(s, op).1, key));
      case Pop(key, side) =>
        if items != [] {
          var n := |items| - 1;
          CountPrefix(items, x, 1);
          CountPrefix(items, x, n);
          CountOne(items[0], x);
          CountOne(items[n], x);
          assert items[..1] == [items[0]] && items[n..] == [items[n]];
          StoredAt(s, key, if side.Head? then items[1..] else items[..n]);
        }
      case Trim(key, start, stop) =>
        if start.Some? && stop.Some? {
          StoredAt(s, key, Trimmed(items, start.value, stop.value));
        }
      case Remove(key, count, value) =>
        if count.Some? {
          StripTakes(items, value, Low(items, value, count.value), High(items, value, count.value), x);
          StoredAt(s, key, Removed(items, value, count.value));
        }
    }
  }

  /** RPOPLPUSH conserves the elements of its two lists together, be they one. */
  lemma MoveConserves(s: State, src: string, dst: string, keys: seq<string>, x: string)
    requires Distinct(keys) && src in keys && dst in keys
    ensures Stock(s, keys, x) == Stock(Apply(s, Op.Move(src, dst)).1, keys, x)
  {
    hide Stock, Distinct, Stored, ItemsAt, Count;
    var items := ItemsAt(s, src);
    if items != [] {
      var n := |items| - 1;
      CountPrefix(items, x, n);
      assert items[n..] == [items[n]];
      var s' := Stored(s, src, items[..n]);
      StoredAt(s, src, items[..n]);
      StockAt(s, s', keys, src, x);
      var items' := [items[n]] + ItemsAt(s', dst);
      CountConcat([items[n]], ItemsAt(s', dst), x);
      StoredAt(s', dst, items');
      StockAt(s', s'[dst := items'], keys, dst, x);
    }
  }

  /** No operation loses or invents an element. */
  lemma OpConserves(s: State, op: Op, keys: seq<string>, x: string)
    requires Distinct(keys) && Touches(op, keys)
    ensures Stock(s, keys, x) + Given(op, x) == Stock(Apply(s, op).1, keys, x) + Taken(s, op, x)
  {
    hide Stock, Distinct, Apply;
    if op.Move? {
      MoveConserves(s, op.src, op.dst, keys, x);
    } else {
      hide Given, Taken;
      ListConserves(s, op, x);
      StockAt(s, Apply(s, op).1, keys, op.key, x);
    }
  }

  /** Over a whole run, for every element: copies that were there and copies given are the copies that
      are there and the copies taken. */
  lemma {:induction false} RunConserves(s: State, ops: seq<Op>, keys: seq<string>, x: string)
    requires Distinct(keys) && forall i :: 0 <= i < |ops| ==> Touches(ops[i], keys)
    ensures Stock(s, keys, x) + GivenIn(ops, x) == Stock(Final(s, ops), keys, x) + TakenIn(s, ops, x)
    decreases |ops|
  {
    hide Stock, Distinct, Touches, Apply, Given, Taken;
    if |ops| > 0 {
      OpConserves(s, ops[0], keys, x);
      RunConserves(Apply(s, ops[0]).1, ops[1..], keys, x);
    }
  }

  /** RPOPLPUSH between two keys, as bags: together they hold what they held, and no other key changes. */
  lemma PairConserved(s: State, src: string, dst: string)
    requires src != dst
    ensures var s' := Apply(s, Op.Move(src, dst)).1;
      && multiset(ItemsAt(s, src)) + multiset(ItemsAt(s, dst)) == multiset(ItemsAt(s', src)) + multiset(ItemsAt(s', dst))
      && s - {src, dst} == s' - {src, dst}
  {
    var s' := Apply(s, Op.Move(src, dst)).1;
    assert s - {src, dst} == s' - {src, dst};
    hide Apply, ItemsAt, Count;
    forall x
      ensures (multiset(ItemsAt(s, src)) + multiset(ItemsAt(s, dst)))[x] == (multiset(ItemsAt(s', src)) + multiset(ItemsAt(s', dst)))[x]
    {
      MoveConserves(s, src, dst, [src, dst], x);
      StockOfTwo(s, src, dst, x);
      StockOfTwo(s', src, dst, x);
    }
  }

  lemma StockOfTwo(s: State, k: string, l: string, x: string)
    ensures Stock(s, [k, l], x) == (multiset(ItemsAt(s, k)) + multiset(ItemsAt(s, l)))[x]
  {
    hide ItemsAt, Count;
    assert [k, l][1..] == [l] && [l][1..] == [];
    assert Stock(s, [l], x) == Count(ItemsAt(s, l), x);
    CountIsMultiplicity(ItemsAt(s, k), x);
    CountIsMultiplicity(ItemsAt(s, l), x);
  }

  /** LTRIM only cuts off. */
  lemma TrimOnlyCuts(items: seq<string>, start: int, stop: int, x: string)
    ensures Count(Trimmed(items, start, stop), x) <= Count(items, x)
  {
    hide Count;
    var from := FromHead(items, start);
    var low := Clip(if from < 0 then 0 else from, 0, |items|);
    var kept := Trimmed(items, start, stop);
    if kept == [] {
      CountPrefix(items, x, 0);
      assert items[..0] == [];
    } else {
      assert kept == items[low..][..|kept|];
      CountPrefix(items, x, low);
      CountPrefix(items[low..], x, |kept|);
    }
  }

  // ---------------------------------------------------------------- rotation

  function Rotations(key: string, n: nat): seq<Op> {
    if n == 0 then [] else Rotations(key, n - 1) + [Move(key, key)]
  }

  lemma LastToFront(items: seq<string>, k: nat)
    requires k < |items|
    ensures var n := |items| - 1; var rotated := items[k + 1..] + items[..k + 1];
      |rotated| == |items| && rotated[n] == items[k] && [rotated[n]] + rotated[..n] == items[k..] + items[..k]
  {
  }

  lemma RotatedOnce(s: State, key: string, items: seq<string>)
    requires items != []
    ensures var n := |items| - 1;
      Apply(s[key := items], Move(key, key)) == (Bulk(Text(items[n])), s[key := [items[n]] + items[..n]])
  {
    var n := |items| - 1;
    Moved(s[key := items], key, key);
    assert s[key := items][key := items[..n]][key := [items[n]] + items[..n]] == s[key := [items[n]] + items[..n]];
  }

  lemma RotatedFurther(s: State, key: string, items: seq<string>, k: nat)
    requires k < |items|
    ensures Apply(s[key := items[k + 1..] + items[..k + 1]], Move(key, key)) ==
            (Bulk(Text(items[k])), s[key := items[k..] + items[..k]])
  {
    hide Apply;
    LastToFront(items, k);
    RotatedOnce(s, key, items[k + 1..] + items[..k + 1]);
  }

  /** With one key for source and destination, n applications answer the last n elements, last first,
      and bring them to the front. */
  lemma {:induction false} Rotated(s: State, key: string, n: nat)
    requires key in s && n <= |s[key]| && s[key] != []
    ensures var items := s[key]; var k := |items| - n; var ops := Rotations(key, n);
      && Final(s, ops) == s[key := items[k..] + items[..k]]
      && |Replies(s, ops)| == n && forall i :: 0 <= i < n ==> Replies(s, ops)[i] == Bulk(Text(items[|items| - 1 - i]))
  {
    var items := s[key];
    if n == 0 {
      assert items[|items|..] + items[..|items|] == items;
      assert s[key := items] == s;
    } else {
      var k := |items| - n;
      var ops := Rotations(key, n - 1);
      Rotated(s, key, n - 1);
      FinalAppend(s, ops, Move(key, key));
      hide Apply, Final, Replies;
      RotatedFurther(s, key, items, k);
      assert Replies(s, ops + [Move(key, key)]) == Replies(s, ops) + [Bulk(Text(items[k]))];
    }
  }

  /** A full turn answers all elements, last to first, and restores the list. */
  lemma FullTurn(s: State, key: string)
    requires key in s && s[key] != []
    ensures var ops := Rotations(key, |s[key]|);
      Final(s, ops) == s && Replies(s, ops) == Texts(Reversed(s[key]))
  {
    var items := s[key];
    Rotated(s, key, |items|);
    assert items[0..] + items[..0] == items;
    assert s[key := items] == s;
    forall i | 0 <= i < |items|
      ensures Reversed(items)[i] == items[|items| - 1 - i]
    {
      ReversedAt(items, i);
    }
  }

  function Texts(items: seq<string>): (r: seq<Token>)
    ensures |r| == |items| && forall i :: 0 <= i < |r| ==> r[i] == Bulk(Text(items[i]))
  {
    if |items| == 0 then [] else [Bulk(Text(items[0]))] + Texts(items[1..])
  }

  lemma {:induction false} ReversedAt(items: seq<string>, i: nat)
    requires i < |items|
    ensures Reversed(items)[i] == items[|items| - 1 - i]
  {
    if i < |items| - 1 {
      ReversedAt(items[1..], i);
    }
  }
}
