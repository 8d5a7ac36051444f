/** The occurrences of one value in a list: their positions, and lists without some of them. */
module Occurrences {

  function Count(items: seq<string>, value: string): nat {
    if |items| == 0 then 0
    else Count(items[..|items| - 1], value) + (if items[|items| - 1] == value then 1 else 0)
  }

  /** Where the value occurs, in increasing order. */
  function Positions(items: seq<string>, value: string): (r: seq<nat>)
    ensures |r| == Count(items, value)
  {
    if |items| == 0 then []
    else
      var n := |items| - 1;
      var front := Positions(items[..n], value);
      if items[n] == value then front + [n] else front
  }

  /** The occurrence of rank i has i occurrences before it. */
  lemma {:induction false} PositionAt(items: seq<string>, value: string, i: nat)
    requires i < Count(items, value)
    ensures var p := Positions(items, value)[i]; i <= p < |items| && items[p] == value && Count(items[..p], value) == i
  {
    var n := |items| - 1;
    var p := Positions(items, value)[i];
    if i < Count(items[..n], value) {
      PositionAt(items[..n], value, i);
      assert items[..n][..p] == items[..p];
    } else {
      CountBelow(items[..n], value);
    }
  }

  /** What stripping leaves of one element that comes after count occurrences. */
  function Fate(element: string, value: string, from: int, to: int, count: nat): seq<string> {
    if element == value && from <= count < to then [] else [element]
  }

  /** The list without the occurrences of ranks from..to, the first occurrence having rank 0. */
  function Strip(items: seq<string>, value: string, from: int, to: int): (r: seq<string>)
    ensures |r| <= |items|
  {
    if |items| == 0 then []
    else
      var n := |items| - 1;
      Strip(items[..n], value, from, to) + Fate(items[n], value, from, to, Count(items[..n], value))
  }

  function Others(items: seq<string>, value: string): seq<string> {
    if |items| == 0 then []
    else
      var n := |items| - 1;
      Others(items[..n], value) + (if items[n] == value then [] else [items[n]])
  }

  function Clip(n: int, low: int, high: int): int {
    if n < low then low else if n > high then high else n
  }

  // ---------------------------------------------------------------- counting

  lemma {:induction false} CountConcat(a: seq<string>, b: seq<string>, value: string)
    ensures Count(a + b, value) == Count(a, value) + Count(b, value)
  {
    if |b| == 0 {
      assert a + b == a;
    } else {
      assert (a + b)[..|a + b| - 1] == a + b[..|b| - 1];
      CountConcat(a, b[..|b| - 1], value);
    }
  }

  lemma {:induction false} CountBelow(items: seq<string>, value: string)
    ensures Count(items, value) <= |items|
    ensures Count(items, value) == |items| <==> forall i :: 0 <= i < |items| ==> items[i] == value
  {
    if |items| > 0 {
      CountBelow(items[..|items| - 1], value);
    }
  }

  lemma CountOne(element: string, value: string)
    ensures Count([element], value) == if element == value then 1 else 0
  {
  }

  lemma CountPrefix(items: seq<string>, value: string, k: nat)
    requires k <= |items|
    ensures Count(items[..k], value) + Count(items[k..], value) == Count(items, value)
  {
    CountConcat(items[..k], items[k..], value);
    assert items[..k] + items[k..] == items;
  }

  lemma {:induction false} CountIsMultiplicity(items: seq<string>, value: string)
    ensures Count(items, value) == multiset(items)[value]
  {
    if |items| > 0 {
      var n := |items| - 1;
      CountIsMultiplicity(items[..n], value);
      assert items == items[..n] + [items[n]];
    }
  }

  // ---------------------------------------------------------------- what stripping does

  /** As many occurrences go as there are ranks in the range. */
  lemma {:induction false} StripCounts(items: seq<string>, value: string, from: nat, to: nat)
    requires from <= to
    ensures var m := Count(items, value); var gone := Clip(to, 0, m) - Clip(from, 0, m);
      && Count(Strip(items, value, from, to), value) == m - gone
      && |Strip(items, value, from, to)| == |items| - gone
  {
    if |items| > 0 {
      var n := |items| - 1;
      StripCounts(items[..n], value, from, to);
      var front := Strip(items[..n], value, from, to);
      var count := Count(items[..n], value);
      var last := Fate(items[n], value, from, to, count);
      assert Strip(items, value, from, to) == front + last;
      assert Count(items, value) == count + (if items[n] == value then 1 else 0);
      assert Count([], value) == 0;
      hide Strip, Count;
      CountOne(items[n], value);
      CountConcat(front, last, value);
    }
  }

  /** Everything else stays, in order. */
  lemma {:induction false} StripKeepsOthers(items: seq<string>, value: string, from: int, to: int)
    ensures Others(Strip(items, value, from, to), value) == Others(items, value)
  {
    if |items| > 0 {
      var n := |items| - 1;
      StripKeepsOthers(items[..n], value, from, to);
      var front := Strip(items[..n], value, from, to);
      assert (front + [items[n]])[..|front|] == front;
      assert front + [] == front;
    }
  }

  lemma {:induction false} StripNothing(items: seq<string>, value: string, from: int, to: int)
    requires to <= from || to <= 0 || Count(items, value) <= from
    ensures Strip(items, value, from, to) == items
  {
    if |items| > 0 {
      var n := |items| - 1;
      StripNothing(items[..n], value, from, to);
      assert items == items[..n] + [items[n]];
    }
  }

  /** Taking one more occurrence, in front of those already taken, is a splice at its old position. */
  lemma {:induction false} StripOneMore(items: seq<string>, value: string, k: nat, to: int)
    requires k < Count(items, value) && k < to
    ensures var p := Positions(items, value)[k]; var s := Strip(items, value, k + 1, to);
      p < |s| && Strip(items, value, k, to) == s[..p] + s[p + 1..]
  {
    var n := |items| - 1;
    var front := items[..n];
    var p := Positions(items, value)[k];
    PositionAt(items, value, k);
    if k == Count(front, value) {
      StripNothing(front, value, k, to);
      StripNothing(front, value, k + 1, to);
      assert p == n;
    } else {
      StripOneMore(front, value, k, to);
      hide Count, Positions;
      var last := Fate(items[n], value, k + 1, to, Count(front, value));
      SpliceBefore(Strip(front, value, k + 1, to), last, p);
    }
  }

  lemma SpliceBefore(a: seq<string>, b: seq<string>, p: nat)
    requires p < |a|
    ensures (a + b)[..p] + (a + b)[p + 1..] == a[..p] + a[p + 1..] + b
  {
  }

  lemma {:induction false} StripConcat(a: seq<string>, b: seq<string>, value: string, from: int, to: int)
    ensures var k := Count(a, value); Strip(a + b, value, from, to) == Strip(a, value, from, to) + Strip(b, value, from - k, to - k)
  {
    if |b| == 0 {
      assert a + b == a;
    } else {
      var n := |b| - 1;
      assert (a + b)[..|a + b| - 1] == a + b[..n];
      StripConcat(a, b[..n], value, from, to);
      CountConcat(a, b[..n], value);
    }
  }

  // ---------------------------------------------------------------- when two ranges leave the same list

  /** In two equal lists, elements other than the value with equally many such elements before them are
      at the same place. */
  lemma SamePlace(a: seq<string>, b: seq<string>, c: seq<string>, d: seq<string>, x: string, value: string)
    requires x != value && a + [x] + b == c + [x] + d && |a| - Count(a, value) == |c| - Count(c, value)
    ensures |a| == |c|
  {
    if |a| < |c| {
      Longer(a, b, c, d, x, value);
    } else if |c| < |a| {
      Longer(c, d, a, b, x, value);
    }
  }

  lemma Longer(a: seq<string>, b: seq<string>, c: seq<string>, d: seq<string>, x: string, value: string)
    requires x != value && a + [x] + b == c + [x] + d && |a| < |c|
    ensures |a| - Count(a, value) < |c| - Count(c, value)
  {
    var rest := c[|a| + 1..];
    var whole := a + [x] + b;
    assert whole[|a|] == x && forall i :: 0 <= i < |c| ==> whole[i] == c[i];
    assert c == a + [x] + rest;
    CountConcat(a + [x], rest, value);
    CountConcat(a, [x], value);
    CountOne(x, value);
    CountBelow(rest, value);
  }

  lemma SplitAt(items: seq<string>, value: string, x: nat, from: nat, to: nat)
    requires x < |items| && items[x] != value && from <= to
    ensures var a := Strip(items[..x], value, from, to); var k := Count(items[..x], value);
      && Strip(items, value, from, to) == a + [items[x]] + Strip(items[x + 1..], value, from - k, to - k)
      && |a| - Count(a, value) == x - k
      && |a| == x - (Clip(to, 0, k) - Clip(from, 0, k))
  {
    hide Strip, Count;
    var a, one, b := items[..x], [items[x]], items[x + 1..];
    assert items == a + one + b;
    StripConcat(a + one, b, value, from, to);
    StripConcat(a, one, value, from, to);
    CountConcat(a, one, value);
    CountOne(items[x], value);
    StripNone(one, value, from - Count(a, value), to - Count(a, value));
    StripCounts(a, value, from, to);
  }

  /** From the occurrence of rank low to the last one there is nothing else in between. */
  predicate SideBySide(items: seq<string>, value: string, low: nat)
    requires low < Count(items, value)
  {
    var ps := Positions(items, value);
    forall x :: ps[low] <= x <= ps[|ps| - 1] && x < |items| ==> items[x] == value
  }

  /** Of m occurrences, taking c from rank low on leaves the same list as taking the last c exactly when
      the occurrences of rank low and up lie side by side. */
  lemma SameLeft(items: seq<string>, value: string, low: nat, c: nat)
    requires var m := Count(items, value); 0 < c && low + c < m
    ensures var m := Count(items, value);
      Strip(items, value, low, low + c) == Strip(items, value, m - c, m) <==> SideBySide(items, value, low)
  {
    var m := Count(items, value);
    PositionAt(items, value, m - 1);
    hide Strip, Count, Positions;
    var ps := Positions(items, value);
    if x :| ps[low] <= x <= ps[m - 1] && items[x] != value {
      Differ(items, value, low, c, x);
    } else {
      Agree(items, value, low, c);
    }
  }

  lemma Differ(items: seq<string>, value: string, low: nat, c: nat, x: nat)
    requires var m := Count(items, value); var ps := Positions(items, value);
      0 < c && low + c < m && ps[low] <= x <= ps[m - 1] && x < |items| && items[x] != value
    ensures var m := Count(items, value); Strip(items, value, low, low + c) != Strip(items, value, m - c, m)
  {
    hide Strip, Count, Positions;
    var m := Count(items, value);
    var ps := Positions(items, value);
    var k := Count(items[..x], value);
    PositionAt(items, value, low);
    assert ps[low] < x;
    Ranked(items, value, low, x);
    Ranked(items, value, m - 1, x);
    SplitAt(items, value, x, low, low + c);
    SplitAt(items, value, x, m - c, m);
    if Strip(items, value, low, low + c) == Strip(items, value, m - c, m) {
      var a, a' := Strip(items[..x], value, low, low + c), Strip(items[..x], value, m - c, m);
      SamePlace(a, Strip(items[x + 1..], value, low - k, low + c - k), a', Strip(items[x + 1..], value, m - c - k, m - k), items[x], value);
      assert false;
    }
  }

  /** How many occurrences lie before a place. */
  lemma Ranked(items: seq<string>, value: string, i: nat, x: nat)
    requires i < Count(items, value) && x <= |items|
    ensures var p := Positions(items, value)[i];
      (p < x ==> i < Count(items[..x], value)) && (x <= p ==> Count(items[..x], value) <= i)
  {
    hide Positions;
    PositionAt(items, value, i);
    var p := Positions(items, value)[i];
    if p < x {
      assert items[..x][..p] == items[..p];
      CountPrefix(items[..x], value, p);
      CountConcat([items[p]], items[p + 1..x], value);
      assert items[..x][p..] == [items[p]] + items[p + 1..x];
      CountOne(value, value);
    } else {
      assert items[..p][..x] == items[..x];
      CountPrefix(items[..p], value, x);
    }
  }

  lemma Agree(items: seq<string>, value: string, low: nat, c: nat)
    requires var m := Count(items, value); 0 < c && low + c < m && SideBySide(items, value, low)
    ensures var m := Count(items, value); Strip(items, value, low, low + c) == Strip(items, value, m - c, m)
  {
    var m := Count(items, value);
    var ps := Positions(items, value);
    hide Strip, Count, Positions;
    PositionAt(items, value, low);
    PositionAt(items, value, m - 1);
    Ranked(items, value, low, ps[m - 1]);
    var p, q := ps[low], ps[m - 1] + 1;
    var a, b, rest := items[..p], items[p..q], items[q..];
    assert items == a + b + rest;
    CountBelow(b, value);
    CountConcat(a, b, value);
    CountConcat(a + b, rest, value);
    Ranked(items, value, m - 1, q);
    assert items[..q] == a + b;
    StripWindow(a, b, rest, value, low, low + c);
    StripWindow(a, b, rest, value, m - c, m);
    StripUniform(b, value, 0, c);
    StripUniform(b, value, m - c - low, m - low);
  }

  lemma StripWindow(a: seq<string>, b: seq<string>, rest: seq<string>, value: string, from: int, to: int)
    requires Count(a, value) <= from <= to <= Count(a, value) + Count(b, value) && Count(rest, value) == 0
    ensures var k := Count(a, value); Strip(a + b + rest, value, from, to) == a + Strip(b, value, from - k, to - k) + rest
  {
    hide Strip, Count;
    var k := Count(a, value);
    StripConcat(a + b, rest, value, from, to);
    StripConcat(a, b, value, from, to);
    CountConcat(a, b, value);
    StripNothing(a, value, from, to);
    StripNone(rest, value, from - k - Count(b, value), to - k - Count(b, value));
  }

  lemma {:induction false} StripNone(items: seq<string>, value: string, from: int, to: int)
    requires Count(items, value) == 0
    ensures Strip(items, value, from, to) == items
  {
    if |items| > 0 {
      StripNone(items[..|items| - 1], value, from, to);
    }
  }

  /** From a list of nothing but the value it does not matter which are taken. */
  lemma StripUniform(items: seq<string>, value: string, from: nat, to: nat)
    requires from <= to <= |items| && forall i :: 0 <= i < |items| ==> items[i] == value
    ensures Strip(items, value, from, to) == items[..|items| - (to - from)]
  {
    CountBelow(items, value);
    StripCounts(items, value, from, to);
    CountBelow(Strip(items, value, from, to), value);
  }
}
