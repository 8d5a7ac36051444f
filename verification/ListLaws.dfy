/** What every list command answers and leaves behind, key by key; lists as queues and stacks. */
module ListLaws {
  import opened Options
  import opened Resp
  import opened Lists
  import opened ListRuns

  // ---------------------------------------------------------------- what every operation does, key by key

  /** The key holds these elements; without any it is absent. */
  ghost predicate Holds(s: State, key: string, items: seq<string>) {
    if items == [] then key !in s else key in s && s[key] == items
  }

  ghost predicate OnlyAt(s: State, t: State, keys: set<string>) {
    forall key :: key !in keys ==> (key in s <==> key in t) && (key in s ==> s[key] == t[key])
  }

  /** A push answers the new length; RPUSH appends, LPUSH prepends one after the other. */
  lemma PushLaw(s: State, key: string, side: Side, elements: seq<string>, old': seq<string>)
    requires Holds(s, key, old') && elements != []
    ensures var (reply, t) := Apply(s, Push(key, side, elements)); var n := |elements|;
      && reply == Integer(|old'| + n) && OnlyAt(s, t, {key}) && key in t && |t[key]| == |old'| + n
      && (side.Tail? ==> t[key] == old' + elements)
      && (side.Head? ==> t[key][n..] == old' && forall i :: 0 <= i < n ==> t[key][i] == elements[n - 1 - i])
  {
    hide Reversed;
    forall i | 0 <= i < |elements| ensures Reversed(elements)[i] == elements[|elements| - 1 - i] {
      ReversedAt(elements, i);
    }
  }

  lemma PopLaw(s: State, key: string, side: Side, items: seq<string>)
    requires Holds(s, key, items)
    ensures var (reply, t) := Apply(s, Pop(key, side)); var n := |items|;
      if n == 0 then reply == Bulk(Text("")) && t == s
      else
        && OnlyAt(s, t, {key})
        && (side.Head? ==> reply == Bulk(Text(items[0])) && Holds(t, key, items[1..]))
        && (side.Tail? ==> reply == Bulk(Text(items[n - 1])) && Holds(t, key, items[..n - 1]))
  {
  }

  lemma TrimLaw(s: State, key: string, start: Option<int>, stop: Option<int>, items: seq<string>)
    requires Holds(s, key, items)
    ensures var (reply, t) := Apply(s, Trim(key, start, stop));
      if start.None? || stop.None? then reply == Error("ERR value is not an integer or out of range") && t == s
      else reply == Status("OK") && OnlyAt(s, t, {key}) && Holds(t, key, Trimmed(items, start.value, stop.value))
  {
    hide Trimmed;
    assert Trimmed([], if start.Some? then start.value else 0, if stop.Some? then stop.value else 0) == [] by {
      TrimNothing(if start.Some? then start.value else 0, if stop.Some? then stop.value else 0);
    }
  }

  lemma TrimNothing(start: int, stop: int)
    ensures Trimmed([], start, stop) == []
  {
  }

  /** LREM answers by how much the list has become shorter. */
  lemma RemoveLaw(s: State, key: string, count: Option<int>, value: string, items: seq<string>)
    requires Holds(s, key, items)
    ensures var (reply, t) := Apply(s, Remove(key, count, value));
      if count.None? then reply == Error("ERR value is not an integer or out of range") && t == s
      else
        var left := Removed(items, value, count.value);
        reply == Integer(|items| - |left|) && OnlyAt(s, t, {key}) && Holds(t, key, left)
  {
    hide Removed, Takes;
    if count.Some? {
      RemovesExactly(items, value, count.value);
    }
  }

  /** RPOPLPUSH answers the last element of one list, which becomes the first of the other. */
  lemma MoveLaw(s: State, src: string, dst: string, from: seq<string>, to: seq<string>)
    requires Holds(s, src, from) && Holds(s, dst, to)
    ensures var (reply, t) := Apply(s, Move(src, dst)); var n := |from|;
      if n == 0 then reply == Bulk(Text("")) && t == s
      else
        && reply == Bulk(Text(from[n - 1])) && OnlyAt(s, t, {src, dst})
        && if src == dst then Holds(t, src, [from[n - 1]] + from[..n - 1])
           else Holds(t, src, from[..n - 1]) && Holds(t, dst, [from[n - 1]] + to)
  {
  }

  // ---------------------------------------------------------------- queues

  function Pops(key: string, side: Side, n: nat): seq<Op> {
    if n == 0 then [] else [Op.Pop(key, side)] + Pops(key, side, n - 1)
  }

  lemma FirstThen(s: State, op: Op, ops: seq<Op>)
    ensures Final(s, [op] + ops) == Final(Apply(s, op).1, ops)
    ensures Replies(s, [op] + ops) == [Apply(s, op).0] + Replies(Apply(s, op).1, ops)
  {
    hide Apply;
    assert ([op] + ops)[1..] == ops;
  }

  /** Popping a whole list answers its elements from that end, and leaves no key. */
  lemma {:induction false} PopAll(s: State, key: string, side: Side, items: seq<string>)
    requires Holds(s, key, items)
    ensures var ops := Pops(key, side, |items|);
      && Final(s, ops) == s - {key}
      && Replies(s, ops) == Texts(if side.Head? then items else Reversed(items))
    decreases |items|
  {
    if items == [] {
      assert s - {key} == s;
    } else {
      hide *;
      var n := |items| - 1;
      var x := if side.Head? then items[0] else items[n];
      var rest := if side.Head? then items[1..] else items[..n];
      var t := Apply(s, Op.Pop(key, side)).1;
      PopLaw(s, key, side, items);
      FirstThen(s, Op.Pop(key, side), Pops(key, side, n));
      MorePops(key, side, n);
      PopAll(t, key, side, rest);
      SameBut(s, t, key);
      TextsCons(x, if side.Head? then rest else Reversed(rest));
      OutOf(items, side);
    }
  }

  lemma MorePops(key: string, side: Side, n: nat)
    ensures Pops(key, side, n + 1) == [Op.Pop(key, side)] + Pops(key, side, n)
  {
  }

  lemma OutOf(items: seq<string>, side: Side)
    requires items != []
    ensures var n := |items| - 1;
      if side.Head? then items == [items[0]] + items[1..] else Reversed(items) == [items[n]] + Reversed(items[..n])
  {
    hide Reversed;
    var n := |items| - 1;
    ReversedAppend(items[..n], items[n]);
    assert items == items[..n] + [items[n]];
  }

  lemma SameBut(s: State, t: State, key: string)
    requires OnlyAt(s, t, {key})
    ensures s - {key} == t - {key}
  {
  }

  lemma TextsCons(x: string, items: seq<string>)
    ensures Texts([x] + items) == [Bulk(Text(x))] + Texts(items)
  {
    assert ([x] + items)[1..] == items;
  }

  /** A list filled at one end and emptied at one end: a queue when the ends differ, a stack when they do not. */
  lemma QueueOrStack(s: State, key: string, fill: Side, empty: Side, elements: seq<string>)
    requires key !in s && elements != []
    ensures var ops := [Push(key, fill, elements)] + Pops(key, empty, |elements|);
      && Final(s, ops) == s
      && Replies(s, ops) == [Integer(|elements|)] + Texts(if fill != empty then elements else Reversed(elements))
  {
    hide *;
    var items := Filling(fill, elements);
    var out := if empty.Head? then items else Reversed(items);
    assert out == if fill != empty then elements else Reversed(elements) by {
      FillingOut(fill, empty, elements);
    }
    var t := s[key := items];
    var pops := Pops(key, empty, |elements|);
    assert Final(t, pops) == s && Replies(t, pops) == Texts(out) by {
      Filled(s, key, fill, elements);
      PopAll(t, key, empty, items);
      assert t - {key} == s;
    }
    Filled(s, key, fill, elements);
    FirstThen(s, Push(key, fill, elements), pops);
  }

  function Filling(fill: Side, elements: seq<string>): (r: seq<string>)
    ensures |r| == |elements|
  {
    if fill.Head? then Reversed(elements) else elements
  }

  lemma Filled(s: State, key: string, fill: Side, elements: seq<string>)
    requires key !in s && elements != []
    ensures Apply(s, Push(key, fill, elements)) == (Integer(|elements|), s[key := Filling(fill, elements)])
    ensures Holds(s[key := Filling(fill, elements)], key, Filling(fill, elements))
  {
    hide Reversed;
    assert Reversed(elements) + [] == Reversed(elements) && [] + elements == elements;
  }

  lemma FillingOut(fill: Side, empty: Side, elements: seq<string>)
    ensures var items := Filling(fill, elements);
      (if empty.Head? then items else Reversed(items)) == if fill != empty then elements else Reversed(elements)
  {
    ReversedTwice(elements);
  }

  lemma ReversedTwice(items: seq<string>)
    ensures Reversed(Reversed(items)) == items
  {
    forall i | 0 <= i < |items| ensures Reversed(Reversed(items))[i] == items[i] {
      ReversedAt(Reversed(items), i);
      ReversedAt(items, |items| - 1 - i);
    }
  }
}
