/** The list commands over lists kept in place in the database. */
module Lists {
  import opened Options
  import opened Resp
  import opened Occurrences

  datatype Side = Head | Tail

  /** Numeric parameters are none when their text is not an integer. */
  datatype Op =
    | Push(key: string, side: Side, elements: seq<string>)
    | Pop(key: string, side: Side)
    | Trim(key: string, start: Option<int>, stop: Option<int>)
    | Remove(key: string, count: Option<int>, value: string)
    | Move(src: string, dst: string)

  const OK := Status("OK")
  const NIL := Bulk(Text(""))
  const NOT_AN_INTEGER := Error("ERR value is not an integer or out of range")

  // ---------------------------------------------------------------- what the commands do to one list

  /** JavaScript's slice: a negative end counts from the end of the list. */
  function Slice(items: seq<string>, start: nat, end: int): seq<string> {
    var n := |items|;
    var from := Clip(start, 0, n);
    var to := Clip(if end < 0 then n + end else end, 0, n);
    if from < to then items[from..to] else []
  }

  function FromHead(items: seq<string>, index: int): int {
    if index < 0 then |items| + index else index
  }

  function Trimmed(items: seq<string>, start: int, stop: int): seq<string> {
    var from := FromHead(items, start);
    Slice(items, if from < 0 then 0 else from, FromHead(items, stop) + 1)
  }

  /** Ranks of the first occurrence that LREM takes, and of the first one behind those. */
  function Low(items: seq<string>, value: string, count: int): (r: nat)
    ensures r <= Count(items, value)
  {
    if count >= 0 then 0
    else
      var k := Clip(Count(items, value) + count, 0, |items|);
      CountPrefix(items, value, k);
      Count(items[..k], value)
  }

  function Abs(n: int): nat {
    if n < 0 then -n else n
  }

  function High(items: seq<string>, value: string, count: int): (r: nat)
    ensures Low(items, value, count) <= r <= Count(items, value)
  {
    var m := Count(items, value);
    if count == 0 then m else Clip(Low(items, value, count) + Abs(count), 0, m)
  }

  function Removed(items: seq<string>, value: string, count: int): seq<string> {
    Strip(items, value, Low(items, value, count), High(items, value, count))
  }

  /** How many occurrences LREM takes. */
  function Takes(items: seq<string>, value: string, count: int): nat {
    High(items, value, count) - Low(items, value, count)
  }

  function Reversed(items: seq<string>): (r: seq<string>)
    ensures |r| == |items|
  {
    if |items| == 0 then [] else Reversed(items[1..]) + [items[0]]
  }

  // ---------------------------------------------------------------- what the commands do to the database

  type State = map<string, seq<string>>

  function ItemsAt(s: State, key: string): seq<string> {
    if key in s then s[key] else []
  }

  /** A list that has become empty is not kept. */
  function Stored(s: State, key: string, items: seq<string>): State {
    if items == [] then s - {key} else s[key := items]
  }

  function Apply(s: State, op: Op): (Token, State) {
    match op
    case Push(key, side, elements) =>
      var items := ItemsAt(s, key);
      var items' := if side.Head? then Reversed(elements) + items else items + elements;
      (Integer(|items'|), s[key := items'])
    case Pop(key, side) =>
      var items := ItemsAt(s, key);
      if items == [] then (NIL, s)
      else if side.Head? then (Bulk(Text(items[0])), Stored(s, key, items[1..]))
      else (Bulk(Text(items[|items| - 1])), Stored(s, key, items[..|items| - 1]))
    case Trim(key, start, stop) =>
      if start.None? || stop.None? then (NOT_AN_INTEGER, s)
      else (OK, Stored(s, key, Trimmed(ItemsAt(s, key), start.value, stop.value)))
    case Remove(key, count, value) =>
      if count.None? then (NOT_AN_INTEGER, s)
      else
        var items := ItemsAt(s, key);
        (Integer(Takes(items, value, count.value)), Stored(s, key, Removed(items, value, count.value)))
    case Move(src, dst) =>
      var items := ItemsAt(s, src);
      if items == [] then (NIL, s)
      else
        var n := |items| - 1;
        var s' := Stored(s, src, items[..n]);
        (Bulk(Text(items[n])), s'[dst := [items[n]] + ItemsAt(s', dst)])
  }

  /** A push brings at least one element: the commands have two parameters or more. */
  predicate WellFormed(op: Op) {
    op.Push? ==> |op.elements| > 0
  }

  predicate NoneEmpty(s: State) {
    forall key :: key in s ==> s[key] != []
  }

  // ---------------------------------------------------------------- the lists as they are kept

  class List {
    var items: seq<string>

    constructor ()
      ensures items == []
    {
      items := [];
    }
  }

  class ListStore {
    var lists: map<string, List>

    ghost function Contents(): State
      reads this, lists.Values
    {
      map key | key in lists :: lists[key].items
    }

    /** No two keys share a list. */
    ghost predicate Apart()
      reads this
    {
      forall k, l :: k in lists && l in lists && k != l ==> lists[k] != lists[l]
    }

    /** No stored list is empty either. */
    ghost predicate Valid()
      reads this, lists.Values
    {
      Apart() && NoneEmpty(Contents())
    }

    /** The list is stored under this key, if anywhere. */
    ghost predicate Free(key: string, list: List)
      reads this
    {
      Apart() && forall k :: k in lists && k != key ==> lists[k] != list
    }

    constructor ()
      ensures Valid() && Contents() == map[]
    {
      lists := map[];
    }

    method Put(key: string, list: List)
      requires Free(key, list)
      modifies this
      ensures Apart() && lists == old(lists)[key := list]
      ensures Contents() == old(Contents())[key := list.items]
    {
      lists := lists[key := list];
    }

    /** Puts a list under a key, or drops the key when nothing is left of it. */
    method Keep(key: string, list: List)
      requires Free(key, list)
      modifies this
      ensures Apart() && lists.Values <= old(lists.Values) + {list}
      ensures Contents() == Stored(old(Contents()), key, list.items)
    {
      if |list.items| > 0 {
        Put(key, list);
      } else {
        lists := lists - {key};
        assert Contents() == old(Contents()) - {key};
      }
    }

    /** The source's get with an empty list for a default. */
    method GetOrDefault(key: string) returns (list: List)
      requires Apart()
      ensures Free(key, list) && list.items == ItemsAt(Contents(), key)
      ensures if key in lists then list == lists[key] else fresh(list)
    {
      if key in lists {
        list := lists[key];
      } else {
        list := new List();
      }
    }

    /** JavaScript's shift or pop. */
    method Take(key: string, list: List, side: Side) returns (element: string)
      requires Apart() && key in lists && lists[key] == list && list.items != []
      modifies list
      ensures var items := old(list.items); var n := |items| - 1;
        if side.Head? then element == items[0] && list.items == items[1..] else element == items[n] && list.items == items[..n]
      ensures Contents() == old(Contents())[key := list.items]
    {
      var n := |list.items| - 1;
      if side.Head? {
        element := list.items[0];
        list.items := list.items[1..];
      } else {
        element := list.items[n];
        list.items := list.items[..n];
      }
    }

    method Unshift(key: string, list: List, element: string)
      requires Free(key, list) && (key in lists ==> lists[key] == list)
      modifies list
      ensures list.items == [element] + old(list.items)
      ensures Contents() == if key in lists then old(Contents())[key := list.items] else old(Contents())
    {
      list.items := [element] + list.items;
    }

    method Push(key: string, side: Side, elements: seq<string>) returns (reply: Token)
      requires Valid() && WellFormed(Op.Push(key, side, elements))
      modifies this, lists.Values
      ensures Valid() && fresh(lists.Values - old(lists.Values))
      ensures (reply, Contents()) == Apply(old(Contents()), Op.Push(key, side, elements))
    {
      ghost var was, op := Contents(), Op.Push(key, side, elements);
      StaysNonEmpty(was, op);
      var list := GetOrDefault(key);
      PushAll(list, side, elements);
      assert Contents() - {key} == was - {key};
      StoredFrom(was, Contents(), key, list.items);
      Put(key, list);
      reply := Integer(|list.items|);
    }

    method Pop(key: string, side: Side) returns (reply: Token)
      requires Valid()
      modifies this, lists.Values
      ensures Valid() && fresh(lists.Values - old(lists.Values))
      ensures (reply, Contents()) == Apply(old(Contents()), Op.Pop(key, side))
    {
      ghost var was, op := Contents(), Op.Pop(key, side);
      StaysNonEmpty(was, op);
      if key !in lists {
        return NIL;
      }
      var list := lists[key];
      var element := Take(key, list, side);
      StoredFrom(was, Contents(), key, list.items);
      Keep(key, list);
      reply := Bulk(Text(element));
    }

    method Trim(key: string, start: Option<int>, stop: Option<int>) returns (reply: Token)
      requires Valid()
      modifies this, lists.Values
      ensures Valid() && fresh(lists.Values - old(lists.Values))
      ensures (reply, Contents()) == Apply(old(Contents()), Op.Trim(key, start, stop))
    {
      ghost var was, op := Contents(), Op.Trim(key, start, stop);
      StaysNonEmpty(was, op);
      if start.None? || stop.None? {
        return NOT_AN_INTEGER;
      }
      if key !in lists {
        assert Stored(was, key, []) == was;
        return OK;
      }
      var list := lists[key];
      Cut(list, start.value, stop.value);
      assert Contents() - {key} == was - {key};
      StoredFrom(was, Contents(), key, list.items);
      Keep(key, list);
      reply := OK;
    }

    method Remove(key: string, count: Option<int>, value: string) returns (reply: Token)
      requires Valid()
      modifies this, lists.Values
      ensures Valid() && fresh(lists.Values - old(lists.Values))
      ensures (reply, Contents()) == Apply(old(Contents()), Op.Remove(key, count, value))
    {
      ghost var was, op := Contents(), Op.Remove(key, count, value);
      StaysNonEmpty(was, op);
      hide Removed, Takes;
      if count.None? {
        return NOT_AN_INTEGER;
      }
      if key !in lists {
        NothingRemoved(value, count.value);
        assert Stored(was, key, []) == was;
        return Integer(0);
      }
      var list := lists[key];
      var result := Thin(list, count.value, value);
      assert Contents() - {key} == was - {key};
      StoredFrom(was, Contents(), key, list.items);
      Keep(key, list);
      reply := Integer(result);
    }

    /** Takes the last element of a list and puts it in front of the list under a key, maybe the same. */
    method PopOnto(src: string, from: List, dst: string) returns (member: string)
      requires Valid() && src in lists && lists[src] == from
      modifies this, lists.Values
      ensures Apart() && fresh(lists.Values - old(lists.Values)) && src in lists && lists[src] == from
      ensures var s := old(Contents()); var n := |s[src]| - 1; var s' := s[src := s[src][..n]];
        && member == s[src][n]
        && (src != dst ==> from.items == s[src][..n])
        && Contents() == s'[dst := [member] + ItemsAt(s', dst)]
    {
      ghost var was, items := Contents(), from.items;
      assert was[src] == items;
      var to := GetOrDefault(dst);
      member := Take(src, from, Tail);
      ghost var s := Contents();
      assert s == was[src := items[..|items| - 1]];
      assert to.items == ItemsAt(s, dst);
      Unshift(dst, to, member);
      assert Contents()[dst := to.items] == s[dst := to.items];
      Put(dst, to);
      assert Contents() == s[dst := [member] + ItemsAt(s, dst)];
    }

    method Move(src: string, dst: string) returns (reply: Token)
      requires Valid()
      modifies this, lists.Values
      ensures Valid() && fresh(lists.Values - old(lists.Values))
      ensures (reply, Contents()) == Apply(old(Contents()), Op.Move(src, dst))
    {
      ghost var was, op := Contents(), Op.Move(src, dst);
      StaysNonEmpty(was, op);
      if src !in lists {
        return NIL;
      }
      hide Apply, Stored;
      Moved(was, src, dst);
      var from := lists[src];
      var member := PopOnto(src, from, dst);
      if dst != src {
        Keep(src, from);
      }
      reply := Bulk(Text(member));
    }
  }

  /** Keys with empty lists never come about. */
  lemma StaysNonEmpty(s: State, op: Op)
    requires NoneEmpty(s) && WellFormed(op)
    ensures NoneEmpty(Apply(s, op).1)
  {
  }

  lemma StoredFrom(s: State, t: State, key: string, items: seq<string>)
    requires s - {key} == t - {key}
    ensures Stored(s, key, items) == Stored(t, key, items) && s[key := items] == t[key := items]
  {
    assert s[key := items] == (s - {key})[key := items];
    assert t[key := items] == (t - {key})[key := items];
  }

  /** The order in which RPOPLPUSH writes its two keys does not show. */
  lemma Moved(s: State, src: string, dst: string)
    requires ItemsAt(s, src) != []
    ensures var n := |s[src]| - 1; var front := s[src][..n];
      var put := s[src := front][dst := [s[src][n]] + ItemsAt(s[src := front], dst)];
      Apply(s, Op.Move(src, dst)) == (Bulk(Text(s[src][n])), if src == dst then put else Stored(put, src, front))
  {
    var n := |s[src]| - 1;
    var front, member := s[src][..n], s[src][n];
    var s', put := Stored(s, src, front), s[src := front][dst := [member] + ItemsAt(s[src := front], dst)];
    assert ItemsAt(s', dst) == ItemsAt(s[src := front], dst);
    if src == dst {
      assert s'[dst := [member] + front] == put;
    } else if front == [] {
      assert put - {src} == s'[dst := [member] + ItemsAt(s, dst)];
    } else {
      assert put[src := front] == put;
    }
  }

  lemma NothingRemoved(value: string, count: int)
    ensures Removed([], value, count) == [] && Takes([], value, count) == 0
  {
  }

  /** JavaScript's push or unshift of one element after the other. */
  method PushAll(list: List, side: Side, elements: seq<string>)
    modifies list
    ensures list.items == if side.Head? then Reversed(elements) + old(list.items) else old(list.items) + elements
  {
    hide Reversed;
    assert elements[..|elements|] == elements;
    if side.Head? {
      ReversedNothing();
      for i := 0 to |elements|
        invariant list.items == Reversed(elements[..i]) + old(list.items)
      {
        ReversedAppend(elements[..i], elements[i]);
        assert elements[..i + 1] == elements[..i] + [elements[i]];
        list.items := [elements[i]] + list.items;
      }
    } else {
      for i := 0 to |elements|
        invariant list.items == old(list.items) + elements[..i]
      {
        list.items := list.items + [elements[i]];
      }
    }
  }

  method Cut(list: List, start: int, stop: int)
    modifies list
    ensures list.items == Trimmed(old(list.items), start, stop)
  {
    var n := |list.items|;
    var from, to := start, stop;
    if from < 0 {
      from := n + from;
      if from < 0 {
        from := 0;
      }
    }
    if to < 0 {
      to := n + to;
    }
    list.items := Slice(list.items, from, to + 1);
  }

  /** LREM: the places of the value, those to be taken, and the taking, from back to front. */
  method Thin(list: List, count: int, value: string) returns (result: nat)
    modifies list
    ensures list.items == Removed(old(list.items), value, count) && result == Takes(old(list.items), value, count)
  {
    hide Low, High, Strip, Positions, Count;
    var matching := Matching(list, value);
    var taken := Choose(list.items, value, matching, count);
    result := Delete(list, value, Low(list.items, value, count), taken);
  }

  /** The places of a value, in one pass. */
  method Matching(list: List, value: string) returns (matching: seq<nat>)
    ensures matching == Positions(list.items, value)
  {
    matching := [];
    for index := 0 to |list.items|
      invariant matching == Positions(list.items[..index], value)
    {
      assert list.items[..index + 1][..index] == list.items[..index];
      if list.items[index] == value {
        matching := matching + [index];
      }
    }
    assert list.items[..|list.items|] == list.items;
  }

  /** For a negative count the source compares places with a number of occurrences. */
  method Choose(ghost items: seq<string>, ghost value: string, matching: seq<nat>, count: int) returns (taken: seq<nat>)
    requires matching == Positions(items, value)
    ensures taken == matching[Low(items, value, count)..High(items, value, count)]
  {
    hide Count, Positions;
    taken := [];
    ghost var low := Low(items, value, count);
    for index := 0 to |matching|
      invariant taken == if index <= low then [] else matching[low..index]
      invariant count != 0 ==> |taken| < Abs(count)
    {
      Ranked(items, value, index, Clip(|matching| + count, 0, |items|));
      CountBelow(items, value);
      if count >= 0 || matching[index] >= |matching| + count {
        taken := taken + [matching[index]];
        if count != 0 && Abs(count) == |taken| {
          break;
        }
      }
    }
  }

  method Delete(list: List, ghost value: string, ghost low: nat, taken: seq<nat>) returns (result: nat)
    requires low + |taken| <= Count(list.items, value)
    requires taken == Positions(list.items, value)[low..low + |taken|]
    modifies list
    ensures result == |taken| && list.items == Strip(old(list.items), value, low, low + |taken|)
  {
    hide Count, Positions, Strip;
    ghost var items := list.items;
    ghost var high := low + |taken|;
    result := 0;
    StripNothing(items, value, high, high);
    var rest := taken;
    while |rest| > 0
      invariant rest == taken[..|rest|] && |rest| <= |taken| && result == |taken| - |rest|
      invariant list.items == Strip(items, value, low + |rest|, high)
    {
      var item := rest[|rest| - 1];
      StripOneMore(items, value, low + |rest| - 1, high);
      rest := rest[..|rest| - 1];
      list.items := list.items[..item] + list.items[item + 1..];
      result := result + 1;
    }
  }

  lemma ReversedNothing()
    ensures Reversed([]) == []
  {
  }

  lemma {:induction false} ReversedAppend(items: seq<string>, x: string)
    ensures Reversed(items + [x]) == [x] + Reversed(items)
  {
    if |items| == 0 {
      assert items + [x] == [x] && [x][1..] == [];
    } else {
      assert (items + [x])[1..] == items[1..] + [x];
      ReversedAppend(items[1..], x);
    }
  }
}
