/** The key space, which drops an expired key when it is next looked up. */
module Expiry {
  import opened Options
  import opened Resp

  /** expiredAt is in milliseconds; zero counts as none. */
  datatype Item<V> = Item(data: V, expiredAt: Option<real>)

  /** JavaScript's parseInt of a number cuts off its fraction. */
  function Cut(x: real): int {
    if x < 0.0 then -(-x).Floor else x.Floor
  }

  predicate Overdue<V>(item: Item<V>, now: int) {
    item.expiredAt.Some? && item.expiredAt.value != 0.0 && Cut(item.expiredAt.value) < now
  }

  /** What JavaScript's Number and parseInt read in the text of a ttl; none for NaN. */
  datatype Ttl = Ttl(number: Option<real>, parsed: Option<int>)
  {
    /** A ttl passes when it is a number, and not more than the whole number that starts its text. */
    predicate Passes() {
      number.Some? && !(parsed.Some? && number.value > parsed.value as real)
    }
  }

  /** A callback may ask for the key to go. */
  datatype Op<!V> =
    | Put(key: string, item: Item<V>)
    | Get(key: string)
    | Exists(key: string)
    | GetOrDefault(key: string, item: Item<V>)
    | PutIfPresent(key: string, item: Item<V>)
    | PutIfAbsent(key: string, item: Item<V>)
    | Merge(key: string, item: Item<V>, callback: (Item<V>, Item<V>) -> Option<Item<V>>)
    | Expire(key: string, ttl: Ttl)
    | Rename(key: string, to: string)

  datatype Answer<V> = Found(item: Option<Item<V>>) | Flag(value: bool) | Reply(token: Token)

  const OK := Status("OK")
  const NO_SUCH_KEY := Error("ERR no such key")
  const NOT_AN_INTEGER := Error("ERR value is not an integer or out of range")

  /** A ttl below one second means now. */
  function Deadline(seconds: real, now: int): real {
    if seconds < 1.0 then -1.0 else now as real + seconds * 1000.0
  }

  // ---------------------------------------------------------------- a map that forgets nothing by itself

  function Lookup<V>(items: map<string, Item<V>>, key: string): Option<Item<V>> {
    if key in items then Some(items[key]) else None
  }

  function Plain<V>(items: map<string, Item<V>>, op: Op<V>, now: int): (Answer<V>, map<string, Item<V>>) {
    var found := Lookup(items, op.key);
    match op
    case Put(key, item) => (Found(Some(item)), items[key := item])
    case Get(key) => (Found(found), items)
    case Exists(key) => (Flag(found.Some?), items)
    case GetOrDefault(key, item) => (Found(if found.Some? then found else Some(item)), items)
    case PutIfPresent(key, item) => if found.Some? then (Found(Some(item)), items[key := item]) else (Found(None), items)
    case PutIfAbsent(key, item) => if found.Some? then (Found(found), items) else (Found(Some(item)), items[key := item])
    case Merge(key, item, callback) =>
      var merged := if found.Some? then callback(found.value, item) else Some(item);
      (Found(merged), if merged.Some? then items[key := merged.value] else items - {key})
    case Expire(key, ttl) =>
      if found.None? then (Reply(Integer(0)), items)
      else if !ttl.Passes() then (Reply(NOT_AN_INTEGER), items)
      else (Reply(Integer(1)), items[key := found.value.(expiredAt := Some(Deadline(ttl.number.value, now)))])
    case Rename(key, to) =>
      if found.None? then (Reply(NO_SUCH_KEY), items) else (Reply(OK), (items - {key})[to := found.value])
  }

  // ---------------------------------------------------------------- two ways to expire

  function Purge<V>(items: map<string, Item<V>>, now: int): map<string, Item<V>> {
    map key | key in items && !Overdue(items[key], now) :: items[key]
  }

  /** Everything overdue goes before the operation. */
  function Eager<V>(items: map<string, Item<V>>, op: Op<V>, now: int): (Answer<V>, map<string, Item<V>>) {
    Plain(Purge(items, now), op, now)
  }

  function Touch<V>(items: map<string, Item<V>>, key: string, now: int): map<string, Item<V>> {
    if key in items && Overdue(items[key], now) then items - {key} else items
  }

  /** Only the key that the operation looks up goes, if it is overdue. */
  function Lazy<V>(items: map<string, Item<V>>, op: Op<V>, now: int): (Answer<V>, map<string, Item<V>>) {
    Plain(if op.Put? then items else Touch(items, op.key, now), op, now)
  }

  datatype Event<!V> = Event(op: Op<V>, now: int)

  function LazyAnswers<V>(items: map<string, Item<V>>, events: seq<Event<V>>): (r: seq<Answer<V>>)
    ensures |r| == |events|
    decreases |events|
  {
    if |events| == 0 then []
    else
      var (answer, items') := Lazy(items, events[0].op, events[0].now);
      [answer] + LazyAnswers(items', events[1..])
  }

  function EagerAnswers<V>(items: map<string, Item<V>>, events: seq<Event<V>>): (r: seq<Answer<V>>)
    ensures |r| == |events|
    decreases |events|
  {
    if |events| == 0 then []
    else
      var (answer, items') := Eager(items, events[0].op, events[0].now);
      [answer] + EagerAnswers(items', events[1..])
  }

  predicate ClockAdvances<V>(start: int, events: seq<Event<V>>)
    decreases |events|
  {
    |events| == 0 || (start <= events[0].now && ClockAdvances(events[0].now, events[1..]))
  }

  // ---------------------------------------------------------------- lazy expiry refines eager expiry

  lemma PurgeLater<V>(items: map<string, Item<V>>, now: int, later: int)
    requires now <= later
    ensures Purge(Purge(items, now), later) == Purge(items, later)
  {
  }

  /** What is overdue makes no difference to one operation. */
  lemma StepRefines<V>(lazily: map<string, Item<V>>, eagerly: map<string, Item<V>>, op: Op<V>, now: int)
    requires Purge(lazily, now) == Purge(eagerly, now)
    ensures Lazy(lazily, op, now).0 == Eager(eagerly, op, now).0
    ensures Purge(Lazy(lazily, op, now).1, now) == Purge(Eager(eagerly, op, now).1, now)
  {
    var touched := if op.Put? then lazily else Touch(lazily, op.key, now);
    var purged := Purge(eagerly, now);
    assert Purge(touched, now) == purged;
    if !op.Put? {
      assert Lookup(touched, op.key) == Lookup(purged, op.key) by {
        assert op.key in purged <==> op.key in touched;
      }
    }
    PlainRefines(touched, purged, op, now);
  }

  lemma PlainRefines<V>(touched: map<string, Item<V>>, purged: map<string, Item<V>>, op: Op<V>, now: int)
    requires Purge(touched, now) == purged
    requires op.Put? || Lookup(touched, op.key) == Lookup(purged, op.key)
    ensures Plain(touched, op, now).0 == Plain(purged, op, now).0
    ensures Purge(Plain(touched, op, now).1, now) == Purge(Plain(purged, op, now).1, now)
  {
  }

  /** As long as the clock does not go back, nobody can tell the two apart. */
  lemma {:induction false} RunRefines<V>(lazily: map<string, Item<V>>, eagerly: map<string, Item<V>>, events: seq<Event<V>>, start: int)
    requires Purge(lazily, start) == Purge(eagerly, start) && ClockAdvances(start, events)
    ensures LazyAnswers(lazily, events) == EagerAnswers(eagerly, events)
    decreases |events|
  {
    hide Lazy, Eager, Purge;
    if |events| > 0 {
      var (op, now) := (events[0].op, events[0].now);
      PurgeLater(lazily, start, now);
      PurgeLater(eagerly, start, now);
      StepRefines(lazily, eagerly, op, now);
      RunRefines(Lazy(lazily, op, now).1, Eager(eagerly, op, now).1, events[1..], now);
    }
  }

  // ---------------------------------------------------------------- and only then

  /** Asks for one key at place at, for another one before and after. */
  function Asking<V>(clock: seq<int>, at: int, key: string, other: string): (r: seq<Event<V>>)
    ensures |r| == |clock| && forall i {:trigger r[i]} :: 0 <= i < |r| ==> r[i].now == clock[i]
  {
    if |clock| == 0 then []
    else [Event(Op<V>.Exists(if at == 0 then key else other), clock[0])] + Asking(clock[1..], at - 1, key, other)
  }

  /** Eager expiry forgets a key for good once it has been overdue. */
  lemma {:induction false} EagerForgets<V>(items: map<string, Item<V>>, clock: seq<int>, at: nat, key: string, other: string)
    requires at < |clock| && key != other && items.Keys <= {key}
    requires key in items ==> exists i :: 0 <= i <= at && Overdue(items[key], clock[i])
    ensures EagerAnswers(items, Asking(clock, at, key, other))[at] == Flag(false)
    decreases at
  {
    var rest := Purge(items, clock[0]);
    if at > 0 {
      if key in rest {
        var i :| 0 <= i <= at && Overdue(items[key], clock[i]);
        assert Overdue(rest[key], clock[1..][i - 1]);
      }
      EagerForgets(rest, clock[1..], at - 1, key, other);
    }
  }

  /** Lazy expiry has it as long as nobody asks. */
  lemma {:induction false} LazyKeeps<V>(items: map<string, Item<V>>, clock: seq<int>, at: nat, key: string, other: string)
    requires at < |clock| && key != other && key in items && items.Keys <= {key} && !Overdue(items[key], clock[at])
    ensures LazyAnswers(items, Asking(clock, at, key, other))[at] == Flag(true)
    decreases at
  {
    if at > 0 {
      LazyKeeps(items, clock[1..], at - 1, key, other);
    }
  }

  predicate Increasing(clock: seq<int>) {
    forall i :: 0 < i < |clock| ==> clock[i - 1] <= clock[i]
  }

  /** The operations of a run, told the time by a clock. */
  function Times<V>(events: seq<Event<V>>): (r: seq<int>)
    ensures |r| == |events| && forall i {:trigger r[i]} :: 0 <= i < |r| ==> r[i] == events[i].now
  {
    seq(|events|, i requires 0 <= i < |events| => events[i].now)
  }

  /** No run by this clock tells lazy from eager expiry. */
  ghost predicate Indistinguishable<V(!new)>(clock: seq<int>) {
    forall items: map<string, Item<V>>, events: seq<Event<V>> ::
      Times(events) == clock ==> LazyAnswers(items, events) == EagerAnswers(items, events)
  }

  lemma {:induction false} IncreasingAdvances<V>(events: seq<Event<V>>, start: int)
    requires Increasing(Times(events)) && (|events| > 0 ==> start <= events[0].now)
    ensures ClockAdvances(start, events)
    decreases |events|
  {
    if |events| > 0 {
      var times := Times(events);
      forall i | 0 < i < |events[1..]|
        ensures Times(events[1..])[i - 1] <= Times(events[1..])[i]
      {
        assert times[i] <= times[i + 1];
      }
      if |events| > 1 {
        assert times[0] <= times[1];
      }
      IncreasingAdvances(events[1..], events[0].now);
    }
  }

  /** A clock that goes back lets a run tell them apart. */
  lemma GoingBackShows<V(!new)>(clock: seq<int>, i: nat, data: V)
    requires 0 < i < |clock| && clock[i - 1] > clock[i] > 0
    ensures !Indistinguishable<V>(clock)
  {
    hide LazyAnswers, EagerAnswers, Times;
    var item := Item(data, Some((clock[i - 1] - 1) as real));
    var items := map["a" := item];
    var events: seq<Event<V>> := Asking(clock, i, "a", "b");
    assert Overdue(item, clock[i - 1]) && !Overdue(item, clock[i]);
    EagerForgets(items, clock, i, "a", "b");
    LazyKeeps(items, clock, i, "a", "b");
    assert Times(events) == clock;
  }

  /** With times counted from the epoch, no run can tell lazy from eager expiry exactly when the clock
      never goes back. */
  lemma ClockDecides<V(!new)>(clock: seq<int>, data: V)
    requires forall i :: 0 <= i < |clock| ==> clock[i] > 0
    ensures Indistinguishable<V>(clock) <==> Increasing(clock)
  {
    hide LazyAnswers, EagerAnswers, Times, Purge, ClockAdvances;
    if Increasing(clock) {
      forall items: map<string, Item<V>>, events: seq<Event<V>> | Times(events) == clock
        ensures LazyAnswers(items, events) == EagerAnswers(items, events)
      {
        var start := if |clock| > 0 then clock[0] else 0;
        IncreasingAdvances(events, start);
        RunRefines(items, items, events, start);
      }
    } else {
      var i :| 0 < i < |clock| && clock[i - 1] > clock[i];
      GoingBackShows(clock, i, data);
    }
  }

  /** Without the look-up before it, the renaming of an expired key would cost a live one: RENAME relies
      on its guard. */
  lemma RenameNeedsItsGuard<V>(data: V, now: int)
    requires now > 2
    ensures var items := map["a" := Item(data, Some(1.0)), "b" := Item(data, None)];
      "b" in Purge(Eager(items, Rename("a", "b"), now).1, now) && "b" !in Purge((items - {"a"})["b" := items["a"]], now)
  {
  }

  /** A key given a ttl that passes is there until its time is up: at once below one second, otherwise
      when the clock has gone past the deadline, whole milliseconds counting. */
  lemma ExpiresOnTime<V>(items: map<string, Item<V>>, key: string, ttl: Ttl, now: nat, later: nat)
    requires key in items && !Overdue(items[key], now) && ttl.Passes()
    ensures var seconds := ttl.number.value; var (answer, items') := Lazy(items, Expire(key, ttl), now);
      && answer == Reply(Integer(1))
      && Lazy(items', Op<V>.Exists(key), later).0 == Flag(seconds >= 1.0 && later <= now + (seconds * 1000.0).Floor)
  {
    var seconds := ttl.number.value;
    if seconds >= 1.0 {
      FloorAbove(seconds * 1000.0, now);
    }
  }

  lemma FloorAbove(x: real, n: int)
    ensures (n as real + x).Floor == n + x.Floor
  {
  }

  // ---------------------------------------------------------------- the key space as it is kept

  class Database<!V> {
    var items: map<string, Item<V>>

    constructor ()
      ensures items == map[]
    {
      items := map[];
    }

    method Put(key: string, item: Item<V>) returns (r: Item<V>)
      modifies this
      ensures items == old(items)[key := item] && r == item
    {
      items := items[key := item];
      r := item;
    }

    /** Answers what was there, expired or not. */
    method Remove(key: string) returns (r: Option<Item<V>>)
      modifies this
      ensures items == old(items) - {key} && r == Lookup(old(items), key)
    {
      r := None;
      if key in items {
        r := Some(items[key]);
        items := items - {key};
      }
    }

    method Get(key: string, now: int) returns (r: Option<Item<V>>)
      modifies this
      ensures (Found(r), items) == Lazy(old(items), Op.Get(key), now)
    {
      r := None;
      if key in items {
        if Overdue(items[key], now) {
          var _ := Remove(key);
        } else {
          r := Some(items[key]);
        }
      }
    }

    method Exists(key: string, now: int) returns (r: bool)
      modifies this
      ensures (Flag(r), items) == Lazy(old(items), Op.Exists(key), now)
    {
      var item := Get(key, now);
      r := item.Some?;
    }

    method PutIfPresent(key: string, item: Item<V>, now: int) returns (r: Option<Item<V>>)
      modifies this
      ensures (Found(r), items) == Lazy(old(items), Op.PutIfPresent(key, item), now)
    {
      r := Get(key, now);
      if r.Some? {
        var put := Put(key, item);
        r := Some(put);
      }
    }

    method PutIfAbsent(key: string, item: Item<V>, now: int) returns (r: Option<Item<V>>)
      modifies this
      ensures (Found(r), items) == Lazy(old(items), Op.PutIfAbsent(key, item), now)
    {
      r := Get(key, now);
      if r.None? {
        var put := Put(key, item);
        r := Some(put);
      }
    }

    method Merge(key: string, item: Item<V>, callback: (Item<V>, Item<V>) -> Option<Item<V>>, now: int) returns (r: Option<Item<V>>)
      modifies this
      ensures (Found(r), items) == Lazy(old(items), Op.Merge(key, item, callback), now)
    {
      var was := Get(key, now);
      r := if was.None? then Some(item) else callback(was.value, item);
      if r.None? {
        var _ := Remove(key);
      } else {
        var _ := Put(key, r.value);
      }
    }

    method GetOrDefault(key: string, item: Item<V>, now: int) returns (r: Option<Item<V>>)
      modifies this
      ensures (Found(r), items) == Lazy(old(items), Op.GetOrDefault(key, item), now)
    {
      r := Get(key, now);
      if r.None? {
        r := Some(item);
      }
    }

    /** Does not look at deadlines. */
    method Rename(from: string, to: string) returns (r: bool)
      modifies this
      ensures r == (from in old(items))
      ensures items == if r then (old(items) - {from})[to := old(items)[from]] else old(items)
    {
      var item := Remove(from);
      if item.Some? {
        var _ := Put(to, item.value);
        return true;
      }
      return false;
    }
  }

  method ExpireCommand<V>(db: Database<V>, key: string, ttl: Ttl, now: int) returns (reply: Token)
    modifies db
    ensures (Reply(reply), db.items) == Lazy(old(db.items), Op.Expire(key, ttl), now)
  {
    var item := db.Get(key, now);
    if item.None? {
      return Integer(0);
    }
    if ttl.number.None? || (ttl.parsed.Some? && ttl.number.value > ttl.parsed.value as real) {
      return NOT_AN_INTEGER;
    }
    var seconds := ttl.number.value;
    var deadline := if seconds < 1.0 then -1.0 else now as real + seconds * 1000.0;
    var _ := db.Put(key, item.value.(expiredAt := Some(deadline)));
    reply := Integer(1);
  }

  method RenameCommand<V>(db: Database<V>, key: string, to: string, now: int) returns (reply: Token)
    modifies db
    ensures (Reply(reply), db.items) == Lazy(old(db.items), Op.Rename(key, to), now)
  {
    var item := db.Get(key, now);
    if item.None? {
      return NO_SUCH_KEY;
    }
    var _ := db.Rename(key, to);
    reply := OK;
  }

  method Serve<V>(db: Database<V>, op: Op<V>, now: int) returns (answer: Answer<V>)
    modifies db
    ensures (answer, db.items) == Lazy(old(db.items), op, now)
  {
    hide Lazy;
    match op {
      case Put(key, item) =>
        assert Lazy(db.items, op, now) == (Found(Some(item)), db.items[key := item]) by { LazyPut(db.items, key, item, now); }
        var put := db.Put(key, item);
        answer := Found(Some(put));
      case Get(key) =>
        var r := db.Get(key, now);
        answer := Found(r);
      case Exists(key) =>
        var r := db.Exists(key, now);
        answer := Flag(r);
      case GetOrDefault(key, item) =>
        var r := db.GetOrDefault(key, item, now);
        answer := Found(r);
      case PutIfPresent(key, item) =>
        var r := db.PutIfPresent(key, item, now);
        answer := Found(r);
      case PutIfAbsent(key, item) =>
        var r := db.PutIfAbsent(key, item, now);
        answer := Found(r);
      case Merge(key, item, callback) =>
        var r := db.Merge(key, item, callback, now);
        answer := Found(r);
      case Expire(key, ttl) =>
        var reply := ExpireCommand(db, key, ttl, now);
        answer := Reply(reply);
      case Rename(key, to) =>
        var reply := RenameCommand(db, key, to, now);
        answer := Reply(reply);
    }
  }

  lemma LazyPut<V>(items: map<string, Item<V>>, key: string, item: Item<V>, now: int)
    ensures Lazy(items, Op.Put(key, item), now) == (Found(Some(item)), items[key := item])
  {
  }

  /** The key space, driven by any operations at times that do not go back, answers as a map that drops
      every expired key on time. */
  method Drive<V>(db: Database<V>, events: seq<Event<V>>) returns (answers: seq<Answer<V>>)
    requires |events| > 0 ==> ClockAdvances(events[0].now, events)
    modifies db
    ensures answers == EagerAnswers(old(db.items), events)
  {
    hide Lazy, Eager, Purge;
    if |events| > 0 {
      RunRefines(db.items, db.items, events, events[0].now);
    }
    answers := [];
    for i := 0 to |events|
      invariant answers + LazyAnswers(db.items, events[i..]) == EagerAnswers(old(db.items), events)
    {
      assert events[i..][0] == events[i] && events[i..][1..] == events[i + 1..];
      var answer := Serve(db, events[i].op, events[i].now);
      answers := answers + [answer];
    }
  }
}
