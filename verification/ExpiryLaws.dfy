/** What every operation of the key space answers and leaves behind, key by key. */
module ExpiryLaws {
  import opened Options
  import opened Resp
  import opened Expiry

  /** A deadline has passed when the clock is beyond its whole milliseconds; none, and 0, never passes. */
  lemma OverdueMeans<V>(item: Item<V>, now: int)
    ensures Overdue(item, now) <==>
      item.expiredAt.Some? && var d := item.expiredAt.value;
      d != 0.0 && if d > 0.0 then d < now as real else d + 1.0 <= now as real
  {
  }

  /** There, and its deadline has not passed. */
  predicate Live<V>(items: map<string, Item<V>>, key: string, now: int) {
    key in items && !Overdue(items[key], now)
  }

  /** All keys but some are as before, overdue or not. */
  ghost predicate OnlyAt<V>(was: map<string, Item<V>>, now: map<string, Item<V>>, keys: set<string>) {
    forall key :: key !in keys ==> (key in now <==> key in was) && (key in was ==> now[key] == was[key])
  }

  /** A live key keeps its value, an overdue one goes. */
  ghost predicate Kept<V>(was: map<string, Item<V>>, items: map<string, Item<V>>, key: string, now: int) {
    (key in items <==> Live(was, key, now)) && (key in items ==> items[key] == was[key])
  }

  lemma PutLaw<V>(items: map<string, Item<V>>, key: string, item: Item<V>, now: int)
    ensures var (answer, items') := Lazy(items, Put(key, item), now);
      answer == Found(Some(item)) && key in items' && items'[key] == item && OnlyAt(items, items', {key})
  {
  }

  lemma GetLaw<V>(items: map<string, Item<V>>, key: string, now: int)
    ensures var (answer, items') := Lazy(items, Get(key), now);
      && answer == Found(if Live(items, key, now) then Some(items[key]) else None)
      && Kept(items, items', key, now) && OnlyAt(items, items', {key})
  {
  }

  lemma ExistsLaw<V>(items: map<string, Item<V>>, key: string, now: int)
    ensures var (answer, items') := Lazy(items, Op<V>.Exists(key), now);
      answer == Flag(Live(items, key, now)) && Kept(items, items', key, now) && OnlyAt(items, items', {key})
  {
  }

  lemma GetOrDefaultLaw<V>(items: map<string, Item<V>>, key: string, item: Item<V>, now: int)
    ensures var (answer, items') := Lazy(items, GetOrDefault(key, item), now);
      && answer == Found(Some(if Live(items, key, now) then items[key] else item))
      && Kept(items, items', key, now) && OnlyAt(items, items', {key})
  {
  }

  lemma PutIfPresentLaw<V>(items: map<string, Item<V>>, key: string, item: Item<V>, now: int)
    ensures var (answer, items') := Lazy(items, PutIfPresent(key, item), now);
      && OnlyAt(items, items', {key})
      && if Live(items, key, now) then answer == Found(Some(item)) && key in items' && items'[key] == item
         else answer == Found(None) && key !in items'
  {
  }

  lemma PutIfAbsentLaw<V>(items: map<string, Item<V>>, key: string, item: Item<V>, now: int)
    ensures var (answer, items') := Lazy(items, PutIfAbsent(key, item), now);
      var kept := if Live(items, key, now) then items[key] else item;
      answer == Found(Some(kept)) && key in items' && items'[key] == kept && OnlyAt(items, items', {key})
  {
  }

  lemma MergeLaw<V>(items: map<string, Item<V>>, key: string, item: Item<V>, callback: (Item<V>, Item<V>) -> Option<Item<V>>, now: int)
    ensures var (answer, items') := Lazy(items, Merge(key, item, callback), now);
      var merged := if Live(items, key, now) then callback(items[key], item) else Some(item);
      && answer == Found(merged) && OnlyAt(items, items', {key})
      && (key in items' <==> merged.Some?) && (merged.Some? ==> items'[key] == merged.value)
  {
  }

  /** A ttl must be a number that is not more than the whole number its text starts with, if it does. */
  lemma ExpireLaw<V>(items: map<string, Item<V>>, key: string, ttl: Ttl, now: int)
    ensures var (answer, items') := Lazy(items, Expire(key, ttl), now);
      var fits := ttl.number.Some? && (ttl.parsed.None? || ttl.number.value <= ttl.parsed.value as real);
      && OnlyAt(items, items', {key})
      && (!Live(items, key, now) ==> answer == Reply(Integer(0)) && key !in items')
      && (Live(items, key, now) && !fits ==>
           answer == Reply(Error("ERR value is not an integer or out of range")) && Kept(items, items', key, now))
      && (Live(items, key, now) && fits ==>
           var seconds := ttl.number.value;
           && answer == Reply(Integer(1)) && key in items' && items'[key].data == items[key].data
           && items'[key].expiredAt == Some(if seconds < 1.0 then -1.0 else now as real + 1000.0 * seconds))
  {
  }

  /** RENAME moves a live value with its deadline over whatever is under the new key, and leaves nothing
      under the old one; without a live value it changes no live key. */
  lemma RenameLaw<V>(items: map<string, Item<V>>, key: string, to: string, now: int)
    ensures var (answer, items') := Lazy(items, Rename(key, to), now);
      if Live(items, key, now) then
        && answer == Reply(Status("OK")) && OnlyAt(items, items', {key, to})
        && to in items' && items'[to] == items[key] && (key != to ==> key !in items')
      else answer == Reply(Error("ERR no such key")) && key !in items' && OnlyAt(items, items', {key})
  {
  }
}
