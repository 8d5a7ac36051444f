/** The sorted set: an indexable skip list of members in (score, key) order, with a map from member to score. */
module SortedSets {
  import opened Keys
  import opened Entries
  import opened Options
  import opened SkipLinks

  /** What add comes back with: the key's previous score, or the exception of unique mode. */
  datatype AddResult = Was(previous: Option<real>) | Violation

  /** What becomes of a score offered to a key: stored; refused, with the old state restored; or
      refused with the old score refused as well, so that the key drops out of the chain. */
  datatype Fate = Stored | Refused | Lost

  ghost function FateOf(unique: bool, others: seq<Node>, previous: Option<real>, value: real): Fate {
    if !unique || !Refuses(others, value) then Stored
    else if previous.Some? && Refuses(others, previous.value) then Lost
    else Refused
  }

  function ScoreIn(m: map<Key, real>, key: Key): Option<real> {
    if key in m then Some(m[key]) else None
  }

  /** Another key has the score. */
  ghost predicate Taken(m: map<Key, real>, key: Key, value: real) {
    exists k :: k in m && k != key && m[k] == value
  }

  /** A change in which unique mode looks for score 0, the value that the head carries, where no other
      key has it: to store it, or to put a refused key's old score back. */
  ghost predicate SeeksZero(m: map<Key, real>, key: Key, value: real) {
    ScoreIn(m, key) != Some(value) && if Taken(m, key, value) then ScoreIn(m, key) == Some(0.0) else value == 0.0
  }

  /** The other keys' scores have no negative one among them. */
  ghost predicate NoneNegative(m: map<Key, real>, key: Key) {
    forall k :: k in m && k != key ==> m[k] >= 0.0
  }

  /** There are other keys, and all their scores are negative. */
  ghost predicate AllNegative(m: map<Key, real>, key: Key) {
    (exists k :: k in m && k != key) && forall k :: k in m && k != key ==> m[k] < 0.0
  }

  /** What offering a score to a key does to the map, as far as the map decides it: unique mode refuses
      a score that another key has, and 0 where the head stands for it. */
  ghost function Offer(unique: bool, m: map<Key, real>, key: Key, value: real): (map<Key, real>, AddResult) {
    if ScoreIn(m, key) == Some(value) then (m, Was(Some(value)))
    else if unique && (Taken(m, key, value) || (value == 0.0 && NoneNegative(m, key))) then (m, Violation)
    else (m[key := value], Was(ScoreIn(m, key)))
  }

  /** The map decides it unless 0 is sought among scores of both signs; and no key is lost. */
  ghost predicate Foreseen(m: map<Key, real>, key: Key, value: real) {
    SeeksZero(m, key, value) ==> AllNegative(m, key) || (NoneNegative(m, key) && !Taken(m, key, value))
  }

  /** Entries offered one after the other, up to the first refusal; whether there is one. */
  ghost function Merged(unique: bool, m: map<Key, real>, es: seq<Entry>): (map<Key, real>, bool) {
    if |es| == 0 then (m, false)
    else
      var n := |es| - 1;
      var (m', failed) := Merged(unique, m, es[..n]);
      if failed then (m', true) else var (m'', r) := Offer(unique, m', es[n].key, es[n].score); (m'', r == Violation)
  }

  ghost predicate MergeForeseen(m: map<Key, real>, es: seq<Entry>) {
    forall n {:trigger es[n]} :: 0 <= n < |es| ==>
      var (m', failed) := Merged(true, m, es[..n]); failed || Foreseen(m', es[n].key, es[n].score)
  }

  class SortedSet {
    var length: int
    var unique: bool
    var head: Node
    var tail: Node?
    var level: nat
    var scores: map<Key, real>

    ghost var spine: seq<Node>

    // -------------------------------------------------------------- invariant

    ghost predicate Shape()
      reads `head, `tail, `level, `spine, spine`links, spine`prev
      ensures Shape() ==> |spine| >= 1
    {
      && Wired(spine, level) && Chained(spine, tail)
      && head == spine[0] && head.key == [] && head.value == 0.0
      && (level > 1 ==> head.links[level - 1].next != null)
    }

    ghost function Entries(): seq<Entry>
      reads `spine
      requires |spine| >= 1
    {
      EntriesOf(spine)
    }

    /** Skip-list structure, order and size, without the score map. */
    ghost predicate Ordered()
      reads `head, `tail, `level, `length, `spine, spine`links, spine`prev
      ensures Ordered() ==> |spine| >= 1
    {
      Shape() && Sorted(Entries()) && length == |spine| - 1
    }

    ghost predicate Valid()
      reads this, spine
      ensures Valid() ==> |spine| >= 1
    {
      Ordered() && Agrees(Entries(), scores) && (unique ==> DistinctScores(Entries()))
    }

    /** The chain without one key's node. */
    ghost function Others(key: Key): seq<Node>
      reads this
      requires |spine| >= 1
    {
      if key in scores && Position(Entries(), Entry(key, scores[key])) < |Entries()| then
        Cut(spine, Position(Entries(), Entry(key, scores[key])) + 1)
      else spine
    }

    function Score(key: Key): Option<real>
      reads `scores
    {
      ScoreIn(scores, key)
    }

    /** Offering this score drops the key from the chain without an error. */
    ghost predicate Loses(key: Key, value: real)
      reads this
      requires |spine| >= 1
    {
      unique && Score(key) == Some(0.0) && Taken(scores, key, value) && HeadBlocks(Others(key))
    }

    constructor (unique: bool)
      ensures Valid() && Entries() == [] && scores == map[] && this.unique == unique
      ensures fresh(spine)
    {
      hide Wired, Chained, EntriesOf;
      this.unique := unique;
      head := new Node(0, [], 0.0);
      tail := null;
      level := 1;
      new;
      Empty();
    }

    method Empty()
      modifies `length, `level, `scores, `head, `tail, `spine
      ensures Valid() && Entries() == [] && scores == map[]
      ensures fresh(spine)
    {
      hide Wired;
      length := 0;
      level := 1;
      scores := map[];
      head := new Node(MAX_LEVEL, [], 0.0);
      tail := null;
      spine := [head];
      for i := 0 to MAX_LEVEL
        modifies head
        invariant head.links == seq(MAX_LEVEL, _ => Link(null, 0))
      {
        head.links := head.links[i := Link(null, 0)];
      }
      LoneHeadWired(head);
    }

    // -------------------------------------------------------------- unlinking

    method RemoveNode(node: Node, update: seq<Node>, ghost k: nat, ghost us: seq<nat>)
      requires Shape()
      requires 1 <= k < |spine| && node == spine[k]
      requires Predecessors(spine, 0, level, k - 1, update, us)
      modifies `level, `tail, `spine, spine
      ensures Shape() && spine == Cut(old(spine), k) && level <= old(level)
    {
      hide Wired, Predecessors;
      WiredHead(spine, level);
      FirstLink(spine, level, k);
      Unlink(spine, level, node, update, k, us);
      Detach(node, k);
      DropEmptyLevels();
    }

    /** The loop at the end of the source's _removeNode. */
    method DropEmptyLevels()
      requires Wired(spine, level) && head == spine[0]
      modifies `level
      ensures level <= old(level) && Wired(spine, level)
      ensures level > 1 ==> head.links[level - 1].next != null
    {
      hide Wired;
      WiredHead(spine, level);
      while level > 1 && head.links[level - 1].next == null
        invariant 1 <= level <= old(level) && Wired(spine, level)
      {
        WiredLower(spine, level);
        level := level - 1;
      }
    }

    method Detach(node: Node, ghost k: nat)
      requires 1 <= k < |spine| && node == spine[k] && 1 <= |node.links| && Distinct(spine) && Chained(spine, tail)
      requires node.links[0].next == if k + 1 < |spine| then spine[k + 1] else null
      modifies `tail, `spine, spine`prev
      ensures spine == Cut(old(spine), k) && Chained(spine, tail)
    {
      spine := Cut(spine, k);
      var next := node.links[0].next;
      if next != null {
        next.prev := node.prev;
      } else {
        tail := node.prev;
      }
    }

    /** The descent of the source's _remove: on every level, the last node before (value, key). */
    method DescendBefore(key: Key, value: real) returns (update: seq<Node>, ghost us: seq<nat>)
      requires Ordered()
      ensures |update| == |us| == MAX_LEVEL && us[0] == Position(Entries(), Entry(key, value))
      ensures Predecessors(spine, 0, level, us[0], update, us)
    {
      hide Wired, Chained, LinkOk, Predecessors, KeyLess, Sorted, EntriesOf, Position;
      ghost var e := Entry(key, value);
      ghost var r := Position(Entries(), e);
      PositionSplitsSpine(spine, e);
      WiredHead(spine, level);

      var node := head;
      update, us := seq(MAX_LEVEL, _ => node), seq(MAX_LEVEL, _ => 0);
      ghost var p := 0;
      NoPredecessors(spine, level, r, update, us);
      for i := level downto 0
        invariant 0 <= p <= r < |spine| && node == spine[p] && node.height >= i
        invariant |update| == |us| == MAX_LEVEL && Predecessors(spine, i, level, r, update, us)
      {
        LinkAt(spine, level, p, i);
        var next := node.links[i].next;
        while next != null && (next.value < value || (next.value == value && KeyLess(next.key, key)))
          invariant 0 <= p <= r < |spine| && node == spine[p] && node.height > i && i < |node.links| && next == node.links[i].next
          decreases |spine| - p
        {
          LinkAt(spine, level, p, i);
          p := p + node.links[i].span;
          node := next;
          LinkAt(spine, level, p, i);
          next := node.links[i].next;
        }
        LinkAt(spine, level, p, i);
        AddPredecessor(spine, i, level, p, node.links[i], r, update, us);
        update, us := update[i := node], us[i := p];
      }
      LowestPredecessor(spine, level, r, update, us);
    }

    method Remove(key: Key, value: real)
      requires Ordered()
      modifies `length, `level, `tail, `spine, spine
      ensures Shape() && length == |spine| - 1
      ensures Entry(key, value) in old(Entries()) ==>
        var k := Position(old(Entries()), Entry(key, value)) + 1;
        k < |old(spine)| && spine == Cut(old(spine), k)
      ensures Entry(key, value) !in old(Entries()) ==> spine == old(spine)
    {
      hide Wired, Chained, Predecessors, Before, Sorted, Cut, EntriesOf, Position;
      PositionOfMember(Entries(), Entry(key, value));
      var update, us := DescendBefore(key, value);
      ghost var r := us[0];
      WiredHead(spine, level);
      FirstLink(spine, level, r);
      PredecessorAt(spine, 0, level, r, update, us, 0);
      var node := update[0].links[0].next;
      if node == null || value != node.value || node.key != key {
        return;
      }
      RemoveNode(node, update, r + 1, us);
      length := length - 1;
    }

    /** The inner loop of the source's _insert on level i; taken when unique mode meets the same score. */
    method WalkForInsert(i: nat, from: Node, start: int, key: Key, value: real, ghost p0: nat, ghost r: nat)
      returns (taken: bool, node: Node, rank: int, ghost p: nat)
      requires Wired(spine, level) && i < level
      requires p0 <= r < |spine| && from == spine[p0] && from.height > i && start == p0
      requires Splits(spine, Entry(key, value), r) && (unique && p0 > 0 ==> from.value < value)
      ensures taken ==> unique && Refuses(spine, value)
      ensures !taken ==> p <= r && node == spine[p] && node.height > i && rank == p && i < |node.links|
      ensures !taken ==> node.links[i].next == null || r < p + node.links[i].span
      ensures !taken && unique ==> (p > 0 ==> node.value < value) && (node.links[i].next == null || node.links[i].next.value > value)
    {
      hide Wired, LinkOk, KeyLess;
      node, rank, p, taken := from, start, p0, false;
      LinkAt(spine, level, p, i);
      var next := node.links[i].next;
      while next != null && next.value <= value
        invariant p <= r && node == spine[p] && node.height > i && i < |node.links| && next == node.links[i].next
        invariant rank == p && (unique && p > 0 ==> node.value < value)
        decreases |spine| - p
      {
        LinkAt(spine, level, p, i);
        if next.value == value {
          if unique {
            taken := true;
            return;
          }
          if !KeyLess(next.key, key) {
            return;
          }
        }
        rank := rank + node.links[i].span;
        p := p + node.links[i].span;
        node := next;
        LinkAt(spine, level, p, i);
        next := node.links[i].next;
      }
      LinkAt(spine, level, p, i);
    }

    /** The descent of the source's _insert, with the rank of every stop; not ok when it returns null. */
    method DescendForInsert(key: Key, value: real) returns (ok: bool, update: seq<Node>, rank: seq<int>, ghost us: seq<nat>)
      requires Ordered()
      ensures ok <==> !(unique && Refuses(spine, value))
      ensures ok ==>
        && |update| == |rank| == |us| == MAX_LEVEL && us[0] == Position(Entries(), Entry(key, value))
        && Predecessors(spine, 0, level, us[0], update, us)
        && forall i :: 0 <= i < level ==> rank[i] == us[i]
    {
      hide Wired, Chained, LinkOk, Predecessors, Before, Sorted, EntriesOf, Position, ClearAfter, Splits, Refuses, TopAt;
      ghost var r := Position(Entries(), Entry(key, value));
      PositionSplitsSpine(spine, Entry(key, value));
      WiredHead(spine, level);

      var node := head;
      update, rank, us := seq(MAX_LEVEL, _ => node), seq(MAX_LEVEL, _ => 0), seq(MAX_LEVEL, _ => 0);
      ghost var p: nat := 0;
      ghost var top := TopPosition(spine, level);
      NoPredecessors(spine, level, r, update, us);
      for i := level downto 0
        invariant p <= r < |spine| && node == spine[p] && node.height >= i
        invariant |update| == |rank| == |us| == MAX_LEVEL && Predecessors(spine, i, level, r, update, us)
        invariant forall j :: i <= j < level ==> rank[j] == us[j]
        invariant if i == level then p == 0 else us[i] == p
        invariant unique && p > 0 ==> node.value < value
        invariant unique && i < level ==> ClearAfter(spine, i, p, value)
        invariant unique && value == 0.0 && i < level ==> us[level - 1] > 0
      {
        var taken, stop, reached;
        taken, stop, reached, p := WalkForInsert(i, node, if i == level - 1 then 0 else rank[i + 1], key, value, p, r);
        if taken {
          ok := false;
          return;
        }
        node, rank := stop, rank[i := reached];
        LinkAt(spine, level, p, i);
        if unique {
          StopIsClear(spine, i, p, node.links[i], value);
        }
        if unique && node.value == value {
          HeadRefuses(spine, level, i, top, value);
          ok := false;
          return;
        }
        AddPredecessor(spine, i, level, p, node.links[i], r, update, us);
        update, us := update[i := node], us[i := p];
      }
      LowestPredecessor(spine, level, r, update, us);
      if unique && node.value == value {
        HeadRefuses(spine, level, 0, top, value);
        ok := false;
        return;
      }
      ok := true;
      PredecessorAt(spine, 0, level, r, update, us, level - 1);
      if unique {
        NotRefused(spine, level, value, r, us[level - 1]);
      }
    }

    /** Coin tossing is left to the environment: any height from 1 to 32. */
    method RandomLevel() returns (h: nat)
      ensures 1 <= h <= MAX_LEVEL
    {
      h :| 1 <= h <= MAX_LEVEL;
    }

    method Insert(key: Key, value: real) returns (node: Node?)
      requires Ordered() && forall e :: e in Entries() ==> e.key != key
      modifies `length, `level, `tail, `spine, spine
      ensures Ordered()
      ensures forall i :: 0 <= i < |spine| ==> spine[i] in old(spine) || spine[i] == node
      ensures node == null <==> old(unique && Refuses(spine, value))
      ensures node == null ==> spine == old(spine)
      ensures node != null ==>
        && fresh(node) && node.Item() == Entry(key, value)
        && spine == Splice(old(spine), Position(old(Entries()), Entry(key, value)) + 1, node)
        && Entries() == Splice(old(Entries()), Position(old(Entries()), Entry(key, value)), Entry(key, value))
      ensures node != null && unique ==> forall e :: e in old(Entries()) ==> e.score != value
    {
      hide Wired, Chained, Predecessors, Sorted, EntriesOf, Position, Refuses, Splice;
      ghost var e := Entry(key, value);
      SortedSplice(Entries(), e);
      WiredHead(spine, level);
      var ok, update, rank;
      ghost var us;
      ok, update, rank, us := DescendForInsert(key, value);
      if !ok {
        return null;
      }
      if unique { NotTaken(spine, value); }
      PredecessorAt(spine, 0, level, us[0], update, us, 0);
      var h := RandomLevel();
      node := Attach(h, key, value, update, rank, us);
      EntriesOfSplice(old(spine), us[0] + 1, node);
    }

    /** The rest of the source's _insert: a new node of height h goes in behind position us[0]. */
    method Attach(h: nat, key: Key, value: real, update: seq<Node>, rank: seq<int>, ghost us: seq<nat>) returns (node: Node)
      requires Shape() && length == |spine| - 1 && 1 <= h <= MAX_LEVEL
      requires |update| == |rank| == |us| == MAX_LEVEL && us[0] < |spine|
      requires Predecessors(spine, 0, level, us[0], update, us) && forall i :: 0 <= i < level ==> rank[i] == us[i]
      modifies `length, `level, `tail, `spine, spine
      ensures Shape() && length == |spine| - 1
      ensures fresh(node) && node.height == h && node.Item() == Entry(key, value) && spine == Splice(old(spine), us[0] + 1, node)
    {
      hide Wired, Chained, Predecessors, Splice;
      var update', rank';
      ghost var us', top;
      update', rank', us', top := Grow(h, update, rank, us);
      node := new Node(h, key, value);
      Join(node, update', rank', us', top);
      length := length + 1;
    }

    /** Raises the level to h if need be. top is a position that reaches the level, unless h is it. */
    method Grow(h: nat, update: seq<Node>, rank: seq<int>, ghost us: seq<nat>)
      returns (update': seq<Node>, rank': seq<int>, ghost us': seq<nat>, ghost top: nat)
      requires Shape() && length == |spine| - 1 && 1 <= h <= MAX_LEVEL
      requires |update| == |rank| == |us| == MAX_LEVEL && us[0] < |spine|
      requires Predecessors(spine, 0, level, us[0], update, us) && forall i :: 0 <= i < level ==> rank[i] == us[i]
      modifies `level, head`links
      ensures Wired(spine, level) && h <= level
      ensures |update'| == |rank'| == |us'| == MAX_LEVEL && us'[0] == us[0]
      ensures Predecessors(spine, 0, level, us[0], update', us') && forall i :: 0 <= i < level ==> rank'[i] == us'[i]
      ensures h < level ==> TopAt(spine, level, top)
    {
      hide Wired, Chained, Predecessors, LinkOk, Distinct, TopAt;
      WiredHead(spine, level);
      top := TopPosition(spine, level);
      update', rank', us' := update, rank, us;
      if h > level {
        update', rank', us' := GrowLevels(spine, level, h, head, length, update, rank, us);
        level := h;
      }
    }

    method Join(node: Node, update: seq<Node>, rank: seq<int>, ghost us: seq<nat>, ghost top: nat)
      requires Wired(spine, level) && Chained(spine, tail) && head == spine[0] && head.key == [] && head.value == 0.0
      requires node !in spine && 1 <= node.height == |node.links| <= level
      requires |update| == |rank| == |us| == MAX_LEVEL && us[0] < |spine|
      requires Predecessors(spine, 0, level, us[0], update, us) && forall i :: 0 <= i < level ==> rank[i] == us[i]
      requires node.height < level ==> TopAt(spine, level, top)
      modifies `tail, `spine, spine, node
      ensures Shape() && spine == Splice(old(spine), us[0] + 1, node)
    {
      hide Wired, Chained, Predecessors, Splice;
      ghost var k := us[0] + 1;
      ghost var s := Splice(spine, k, node);
      WiredHead(spine, level);
      PredecessorAt(spine, 0, level, us[0], update, us, 0);
      SpliceIn(spine, level, node, update, rank, us);
      FirstLink(s, level, k);
      if level > 1 {
        TopInUse(s, level, if node.height == level then k else if top < k then top else top + 1);
      }
      AttachBack(node, update[0], k);
    }

    /** Back pointers and tail for a node whose forward links are in place. */
    method AttachBack(node: Node, before: Node, ghost k: nat)
      requires 1 <= k <= |spine| && node !in spine && before == spine[k - 1] && spine[0] == head && Distinct(spine)
      requires 1 <= |node.links| && node.links[0].next == if k < |spine| then spine[k] else null
      requires Chained(spine, tail)
      modifies `tail, `spine, spine`prev, node`prev
      ensures spine == Splice(old(spine), k, node) && Chained(spine, tail)
    {
      node.prev := if before == head then null else before;
      if node.links[0].next != null {
        node.links[0].next.prev := node;
      } else {
        tail := node;
      }
      spine := Splice(spine, k, node);
    }

    // -------------------------------------------------------------- public mutators

    /** The first step of add and rem: a key that is present leaves the chain. */
    method Drop(key: Key)
      requires Valid()
      modifies `length, `level, `tail, `spine, spine
      ensures Ordered() && spine == old(Others(key)) && Entries() == Without(old(Entries()), key)
      ensures forall i :: 0 <= i < |spine| ==> spine[i] in old(spine)
    {
      hide Wired, Chained, Sorted, Agrees, DistinctScores, EntriesOf, Position, Cut;
      RemSpec(Entries(), scores, key);
      if key in scores {
        EntriesOfCut(spine, Position(Entries(), Entry(key, scores[key])) + 1);
        Remove(key, scores[key]);
      }
    }

    method Rem(key: Key) returns (r: Option<real>)
      requires Valid()
      modifies `length, `level, `tail, `scores, `spine, spine
      ensures Valid() && forall i :: 0 <= i < |spine| ==> spine[i] in old(spine)
      ensures r == old(Score(key)) && scores == old(scores) - {key} && Entries() == Without(old(Entries()), key)
    {
      hide Shape, Sorted, Agrees, DistinctScores, EntriesOf, Others;
      RemSpec(Entries(), scores, key);
      r := Score(key);
      Drop(key);
      scores := scores - {key};
    }

    /** The insertion inside add: when the new score is refused, a key that was present is put back with
        its old score, which may itself be refused. */
    method InsertOrRestore(key: Key, value: real, current: Option<real>) returns (fate: Fate)
      requires Ordered() && forall e :: e in Entries() ==> e.key != key
      modifies `length, `level, `tail, `spine, spine
      ensures Ordered() && forall i :: 0 <= i < |spine| ==> spine[i] in old(spine) || fresh(spine[i])
      ensures fate == FateOf(unique, old(spine), current, value)
      ensures fate == Stored ==>
        && Entries() == Splice(old(Entries()), Position(old(Entries()), Entry(key, value)), Entry(key, value))
        && (unique ==> forall e :: e in old(Entries()) ==> e.score != value)
      ensures fate == Refused ==>
        Entries() == if current.None? then old(Entries()) else
          Splice(old(Entries()), Position(old(Entries()), Entry(key, current.value)), Entry(key, current.value))
      ensures fate == Lost ==> Entries() == old(Entries())
    {
      hide Wired, Chained, Sorted, EntriesOf, Splice, Position, Refuses;
      var node := Insert(key, value);
      if node != null {
        return Stored;
      }
      if current.None? {
        return Refused;
      }
      var again := Insert(key, current.value);
      return if again != null then Refused else Lost;
    }

    /** What offering a score to a key does, and the answer. */
    twostate predicate Offered(key: Key, value: real, r: AddResult)
      requires old(Valid())
      reads this, spine
    {
      if Some(value) == old(Score(key)) then
        Valid() && r == Was(Some(value)) && scores == old(scores) && Entries() == old(Entries())
      else
        match FateOf(unique, old(Others(key)), old(Score(key)), value)
        case Stored =>
          Valid() && r == Was(old(Score(key))) && scores == old(scores)[key := value] && Entries() == Put(old(Entries()), key, value)
        case Refused =>
          Valid() && r == Violation && scores == old(scores) && Entries() == old(Entries())
        case Lost =>
          Ordered() && r == Was(old(Score(key))) && scores == old(scores)[key := value] && Entries() == Without(old(Entries()), key)
    }

    /** add for a score that is not the key's present one. */
    method Change(key: Key, value: real) returns (r: AddResult)
      requires Valid() && Some(value) != Score(key)
      modifies `length, `level, `tail, `scores, `spine, spine
      ensures forall i :: 0 <= i < |spine| ==> spine[i] in old(spine) || fresh(spine[i])
      ensures Offered(key, value, r)
    {
      hide Shape, Sorted, Agrees, DistinctScores, EntriesOf, Splice, Position, FateOf, Others, Put, Without;
      var current := Score(key);
      PutSpec(Entries(), scores, key, value, current);
      Drop(key);
      var fate := InsertOrRestore(key, value, current);
      if fate == Refused {
        return Violation;
      }
      scores := scores[key := value];
      return Was(current);
    }

    method Add(key: Key, value: Option<real>) returns (r: AddResult)
      requires Valid()
      modifies `length, `level, `tail, `scores, `spine, spine
      ensures forall i :: 0 <= i < |spine| ==> spine[i] in old(spine) || fresh(spine[i])
      ensures value.None? ==>
        Valid() && r == Was(old(Score(key))) && scores == old(scores) - {key} && Entries() == Without(old(Entries()), key)
      ensures value.Some? ==> Offered(key, value.value, r)
      ensures value.Some? ==> (Valid() <==> !old(Loses(key, value.value)))
      ensures r.Was? ==> r.previous == old(if key in scores then Some(scores[key]) else None)
      ensures value.Some? && r.Was? ==> scores == old(scores)[key := value.value]
      ensures r == Violation ==> unique && value.Some? && scores == old(scores) && Entries() == old(Entries())
    {
      hide Ordered, Shape, FateOf, Others, Put, Taken, Without, EntriesOf, HeadBlocks, Sorted, DistinctScores;
      if value.None? {
        var previous := Rem(key);
        return Was(previous);
      }
      var current := Score(key);
      if current == value {
        NotLost(this, key, value.value);
        return Was(current);
      }
      FateIs(this, key, value.value);
      ghost var es := Entries();
      r := Change(key, value.value);
      assert Entries() == Without(es, key) && key in scores ==> Entry(key, scores[key]) !in Entries();
    }

    // -------------------------------------------------------------- queries

    /** The first node scoring at least min. */
    method First(min: Bound) returns (node: Node?)
      requires Ordered()
      ensures var k := ScorePosition(Entries(), min) + 1; node == if k < |spine| then spine[k] else null
    {
      hide Wired, LinkOk, Sorted, EntriesOf, ScorePosition, ScoreEnd;
      ghost var r := ScorePosition(Entries(), min);
      ScoresSplitSpine(spine, min);
      WiredHead(spine, level);
      if tail == null || min.Above(tail.value) {
        return null;
      }
      var at := head;
      ghost var p: nat := 0;
      for i := level downto 0
        invariant p <= r && at == spine[p] && at.height >= i
        invariant i == 0 ==> p == r
      {
        LinkAt(spine, level, p, i);
        var next := at.links[i].next;
        while next != null && min.Above(next.value)
          invariant p <= r && at == spine[p] && at.height > i && i < |at.links| && next == at.links[i].next
          decreases |spine| - p
        {
          LinkAt(spine, level, p, i);
          p := p + at.links[i].span;
          at := next;
          LinkAt(spine, level, p, i);
          next := at.links[i].next;
        }
        if i == 0 { FirstLink(spine, level, p); }
      }
      FirstLink(spine, level, p);
      return at.links[0].next;
    }

    /** The node of rank index. The head answers to index -1, where the source means null. */
    method Get(index: int) returns (node: Node?)
      requires Shape() && length == |spine| - 1
      ensures node == if -1 <= index < length then spine[index + 1] else null
    {
      hide Wired, LinkOk;
      WiredHead(spine, level);
      node := head;
      var distance := -1;
      ghost var p: nat := 0;
      for i := level downto 0
        invariant p < |spine| && (p == 0 || p <= index + 1) && node == spine[p] && node.height >= i && distance == p - 1
        invariant i == 0 ==> p + 1 == |spine| || index < p || index < -1
        invariant i < level ==> distance != index
      {
        LinkAt(spine, level, p, i);
        while node.links[i].next != null && distance + node.links[i].span <= index
          invariant p < |spine| && (p == 0 || p <= index + 1) && node == spine[p] && node.height > i && i < |node.links| && distance == p - 1
          decreases |spine| - p
        {
          LinkAt(spine, level, p, i);
          distance := distance + node.links[i].span;
          p := p + node.links[i].span;
          node := node.links[i].next;
          LinkAt(spine, level, p, i);
        }
        if distance == index {
          return;
        }
        if i == 0 { FirstLink(spine, level, p); }
      }
      return null;
    }

    /** Where a member sits in the spine: the elements behind it come after it, and no other has its key. */
    lemma MemberPosition(key: Key) returns (k: nat)
      requires Valid() && key in scores
      ensures 1 <= k < |spine| && spine[k].Item() == Entry(key, scores[key])
      ensures forall p {:trigger spine[p]} :: 1 <= p < |spine| ==>
        (Before(spine[k].Item(), spine[p].Item()) <==> p > k) && (spine[p].key == key ==> p == k)
    {
      hide Wired, Chained, EntriesOf;
      var es := Entries();
      var e := Entry(key, scores[key]);
      assert e in es;
      var j :| 0 <= j < |es| && es[j] == e;
      k := j + 1;
      forall p | 1 <= p < |spine|
        ensures Before(e, spine[p].Item()) <==> p > k
        ensures spine[p].key == key ==> p == k
      {
        assert es[p - 1] == spine[p].Item();
        BeforeIrreflexive(e);
        if p < k { BeforeAsymmetric(es[p - 1], e); }
        if spine[p].key == key { KeysDistinct(es, scores, p - 1, k - 1); }
      }
    }

    method Rank(key: Key) returns (r: Option<nat>)
      requires Valid()
      ensures r.Some? <==> key in scores && key != []
      ensures r.Some? ==> r.value < |Entries()| && Entries()[r.value] == Entry(key, scores[key])
    {
      hide Wired, Chained, LinkOk, Sorted, EntriesOf, KeyLess, Agrees, DistinctScores;
      if key !in scores {
        return None;
      }
      var value := scores[key];
      ghost var k := MemberPosition(key);
      WiredHead(spine, level);
      var node := head;
      var rank := -1;
      ghost var p: nat := 0;
      for i := level downto 0
        invariant p <= k < |spine| && node == spine[p] && node.height >= i && rank == p - 1
        invariant i == 0 ==> p == k
        invariant i < level ==> key == [] || node.key != key
      {
        LinkAt(spine, level, p, i);
        var next := node.links[i].next;
        while next != null && (next.value < value || (next.value == value && !KeyLess(key, next.key)))
          invariant p <= k < |spine| && node == spine[p] && node.height > i && i < |node.links| && next == node.links[i].next && rank == p - 1
          decreases |spine| - p
        {
          LinkAt(spine, level, p, i);
          rank := rank + node.links[i].span;
          p := p + node.links[i].span;
          node := next;
          LinkAt(spine, level, p, i);
          next := node.links[i].next;
        }
        if node.key != [] && node.key == key {
          return Some(rank);
        }
        if i == 0 { FirstLink(spine, level, p); }
      }
      return None;
    }

    /** How many scores lie between min and max. The last line turns a count of one into none, unless
        the one is all there is. */
    method Count(minimum: Option<Bound>, maximum: Option<Bound>) returns (count: int)
      requires Ordered()
      ensures var n := |Sift(Entries(), Inclusive(LowEnd(minimum), HighEnd(maximum)), true)|;
        count == if n == 1 && |Entries()| > 1 then 0 else n
    {
      hide Wired, Chained, LinkOk, Sorted, EntriesOf, ScorePosition, ScoreEnd, Sift;
      if length == 0 {
        return 0;
      }
      var min, max := LowEnd(minimum), HighEnd(maximum);
      FirstLink(spine, level, 0);
      LastNode(spine, tail);
      CountSpec(spine, min, max);
      if !min.Above(head.links[0].next.value) && max.AtLeast(tail.value) {
        return length;
      }
      if max.Less(min) || min.Above(tail.value) || !max.AtLeast(head.links[0].next.value) {
        return 0;
      }
      var node := First(min);
      count := 0;
      if node == null {
        return 0;
      }
      count := CountFrom(node, max, ScorePosition(Entries(), min) + 1);
      count := if count == 0 then 0 else count + 1;
    }

    /** The loop of the source's count: spans from node, at position f, to the last score up to max. */
    method CountFrom(node: Node, max: Bound, ghost f: nat) returns (count: int)
      requires Ordered() && 1 <= f < |spine| && node == spine[f]
      ensures var e := ScoreEnd(Entries(), max); count == if e < f then 0 else e - f
    {
      hide Wired, Chained, LinkOk, Sorted, EntriesOf, ScorePosition, ScoreEnd;
      ghost var e := ScoreEnd(Entries(), max);
      ScoresSplitSpine(spine, max);
      WiredHead(spine, level);
      FirstLink(spine, level, f);
      WiredRow(spine, level, f);
      var at := node;
      ghost var p: nat := f;
      count := 0;
      for i := |node.links| downto 0
        invariant f <= p < |spine| && (p == f || p <= e) && at == spine[p] && at.height >= i && count == p - f
        invariant i == 0 ==> p + 1 == |spine| || e <= p
      {
        LinkAt(spine, level, p, i);
        while at.links[i].next != null && max.AtLeast(at.links[i].next.value)
          invariant f <= p < |spine| && (p == f || p <= e) && at == spine[p] && at.height > i && i < |at.links| && count == p - f
          decreases |spine| - p
        {
          LinkAt(spine, level, p, i);
          count := count + at.links[i].span;
          p := p + at.links[i].span;
          at := at.links[i].next;
          LinkAt(spine, level, p, i);
        }
        if i == 0 { FirstLink(spine, level, p); }
      }
    }

    /** The loops that list n elements from position p on. */
    method Collect(start: Node?, n: nat, withScores: bool, ghost p: nat) returns (result: Reply)
      requires Ordered() && 1 <= p <= p + n <= |spine| && start == if p < |spine| then spine[p] else null
      ensures result == Show(Entries()[p - 1..p - 1 + n], withScores)
    {
      hide Wired, Chained, EntriesOf, Show;
      result := if withScores then Pairs([]) else Keys([]);
      ShowEmpty(withScores);
      var node := start;
      ghost var es := Entries();
      assert es[p - 1..p - 1] == [];
      for i := 0 to n
        invariant node == if p + i < |spine| then spine[p + i] else null
        invariant result == Show(es[p - 1..p - 1 + i], withScores)
      {
        assert es[p - 1 + i] == node.Item();
        ShowPush(es[p - 1..p - 1 + i], withScores, es[p - 1 + i]);
        assert es[p - 1..p - 1 + i] + [es[p - 1 + i]] == es[p - 1..p - 1 + (i + 1)];
        result := result.Push(node.Item());
        FirstLink(spine, level, p + i);
        node := node.links[0].next;
      }
    }

    method ToArray(withScores: bool) returns (result: Reply)
      requires Ordered()
      ensures result == Show(Entries(), withScores)
    {
      hide Wired, Chained, EntriesOf, Show;
      ShowEmpty(withScores);
      assert Entries() == [] || Entries()[0..length] == Entries();
      if length == 0 {
        return if withScores then Pairs([]) else Keys([]);
      }
      FirstLink(spine, level, 0);
      result := Collect(head.links[0].next, length, withScores, 1);
    }

    method Range(start: Option<int>, stop: Option<int>, withScores: bool) returns (result: Reply)
      requires Ordered()
      ensures result == Show(Ranks(Entries(), start, stop, true, true, 0), withScores)
    {
      hide Wired, Chained, EntriesOf, Show, Ranks, Outside;
      ShowEmpty(withScores);
      ghost var es := Entries();
      RanksAreWindow(es, start, stop, true);
      if length == 0 {
        return if withScores then Pairs([]) else Keys([]);
      }
      var lo := if start.None? then 0 else if start.value < 0 then Max(length + start.value, 0) else start.value;
      var hi := if stop.None? then length - 1 else if stop.value < 0 then length + stop.value else stop.value;
      if lo > hi || lo >= length {
        return if withScores then Pairs([]) else Keys([]);
      }
      if hi >= length {
        hi := length - 1;
      }
      FirstLink(spine, level, 0);
      var node := head.links[0].next;
      if lo > 0 {
        node := Get(lo);
      }
      result := Collect(node, hi - lo + 1, withScores, lo + 1);
    }

    method RangeByScore(minimum: Option<Bound>, maximum: Option<Bound>, minExclusive: bool, maxExclusive: bool, withScores: bool)
      returns (result: Reply)
      requires Ordered()
      ensures result ==
        Show(Sift(Entries(), ScoreRange(LowEnd(minimum), HighEnd(maximum), minExclusive, maxExclusive), true), withScores)
    {
      hide Wired, Chained, EntriesOf, Show, Sift, ScorePosition, ScoreEnd, Sorted;
      ShowEmpty(withScores);
      ghost var es := Entries();
      if length == 0 {
        return if withScores then Pairs([]) else Keys([]);
      }
      var min, max := LowEnd(minimum), HighEnd(maximum);
      FirstLink(spine, level, 0);
      LastNode(spine, tail);
      if !minExclusive && !min.Above(head.links[0].next.value) && !maxExclusive && max.AtLeast(tail.value) {
        CountSpec(spine, min, max);
        result := ToArray(withScores);
        return;
      }
      ghost var range := ScoreRange(min, max, minExclusive, maxExclusive);
      if max.Less(min) || min.Above(tail.value) || !max.AtLeast(head.links[0].next.value) {
        CountSpec(spine, min, max);
        SiftNarrower(es, range);
        return if withScores then Pairs([]) else Keys([]);
      }
      var node := First(min);
      result := ListScores(node, range, min, max, minExclusive, maxExclusive, withScores);
    }

    /** The loop of the source's rangeByScore, from the first node scoring at least min. */
    method ListScores(start: Node?, ghost range: ScoreRange, min: Bound, max: Bound, minExclusive: bool, maxExclusive: bool, withScores: bool)
      returns (result: Reply)
      requires Ordered() && range == ScoreRange(min, max, minExclusive, maxExclusive)
      requires var k := ScorePosition(Entries(), min) + 1; start == if k < |spine| then spine[k] else null
      ensures result == Show(Sift(Entries(), range, true), withScores)
    {
      hide Wired, Chained, EntriesOf, Show, Sift, ScorePosition, Sorted;
      ghost var es := Entries();
      ghost var p := ScorePosition(es, min);
      ScorePositionSplits(es, min);
      SiftNone(es[..p], range, true);
      ShowEmpty(withScores);
      result := if withScores then Pairs([]) else Keys([]);
      var node := start;
      while node != null && max.AtLeast(node.value)
        invariant ScorePosition(es, min) <= p < |spine| && node == if p + 1 < |spine| then spine[p + 1] else null
        invariant result == Show(Sift(es[..p], range, true), withScores)
        decreases |spine| - p
      {
        var pushit := true;
        if minExclusive && min == Fin(node.value) {
          pushit := false;
        } else if maxExclusive && max == Fin(node.value) {
          pushit := false;
        }
        assert es[p] == node.Item() && es[..p] + [es[p]] == es[..p + 1];
        SiftAppend(es[..p], es[p], range, true);
        if pushit {
          ShowPush(Sift(es[..p], range, true), withScores, es[p]);
          result := result.Push(node.Item());
        } else {
          assert Sift(es[..p + 1], range, true) == Sift(es[..p], range, true);
        }
        FirstLink(spine, level, p + 1);
        node := node.links[0].next;
        p := p + 1;
      }
      TailOutOfRange(es, p, range);
    }

    // -------------------------------------------------------------- block removal

    /** The descent of the source's remRangeByScore: on every level, the last node scoring below min; and
        the node after them. */
    method DescendBelow(min: Bound) returns (update: seq<Node>, follow: Node?, ghost us: seq<nat>)
      requires Ordered()
      ensures |update| == |us| == MAX_LEVEL && us[0] == ScorePosition(Entries(), min)
      ensures Predecessors(spine, 0, level, us[0], update, us)
      ensures us[0] < |spine| && follow == if us[0] + 1 < |spine| then spine[us[0] + 1] else null
    {
      hide Wired, Chained, LinkOk, Predecessors, Sorted, EntriesOf, ScorePosition, ScoreEnd;
      ghost var r := ScorePosition(Entries(), min);
      ScoresSplitSpine(spine, min);
      WiredHead(spine, level);
      var node := head;
      update, us := seq(MAX_LEVEL, _ => node), seq(MAX_LEVEL, _ => 0);
      ghost var p: nat := 0;
      NoPredecessors(spine, level, r, update, us);
      for i := level downto 0
        invariant p <= r < |spine| && node == spine[p] && node.height >= i
        invariant |update| == |us| == MAX_LEVEL && Predecessors(spine, i, level, r, update, us) && (i < level ==> us[i] == p)
      {
        LinkAt(spine, level, p, i);
        var next := node.links[i].next;
        while next != null && min.Above(next.value)
          invariant p <= r < |spine| && node == spine[p] && node.height > i && i < |node.links| && next == node.links[i].next
          decreases |spine| - p
        {
          LinkAt(spine, level, p, i);
          p := p + node.links[i].span;
          node := next;
          LinkAt(spine, level, p, i);
          next := node.links[i].next;
        }
        LinkAt(spine, level, p, i);
        AddPredecessor(spine, i, level, p, node.links[i], r, update, us);
        update, us := update[i := node], us[i := p];
      }
      LowestPredecessor(spine, level, r, update, us);
      FirstLink(spine, level, r);
      follow := node.links[0].next;
    }

    /** The descent of the source's remRangeByRank: on every level, the last node before rank start; and
        the node after them. */
    method DescendToRank(start: nat) returns (update: seq<Node>, follow: Node?, traversed: int, ghost us: seq<nat>)
      requires Shape() && start < |spine|
      ensures |update| == |us| == MAX_LEVEL && us[0] == start && traversed == start - 1
      ensures Predecessors(spine, 0, level, us[0], update, us)
      ensures us[0] < |spine| && follow == if us[0] + 1 < |spine| then spine[us[0] + 1] else null
    {
      hide Wired, LinkOk, Predecessors;
      WiredHead(spine, level);
      var node := head;
      update, us, traversed := seq(MAX_LEVEL, _ => node), seq(MAX_LEVEL, _ => 0), -1;
      ghost var p: nat := 0;
      NoPredecessors(spine, level, start, update, us);
      for i := level downto 0
        invariant p <= start && node == spine[p] && node.height >= i && traversed == p - 1
        invariant |update| == |us| == MAX_LEVEL && Predecessors(spine, i, level, start, update, us) && (i < level ==> us[i] == p)
      {
        LinkAt(spine, level, p, i);
        var next := node.links[i].next;
        while next != null && traversed + node.links[i].span < start
          invariant p <= start && node == spine[p] && node.height > i && i < |node.links| && next == node.links[i].next
          invariant traversed == p - 1
          decreases |spine| - p
        {
          LinkAt(spine, level, p, i);
          traversed := traversed + node.links[i].span;
          p := p + node.links[i].span;
          node := next;
          LinkAt(spine, level, p, i);
          next := node.links[i].next;
        }
        LinkAt(spine, level, p, i);
        AddPredecessor(spine, i, level, p, node.links[i], start, update, us);
        update, us := update[i := node], us[i := p];
      }
      LowestPredecessor(spine, level, start, update, us);
      FirstLink(spine, level, start);
      follow := node.links[0].next;
    }

    /** Everything Valid says but the size, which a block removal corrects only at its end. */
    ghost predicate ValidButSize()
      reads `head, `tail, `level, `spine, `scores, `unique, spine`links, spine`prev
      ensures ValidButSize() ==> |spine| >= 1
    {
      Shape() && Sorted(Entries()) && Agrees(Entries(), scores) && (unique ==> DistinctScores(Entries()))
    }

    /** One round of a block removal: the element behind position r goes, and update still holds the
        predecessors of r. */
    method Expel(node: Node, update: seq<Node>, ghost r: nat, ghost us: seq<nat>) returns (next: Node?)
      requires ValidButSize() && r + 1 < |spine| && node == spine[r + 1]
      requires Predecessors(spine, 0, level, r, update, us)
      modifies `level, `tail, `scores, `spine, spine
      ensures ValidButSize() && spine == Cut(old(spine), r + 1) && Predecessors(spine, 0, level, r, update, us)
      ensures scores == old(scores) - {node.key} && Entries() == Cut(old(Entries()), r)
      ensures next == if r + 1 < |spine| then spine[r + 1] else null
      ensures next != null ==> Entries()[r] == next.Item()
      ensures forall i :: 0 <= i < |spine| ==> spine[i] in old(spine)
    {
      hide Wired, Chained, Predecessors, Sorted, Agrees, DistinctScores, EntriesOf, Cut;
      FirstLink(spine, level, r + 1);
      next := node.links[0].next;
      ghost var es := Entries();
      assert es[r] == node.Item();
      EntriesOfCut(spine, r + 1);
      SortedCut(es, r);
      AgreesCut(es, scores, r);
      if unique { DistinctCut(es, r); }
      CutKeepsPredecessors(spine, level, r, update, us);
      ghost var lv := level;
      RemoveNode(node, update, r + 1, us);
      FewerPredecessors(spine, lv, level, r, update, us);
      scores := scores - {node.key};
    }

    /** Ranks from start up to but not including end. */
    method RemRangeByRank(start: Option<int>, end: Option<int>) returns (count: int)
      requires Valid()
      modifies `length, `level, `tail, `head, `scores, `spine, spine
      ensures Valid() && Entries() == Ranks(old(Entries()), start, end, false, false, 0)
      ensures count == |Ranks(old(Entries()), start, end, false, true, 0)|
      ensures forall i :: 0 <= i < |spine| ==> spine[i] in old(spine) || fresh(spine[i])
    {
      hide Wired, Chained, Predecessors, Sorted, Agrees, DistinctScores, EntriesOf, Ranks, Outside;
      ghost var es := Entries();
      RanksAreWindow(es, start, end, false);
      OutsideNothing(es, 0, 0);
      OutsideAll(es);
      var len := length;
      if len == 0 {
        return 0;
      }
      var lo := if start.None? then 0 else if start.value < 0 then Max(len + start.value, 0) else start.value;
      var hi := if end.None? then len else if end.value < 0 then len + end.value else end.value;
      if lo > hi || lo >= len {
        return 0;
      }
      if hi > len {
        hi := len;
      }
      if lo == hi {
        OutsideNothing(es, lo, hi);
      }
      if lo == 0 && hi == len {
        Empty();
        return len;
      }
      count := RemoveRanks(lo, hi);
    }

    /** The source's remRangeByRank once its ends are normalised. */
    method RemoveRanks(lo: nat, hi: nat) returns (removed: int)
      requires Valid() && lo <= hi <= length && lo < length
      modifies `length, `level, `tail, `scores, `spine, spine
      ensures Valid() && Entries() == Outside(old(Entries()), lo, hi) && removed == hi - lo
      ensures forall i :: 0 <= i < |spine| ==> spine[i] in old(spine)
    {
      hide Wired, Chained, Sorted, Agrees, DistinctScores, EntriesOf, Predecessors;
      var update, node, traversed;
      ghost var us;
      update, node, traversed, us := DescendToRank(lo);
      removed := ExpelRanks(node, traversed + 1, hi, update, lo, us);
      length := length - removed;
    }

    /** Its loop: elements go from behind position lo until hi have been passed. */
    method ExpelRanks(start: Node?, reached: int, hi: int, update: seq<Node>, ghost lo: nat, ghost us: seq<nat>) returns (removed: int)
      requires ValidButSize() && lo < |spine| && reached == lo <= hi < |spine| && Predecessors(spine, 0, level, lo, update, us)
      requires start == if lo + 1 < |spine| then spine[lo + 1] else null
      modifies `level, `tail, `scores, `spine, spine
      ensures ValidButSize() && |spine| == |old(spine)| - removed
      ensures Entries() == Outside(old(Entries()), lo, hi) && removed == hi - lo
      ensures forall i :: 0 <= i < |spine| ==> spine[i] in old(spine)
    {
      hide ValidButSize, EntriesOf, Cut, Predecessors, Outside;
      ghost var es := Entries();
      OutsideNothing(es, lo, lo);
      var node, traversed := start, reached;
      removed := 0;
      while node != null && traversed < hi
        invariant 0 <= removed <= hi - lo && traversed == lo + removed && lo < |spine| == |es| + 1 - removed
        invariant ValidButSize() && Predecessors(spine, 0, level, lo, update, us)
        invariant Entries() == Outside(es, lo, lo + removed)
        invariant node == if lo + 1 < |spine| then spine[lo + 1] else null
        invariant forall i :: 0 <= i < |spine| ==> spine[i] in old(spine)
        decreases hi - traversed
      {
        CutBlock(es, lo, lo + removed);
        if lo + removed + 1 < |es| { CutBlock(es, lo, lo + removed + 1); }
        var next := Expel(node, update, lo, us);
        removed := removed + 1;
        traversed := traversed + 1;
        node := next;
      }
    }

    method RemRangeByScore(minimum: Option<Bound>, maximum: Option<Bound>) returns (removed: int)
      requires Valid()
      modifies `length, `level, `tail, `head, `scores, `spine, spine
      ensures Valid() && Entries() == Sift(old(Entries()), Inclusive(LowEnd(minimum), HighEnd(maximum)), false)
      ensures removed == |Sift(old(Entries()), Inclusive(LowEnd(minimum), HighEnd(maximum)), true)|
      ensures forall i :: 0 <= i < |spine| ==> spine[i] in old(spine) || fresh(spine[i])
    {
      hide Wired, Chained, Predecessors, Sorted, Agrees, DistinctScores, EntriesOf, Sift, ScorePosition, ScoreEnd;
      if length == 0 {
        return 0;
      }
      var min, max := LowEnd(minimum), HighEnd(maximum);
      FirstLink(spine, level, 0);
      LastNode(spine, tail);
      SiftIsSlice(Entries(), min, max);
      CountSpec(spine, min, max);
      if !min.Above(head.links[0].next.value) && max.AtLeast(tail.value) {
        removed := length;
        Empty();
        return;
      }
      removed := RemoveScores(min, max);
    }

    /** The source's remRangeByScore when part of the set stays. */
    method RemoveScores(min: Bound, max: Bound) returns (removed: int)
      requires Valid()
      modifies `length, `level, `tail, `scores, `spine, spine
      ensures Valid()
      ensures var lo, hi := ScorePosition(old(Entries()), min), ScoreEnd(old(Entries()), max);
        && Entries() == Outside(old(Entries()), lo, hi)
        && removed == if lo <= hi then hi - lo else 0
      ensures forall i :: 0 <= i < |spine| ==> spine[i] in old(spine)
    {
      hide Wired, Chained, Sorted, Agrees, DistinctScores, EntriesOf, Predecessors, ScorePosition, ScoreEnd, Outside;
      var update, node;
      ghost var us;
      update, node, us := DescendBelow(min);
      removed := ExpelScores(node, max, update, us[0], us);
      length := length - removed;
    }

    /** Its loop: elements go from behind position lo while their scores are at most max. */
    method ExpelScores(start: Node?, max: Bound, update: seq<Node>, ghost lo: nat, ghost us: seq<nat>) returns (removed: int)
      requires ValidButSize() && lo < |spine| && Predecessors(spine, 0, level, lo, update, us) && Sorted(Entries())
      requires start == if lo + 1 < |spine| then spine[lo + 1] else null
      modifies `level, `tail, `scores, `spine, spine
      ensures ValidButSize() && |spine| == |old(spine)| - removed
      ensures var hi := ScoreEnd(old(Entries()), max);
        && Entries() == Outside(old(Entries()), lo, hi)
        && removed == if lo <= hi then hi - lo else 0
      ensures forall i :: 0 <= i < |spine| ==> spine[i] in old(spine)
    {
      hide ValidButSize, EntriesOf, Cut, Predecessors, ScoreEnd, Outside, Sorted;
      ghost var es := Entries();
      ghost var hi := ScoreEnd(es, max);
      ScoreEndSplits(es, max);
      OutsideNothing(es, lo, lo);
      if hi < lo { OutsideNothing(es, lo, hi); }
      var node := start;
      removed := 0;
      assert node != null ==> es[lo] == node.Item();
      while node != null && max.AtLeast(node.value)
        invariant 0 <= removed && (removed > 0 ==> lo + removed <= hi) && lo < |spine| == |es| + 1 - removed
        invariant ValidButSize() && Predecessors(spine, 0, level, lo, update, us)
        invariant Entries() == Outside(es, lo, lo + removed)
        invariant node == if lo + 1 < |spine| then spine[lo + 1] else null
        invariant node != null ==> lo + removed < |es| && node.Item() == es[lo + removed]
        invariant forall i :: 0 <= i < |spine| ==> spine[i] in old(spine)
        decreases |spine|
      {
        CutBlock(es, lo, lo + removed);
        if lo + removed + 1 < |es| { CutBlock(es, lo, lo + removed + 1); }
        var next := Expel(node, update, lo, us);
        removed := removed + 1;
        node := next;
      }
    }

    // -------------------------------------------------------------- increments and merging

    /** The key's score, 0 when it has none, plus the increment; a score of 0 counts as none, which
        changes nothing. r passes on what add came back with. */
    method IncrBy(increment: real, key: Key) returns (sum: real, r: AddResult)
      requires Valid()
      modifies `length, `level, `tail, `scores, `spine, spine
      ensures forall i :: 0 <= i < |spine| ==> spine[i] in old(spine) || fresh(spine[i])
      ensures sum == (if key in old(scores) then old(scores)[key] else 0.0) + increment
      ensures Offered(key, sum, r)
    {
      hide Valid, Ordered, Offered;
      var score := Score(key);
      if score.Some? && score.value != 0.0 {
        r := Add(key, Some(score.value + increment));
        return score.value + increment, r;
      }
      r := Add(key, Some(increment));
      return increment, r;
    }

    method Card() returns (n: int)
      requires Ordered()
      ensures n == |Entries()|
    {
      hide Wired, Chained, Sorted;
      if length != 0 {
        return length;
      }
      return 0;
    }

    method KeyList() returns (keys: seq<Key>)
      requires Ordered()
      ensures keys == KeysOf(Entries())
    {
      hide Ordered;
      var listing := ToArray(false);
      keys := listing.keys;
    }

    lemma Describes()
      requires Valid()
      ensures Ordered() && Bindings(Entries()) == scores
      ensures forall n {:trigger Entries()[n]} :: 0 <= n < |Entries()| ==> Entries()[n].key in scores && scores[Entries()[n].key] == Entries()[n].score
    {
      hide Shape, EntriesOf;
      BindingsAgree(Entries(), scores);
    }

    /** Two sets that share nothing. */
    ghost predicate Apart(other: SortedSet)
      reads `spine, other`spine
    {
      other != this && forall i, j :: 0 <= i < |spine| && 0 <= j < |other.spine| ==> spine[i] != other.spine[j]
    }

    /** One round of addAll. */
    method AddFrom(other: SortedSet, key: Key) returns (r: AddResult)
      requires Valid() && other.Valid() && (other == this || Apart(other)) && key in other.scores
      requires unique ==> Foreseen(scores, key, other.scores[key])
      modifies `length, `level, `tail, `scores, `spine, spine
      ensures Valid() && (scores, r) == Offer(unique, old(scores), key, old(other.scores)[key])
      ensures other != this ==> other.Valid() && Apart(other) && unchanged(other)
      ensures forall i :: 0 <= i < |spine| ==> spine[i] in old(spine) || fresh(spine[i])
    {
      hide Valid, Put, Without, Others, Refuses, Taken, NoneNegative, AllNegative, HeadBlocks, FateOf;
      var value := other.Score(key);
      if Score(key) != value { OfferIs(this, key, value.value); }
      r := Add(key, value);
    }

    /** The other set's entries are offered one after the other, up to the first refusal. A set not in
        unique mode takes them all over; a set merged with itself stays as it is. */
    method AddAll(other: SortedSet) returns (ok: bool)
      requires Valid() && other.Valid() && (other == this || Apart(other))
      requires unique ==> MergeForeseen(scores, other.Entries())
      modifies `length, `level, `tail, `scores, `spine, spine
      ensures Valid() && (scores, !ok) == Merged(unique, old(scores), old(other.Entries()))
      ensures !unique ==> ok && scores == old(scores) + old(other.scores)
      ensures other == this ==> ok && scores == old(scores)
      ensures other != this ==> other.Valid() && Apart(other) && unchanged(other)
      ensures forall i :: 0 <= i < |spine| ==> spine[i] in old(spine) || fresh(spine[i])
    {
      hide Valid, EntriesOf, Bindings, Apart, Merged, MergeForeseen;
      other.Describes();
      MergedOverride(scores, other.Entries());
      if other == this { MergedSelf(unique, scores, other.Entries()); }
      var keys := other.KeyList();
      ok := AddEach(other, keys, other.Entries());
    }

    /** The loop of addAll over the other set's keys. */
    method AddEach(other: SortedSet, keys: seq<Key>, ghost es: seq<Entry>) returns (ok: bool)
      requires Valid() && other.Valid() && (other == this || Apart(other)) && keys == KeysOf(es)
      requires forall n {:trigger es[n]} :: 0 <= n < |es| ==> ScoreIn(other.scores, es[n].key) == Some(es[n].score)
      requires unique ==> MergeForeseen(scores, es)
      modifies `length, `level, `tail, `scores, `spine, spine
      ensures Valid() && (scores, !ok) == Merged(unique, old(scores), es)
      ensures other != this ==> other.Valid() && Apart(other) && unchanged(other)
      ensures forall i :: 0 <= i < |spine| ==> spine[i] in old(spine) || fresh(spine[i])
    {
      hide Valid, EntriesOf, Apart, Offer, Foreseen, Merged, MergeForeseen;
      ghost var m := scores;
      MergedNothing(unique, m, es);
      for n := 0 to |keys|
        invariant Valid() && (scores, false) == Merged(unique, m, es[..n]) && (other == this ==> scores == m)
        invariant other != this ==> other.Valid() && Apart(other) && unchanged(other)
        invariant forall i :: 0 <= i < |spine| ==> spine[i] in old(spine) || fresh(spine[i])
      {
        MergedNext(unique, m, es, n);
        if unique { ForeseenAt(m, es, n); }
        if other == this { MergedSelf(unique, m, es[..n + 1]); }
        var r := AddFrom(other, keys[n]);
        if r == Violation {
          MergedStops(unique, m, es, n + 1);
          return false;
        }
      }
      assert es[..|keys|] == es;
      return true;
    }
  }

  // ---------------------------------------------------------------- merging

  lemma MergedNothing(unique: bool, m: map<Key, real>, es: seq<Entry>)
    ensures Merged(unique, m, es[..0]) == (m, false)
  {
  }

  lemma MergedNext(unique: bool, m: map<Key, real>, es: seq<Entry>, n: nat)
    requires n < |es| && !Merged(unique, m, es[..n]).1
    ensures var (m', r) := Offer(unique, Merged(unique, m, es[..n]).0, es[n].key, es[n].score);
      Merged(unique, m, es[..n + 1]) == (m', r == Violation)
  {
    hide Offer;
    assert es[..n + 1][..n] == es[..n];
  }

  lemma {:induction false} MergedStops(unique: bool, m: map<Key, real>, es: seq<Entry>, n: nat)
    requires n <= |es| && Merged(unique, m, es[..n]).1
    ensures Merged(unique, m, es) == Merged(unique, m, es[..n])
  {
    hide Offer;
    if n == |es| {
      assert es[..n] == es;
    } else {
      assert es[..|es| - 1][..n] == es[..n];
      MergedStops(unique, m, es[..|es| - 1], n);
    }
  }

  lemma ForeseenAt(m: map<Key, real>, es: seq<Entry>, n: nat)
    requires MergeForeseen(m, es) && n < |es| && !Merged(true, m, es[..n]).1
    ensures Foreseen(Merged(true, m, es[..n]).0, es[n].key, es[n].score)
  {
  }

  /** Outside unique mode a merge is map override. */
  lemma {:induction false} MergedOverride(m: map<Key, real>, es: seq<Entry>)
    ensures Merged(false, m, es) == (m + Bindings(es), false)
  {
    if |es| > 0 {
      var n := |es| - 1;
      MergedOverride(m, es[..n]);
      var front := m + Bindings(es[..n]);
      assert m + Bindings(es) == front[es[n].key := es[n].score];
      assert ScoreIn(front, es[n].key) == Some(es[n].score) ==> front[es[n].key := es[n].score] == front;
    } else {
      assert m + map[] == m;
    }
  }

  lemma {:induction false} MergedSelf(unique: bool, m: map<Key, real>, es: seq<Entry>)
    requires forall e :: e in es ==> ScoreIn(m, e.key) == Some(e.score)
    ensures Merged(unique, m, es) == (m, false)
  {
    if |es| > 0 {
      assert es[|es| - 1] in es;
      MergedSelf(unique, m, es[..|es| - 1]);
    }
  }

  // ---------------------------------------------------------------- unique mode

  /** The others' chain lists the set without the key. */
  lemma OthersList(s: SortedSet, key: Key)
    requires s.Valid()
    ensures |s.Others(key)| >= 1 && EntriesOf(s.Others(key)) == Without(s.Entries(), key)
    ensures Sorted(Without(s.Entries(), key)) && Agrees(Without(s.Entries(), key), s.scores - {key})
  {
    hide SortedSet.Shape, EntriesOf, Cut, Sorted, DistinctScores, Position, Agrees;
    var es := s.Entries();
    RemSpec(es, s.scores, key);
    if key in s.scores { EntriesOfCut(s.spine, Position(es, Entry(key, s.scores[key])) + 1); }
  }

  /** The chain refuses a score that another key has, and 0 when its heights make the head stand for it. */
  lemma OthersRefuse(s: SortedSet, key: Key, value: real)
    requires s.Valid()
    ensures Refuses(s.Others(key), value) <==> Taken(s.scores, key, value) || (value == 0.0 && HeadBlocks(s.Others(key)))
  {
    hide SortedSet.Valid, SortedSet.Others, EntriesOf, Sorted, Without, HeadBlocks;
    OthersList(s, key);
    var others := s.Others(key);
    var w := EntriesOf(others);
    if x :| 1 <= x < |others| && others[x].value == value {
      assert w[x - 1] == others[x].Item() && w[x - 1] in w;
    }
    if Taken(s.scores, key, value) {
      var k :| k in s.scores && k != key && s.scores[k] == value;
      assert k in s.scores - {key};
      var j :| 0 <= j < |w| && w[j] == Entry(k, value);
      assert others[j + 1].value == value;
    }
  }

  lemma ScoresOnce(s: SortedSet, key: Key)
    requires s.Valid() && s.unique && key in s.scores
    ensures !Taken(s.scores, key, s.scores[key])
  {
  }

  lemma NotLost(s: SortedSet, key: Key, value: real)
    requires s.Valid() && s.Score(key) == Some(value)
    ensures !s.Loses(key, value)
  {
    hide SortedSet.Valid, SortedSet.Others, Taken, HeadBlocks;
    if s.unique { ScoresOnce(s, key); }
  }

  /** Unique mode is meant to refuse a score exactly when another key has it, and to store it otherwise.
      It does so if and only if it does not look for 0 in a chain in which the head stands for 0. If it
      does, the score is refused although nobody has it, or the key is lost. */
  lemma FateIs(s: SortedSet, key: Key, value: real)
    requires s.Valid() && s.Score(key) != Some(value)
    ensures var fate := FateOf(s.unique, s.Others(key), s.Score(key), value);
      var taken := Taken(s.scores, key, value);
      var met := s.unique && SeeksZero(s.scores, key, value) && HeadBlocks(s.Others(key));
      && (fate == (if s.unique && taken then Refused else Stored) <==> !met)
      && (met ==> fate == if taken then Lost else Refused)
      && (fate == Lost <==> s.Loses(key, value))
  {
    hide SortedSet.Valid, SortedSet.Others, Refuses, Taken, HeadBlocks;
    if s.unique {
      OthersRefuse(s, key, value);
      if key in s.scores {
        OthersRefuse(s, key, s.scores[key]);
        ScoresOnce(s, key);
      }
    }
  }

  /** Where the other keys' scores have one sign, it decides whether the head stands for 0. */
  lemma SignsDecide(s: SortedSet, key: Key)
    requires s.Valid()
    ensures NoneNegative(s.scores, key) ==> HeadBlocks(s.Others(key))
    ensures AllNegative(s.scores, key) ==> !HeadBlocks(s.Others(key))
  {
    hide SortedSet.Valid, SortedSet.Others, EntriesOf, Sorted, Without, HeadBlocks;
    OthersList(s, key);
    var others := s.Others(key);
    var w := EntriesOf(others);
    forall x | 1 <= x < |others|
      ensures others[x].key in s.scores && others[x].key != key && s.scores[others[x].key] == others[x].value
    {
      assert w[x - 1] == others[x].Item() && w[x - 1] in w;
    }
    if k :| k in s.scores && k != key {
      assert k in s.scores - {key};
      assert Entry(k, s.scores[k]) in w;
    }
    OneSign(others);
  }

  /** Where it is foreseen, add does what the map says. */
  lemma OfferIs(s: SortedSet, key: Key, value: real)
    requires s.Valid() && s.Score(key) != Some(value) && (s.unique ==> Foreseen(s.scores, key, value))
    ensures FateOf(s.unique, s.Others(key), s.Score(key), value) ==
            if s.unique && (Taken(s.scores, key, value) || (value == 0.0 && NoneNegative(s.scores, key))) then Refused else Stored
  {
    hide SortedSet.Valid, SortedSet.Others, Refuses, Taken, HeadBlocks, NoneNegative, AllNegative, FateOf;
    FateIs(s, key, value);
    SignsDecide(s, key);
  }

  lemma ShowEmpty(withScores: bool)
    ensures Show([], withScores) == if withScores then Pairs([]) else Keys([])
  {
  }

  /** Exclusive ends only narrow a range. */
  lemma SiftNarrower(es: seq<Entry>, range: ScoreRange)
    requires |Sift(es, Inclusive(range.min, range.max), true)| == 0
    ensures Sift(es, range, true) == []
  {
  }

  /** Once an entry lies above the maximum, the rest adds nothing. */
  lemma TailOutOfRange(es: seq<Entry>, p: nat, range: ScoreRange)
    requires Sorted(es) && p <= |es| && (p < |es| ==> !range.max.AtLeast(es[p].score))
    ensures Sift(es, range, true) == Sift(es[..p], range, true)
  {
    hide Sift;
    assert es == es[..p] + es[p..];
    SiftConcat(es[..p], es[p..], range, true);
    forall k | 0 <= k < |es[p..]| ensures !range.Has(es[p..][k].score) {
      assert k > 0 ==> Before(es[p], es[p + k]);
    }
    SiftNone(es[p..], range, true);
  }

  function LowEnd(min: Option<Bound>): Bound { if min.None? then NegInf else min.value }

  function HighEnd(max: Option<Bound>): Bound { if max.None? then PosInf else max.value }

  lemma LastNode(spine: seq<Node>, tail: Node?)
    requires |spine| > 1 && Chained(spine, tail)
    ensures tail == spine[|spine| - 1]
  {
  }

  /** The size of an inclusive range, from its two ends; the two shortcuts of count and its kin. */
  lemma CountSpec(spine: seq<Node>, min: Bound, max: Bound)
    requires |spine| > 1 && Sorted(EntriesOf(spine))
    ensures var es := EntriesOf(spine); var lo, hi := ScorePosition(es, min), ScoreEnd(es, max);
      var first, last, n := spine[1].value, spine[|spine| - 1].value, |Sift(es, Inclusive(min, max), true)|;
      && n == (if lo <= hi then hi - lo else 0)
      && (!min.Above(first) && max.AtLeast(last) ==> Sift(es, Inclusive(min, max), true) == es)
      && (max.Less(min) || min.Above(last) || !max.AtLeast(first) ==> n == 0)
      && (n == |es| ==> !min.Above(first) && max.AtLeast(last))
  {
    hide EntriesOf, ScorePosition, ScoreEnd, Sift, Sorted;
    var es := EntriesOf(spine);
    var lo, hi := ScorePosition(es, min), ScoreEnd(es, max);
    assert es[0] == spine[1].Item() && es[|es| - 1] == spine[|spine| - 1].Item();
    SiftIsSlice(es, min, max);
    assert es[0..|es|] == es;
    ScorePositionSplits(es, min);
    ScoreEndSplits(es, max);
    if lo < hi {
      assert !min.Above(es[lo].score) && max.AtLeast(es[lo].score);
    }
  }

  /** What giving a key another score means for the listing and the map. */
  lemma PutSpec(es: seq<Entry>, m: map<Key, real>, key: Key, v: real, current: Option<real>)
    requires Sorted(es) && Agrees(es, m) && current == if key in m then Some(m[key]) else None
    ensures Sorted(Put(es, key, v)) && Agrees(Put(es, key, v), m[key := v])
    ensures DistinctScores(es) && (forall e :: e in Without(es, key) ==> e.score != v) ==> DistinctScores(Put(es, key, v))
    ensures var w := Without(es, key); Put(es, key, v) == Splice(w, Position(w, Entry(key, v)), Entry(key, v))
    ensures current.Some? ==>
      var w, e := Without(es, key), Entry(key, current.value); es == Splice(w, Position(w, e), e)
    ensures current.None? ==> Without(es, key) == es
  {
    hide Before, Sorted, Splice, DistinctScores;
    PutListsUpdate(es, m, key, v);
    RemSpec(es, m, key);
    if DistinctScores(es) && (forall e :: e in Without(es, key) ==> e.score != v) {
      DistinctSplice(Without(es, key), Position(Without(es, key), Entry(key, v)), Entry(key, v));
    }
    if current.Some? {
      PutListsUpdate(es, m, key, current.value);
      assert m[key := current.value] == m;
      SortedListingUnique(Put(es, key, current.value), es);
    }
  }

  lemma DistinctSplice(w: seq<Entry>, k: nat, e: Entry)
    requires DistinctScores(w) && k <= |w| && forall x :: x in w ==> x.score != e.score
    ensures DistinctScores(Splice(w, k, e))
  {
  }

  lemma RemSpec(es: seq<Entry>, m: map<Key, real>, key: Key)
    requires Sorted(es) && Agrees(es, m)
    ensures Sorted(Without(es, key)) && Agrees(Without(es, key), m - {key})
    ensures DistinctScores(es) ==> DistinctScores(Without(es, key))
    ensures key !in m ==> Without(es, key) == es && m - {key} == m
    ensures key in m ==>
      var e := Entry(key, m[key]);
      e in es && Position(es, e) < |es| && Without(es, key) == Cut(es, Position(es, e))
  {
    hide Before, Sorted, Agrees, Cut, DistinctScores;
    WithoutKey(es, m, key);
    WithoutSorted(es, key);
    WithoutAgrees(es, m, key);
    if key !in m {
      assert m - {key} == m;
    } else if DistinctScores(es) {
      DistinctCut(es, Position(es, Entry(key, m[key])));
    }
  }
}
