/**
  Nodes of the skip list, what it means for one forward link to be right, and how the links are
  rewritten when a node leaves or joins.

  A spine is the level-0 chain with the head in front, so the head has position 0 and the k-th
  element (counting from 0) has position k + 1. Keys, values and heights never change, so what is
  said here about a spine and a link value does not depend on the heap.
 */
module SkipLinks {
  import opened Keys
  import opened Entries

  /** The number of forward slots of the head. */
  const MAX_LEVEL: nat := 32

  /** The source's Level: where a link leads, and how many positions it skips. */
  datatype Link = Link(next: Node?, span: int)

  class Node {
    const key: Key
    const value: real
    const height: nat
    var links: seq<Link>
    var prev: Node?

    constructor (height: nat, key: Key, value: real)
      ensures this.height == height && this.key == key && this.value == value
      ensures links == seq(height, _ => Link(null, 0)) && prev == null
    {
      this.height, this.key, this.value := height, key, value;
      links := seq(height, _ => Link(null, 0));
      prev := null;
    }

    function Item(): Entry {
      Entry(key, value)
    }
  }

  function EntriesOf(spine: seq<Node>): (es: seq<Entry>)
    requires |spine| >= 1
    ensures |es| == |spine| - 1
    ensures forall k {:trigger es[k]} :: 0 <= k < |es| ==> es[k] == spine[k + 1].Item()
  {
    seq(|spine| - 1, k requires 0 <= k < |spine| - 1 => spine[k + 1].Item())
  }

  /** The elements at positions 1..r, and only they, come before e. */
  ghost predicate Splits(spine: seq<Node>, e: Entry, r: nat) {
    r < |spine| && forall p {:trigger spine[p]} :: 1 <= p < |spine| ==> (Before(spine[p].Item(), e) <==> p <= r)
  }

  /** The elements at positions 1..r, and only they, score below b. */
  ghost predicate SplitsBelow(spine: seq<Node>, b: Bound, r: nat) {
    r < |spine| && forall p {:trigger spine[p]} :: 1 <= p < |spine| ==> (b.Above(spine[p].value) <==> p <= r)
  }

  /** The elements at positions 1..r, and only they, score at most b. */
  ghost predicate SplitsUpTo(spine: seq<Node>, b: Bound, r: nat) {
    r < |spine| && forall p {:trigger spine[p]} :: 1 <= p < |spine| ==> (b.AtLeast(spine[p].value) <==> p <= r)
  }

  lemma ScoresSplitSpine(spine: seq<Node>, b: Bound)
    requires |spine| >= 1 && Sorted(EntriesOf(spine))
    ensures SplitsBelow(spine, b, ScorePosition(EntriesOf(spine), b))
    ensures SplitsUpTo(spine, b, ScoreEnd(EntriesOf(spine), b))
  {
    hide Sorted, ScorePosition, ScoreEnd, EntriesOf;
    var es := EntriesOf(spine);
    ScorePositionSplits(es, b);
    ScoreEndSplits(es, b);
    forall p | 1 <= p < |spine|
      ensures b.Above(spine[p].value) <==> p <= ScorePosition(es, b)
      ensures b.AtLeast(spine[p].value) <==> p <= ScoreEnd(es, b)
    {
      assert es[p - 1] == spine[p].Item();
    }
  }

  lemma PositionSplitsSpine(spine: seq<Node>, e: Entry)
    requires |spine| >= 1 && Sorted(EntriesOf(spine))
    ensures Splits(spine, e, Position(EntriesOf(spine), e))
  {
    hide Before;
    var es := EntriesOf(spine);
    PositionSplits(es, e);
    forall p | 1 <= p < |spine| ensures Before(spine[p].Item(), e) <==> p <= Position(es, e) {
      assert es[p - 1] == spine[p].Item();
    }
  }

  lemma EntriesOfCut(spine: seq<Node>, k: nat)
    requires 1 <= k < |spine|
    ensures EntriesOf(Cut(spine, k)) == Cut(EntriesOf(spine), k - 1)
  {
  }

  lemma EntriesOfSplice(spine: seq<Node>, k: nat, node: Node)
    requires 1 <= k <= |spine|
    ensures EntriesOf(Splice(spine, k, node)) == Splice(EntriesOf(spine), k - 1, node.Item())
  {
  }

  lemma ScoresRise(spine: seq<Node>, p: nat, q: nat)
    requires |spine| >= 1 && Sorted(EntriesOf(spine)) && 1 <= p <= q < |spine|
    ensures spine[p].value <= spine[q].value
  {
    var es := EntriesOf(spine);
    assert es[p - 1] == spine[p].Item() && es[q - 1] == spine[q].Item();
  }

  // ---------------------------------------------------------------- one link

  /** No node strictly between positions p and q reaches level i. */
  ghost predicate Gap(spine: seq<Node>, i: nat, p: int, q: int)
    requires 0 <= p && q <= |spine|
  {
    forall x :: p < x < q ==> spine[x].height <= i
  }

  /** l is the right level-i link for the node at position p: it leads to the next node that reaches
      level i, and its span is the distance to it, or to the last node when there is none. */
  ghost predicate LinkOk(spine: seq<Node>, i: nat, p: nat, l: Link)
    requires p < |spine|
  {
    var q := p + l.span;
    if l.next == null then
      q == |spine| - 1 && Gap(spine, i, p, |spine|)
    else
      p < q < |spine| && l.next == spine[q] && spine[q].height > i && Gap(spine, i, p, q)
  }

  /** us[i] is the last position up to r whose node reaches level i, and update[i] is that node. */
  ghost predicate Predecessors(spine: seq<Node>, lo: nat, hi: nat, r: nat, update: seq<Node>, us: seq<nat>)
    requires r < |spine|
  {
    && hi <= |update| && hi <= |us|
    && forall i :: lo <= i < hi ==>
         us[i] <= r && update[i] == spine[us[i]] && spine[us[i]].height > i && Gap(spine, i, us[i], r + 1)
  }

  lemma NoPredecessors(spine: seq<Node>, hi: nat, r: nat, update: seq<Node>, us: seq<nat>)
    requires r < |spine| && hi <= |update| && hi <= |us|
    ensures Predecessors(spine, hi, hi, r, update, us)
  {
  }

  /** Recording such a stop as the level's predecessor. */
  lemma AddPredecessor(spine: seq<Node>, i: nat, hi: nat, p: nat, l: Link, r: nat, update: seq<Node>, us: seq<nat>)
    requires p <= r < |spine| && LinkOk(spine, i, p, l) && (l.next == null || r < p + l.span)
    requires spine[p].height > i && i < hi <= |update| == |us| && Predecessors(spine, i + 1, hi, r, update, us)
    ensures Predecessors(spine, i, hi, r, update[i := spine[p]], us[i := p])
  {
  }

  lemma PredecessorAt(spine: seq<Node>, lo: nat, hi: nat, r: nat, update: seq<Node>, us: seq<nat>, i: nat)
    requires r < |spine| && lo <= i < hi && Predecessors(spine, lo, hi, r, update, us)
    ensures i < |us| && i < |update| && us[i] <= r && update[i] == spine[us[i]] && spine[us[i]].height > i
  {
  }

  lemma FewerPredecessors(spine: seq<Node>, hi: nat, hi': nat, r: nat, update: seq<Node>, us: seq<nat>)
    requires r < |spine| && hi' <= hi && Predecessors(spine, 0, hi, r, update, us)
    ensures Predecessors(spine, 0, hi', r, update, us)
  {
  }

  /** Level 0 stops at r itself. */
  lemma LowestPredecessor(spine: seq<Node>, hi: nat, r: nat, update: seq<Node>, us: seq<nat>)
    requires r < |spine| && 0 < hi && Predecessors(spine, 0, hi, r, update, us)
    requires forall x :: 0 <= x < |spine| ==> spine[x].height >= 1
    ensures us[0] == r
  {
    assert Gap(spine, 0, us[0], r + 1) && spine[r].height > 0;
  }

  // ---------------------------------------------------------------- unique mode

  ghost predicate Tallest(spine: seq<Node>, x: nat)
    requires x < |spine|
  {
    forall y {:trigger spine[y]} :: 1 <= y < |spine| ==> spine[y].height <= spine[x].height
  }

  /** No node of the topmost level scores below 0, so a walk towards 0 leaves that level at the head. */
  ghost predicate HeadBlocks(spine: seq<Node>) {
    forall x {:trigger Tallest(spine, x)} :: 1 <= x < |spine| && Tallest(spine, x) ==> spine[x].value >= 0.0
  }

  lemma {:induction false} TallestExists(spine: seq<Node>) returns (x: nat)
    requires |spine| > 1
    ensures 1 <= x < |spine| && Tallest(spine, x)
  {
    if |spine| == 2 {
      x := 1;
    } else {
      var n := |spine| - 1;
      x := TallestExists(spine[..n]);
      assert forall y {:trigger spine[y]} :: 1 <= y < n ==> spine[..n][y].height <= spine[x].height;
      x := if spine[n].height > spine[x].height then n else x;
    }
  }

  /** When all scores have one sign, heights do not matter. */
  lemma OneSign(spine: seq<Node>)
    ensures (forall x :: 1 <= x < |spine| ==> spine[x].value >= 0.0) ==> HeadBlocks(spine)
    ensures |spine| > 1 && (forall x :: 1 <= x < |spine| ==> spine[x].value < 0.0) ==> !HeadBlocks(spine)
  {
    if |spine| > 1 {
      var x := TallestExists(spine);
    }
  }

  /** What makes the source's _insert refuse a score in unique mode: a node that has it, or, because
      the head carries value 0, score 0 when the topmost level has no node scoring below 0. */
  ghost predicate Refuses(spine: seq<Node>, value: real) {
    || (exists x {:trigger spine[x]} :: 1 <= x < |spine| && spine[x].value == value)
    || (value == 0.0 && HeadBlocks(spine))
  }

  lemma NotTaken(spine: seq<Node>, value: real)
    requires |spine| >= 1 && !Refuses(spine, value)
    ensures forall e :: e in EntriesOf(spine) ==> e.score != value
  {
  }

  /** Past a stop at p on level i, every node of that level scores above value. */
  ghost predicate ClearAfter(spine: seq<Node>, i: nat, p: nat, value: real) {
    forall x {:trigger spine[x]} :: p < x < |spine| && spine[x].height > i ==> spine[x].value > value
  }

  lemma StopIsClear(spine: seq<Node>, i: nat, p: nat, l: Link, value: real)
    requires p < |spine| && Sorted(EntriesOf(spine)) && LinkOk(spine, i, p, l)
    requires l.next == null || l.next.value > value
    ensures ClearAfter(spine, i, p, value)
  {
    forall x | p < x < |spine| && spine[x].height > i ensures spine[x].value > value {
      if l.next != null {
        ScoresRise(spine, p + l.span, x);
      }
    }
  }

  /** The topmost level is lv: some position t reaches it, unless it is the lowest. */
  ghost predicate TopAt(spine: seq<Node>, lv: nat, t: nat) {
    lv == 1 || (1 <= t < |spine| && spine[t].height >= lv)
  }

  /** A walk that never left the head refuses 0. */
  lemma HeadRefuses(spine: seq<Node>, lv: nat, i: nat, t: nat, value: real)
    requires i < lv && ClearAfter(spine, i, 0, value) && value == 0.0 && TopAt(spine, lv, t)
    requires forall x :: 1 <= x < |spine| ==> spine[x].height >= 1
    ensures Refuses(spine, value)
  {
  }

  /** A unique insertion that went through met no refusal: r is where it stopped, top the stop of the
      topmost level. */
  lemma NotRefused(spine: seq<Node>, lv: nat, value: real, r: nat, top: nat)
    requires top <= r < |spine| && Sorted(EntriesOf(spine))
    requires r > 0 ==> spine[r].value < value
    requires forall x :: 1 <= x < |spine| ==> 1 <= spine[x].height <= lv
    requires ClearAfter(spine, 0, r, value)
    requires value == 0.0 ==> top > 0 && spine[top].height >= lv
    ensures !Refuses(spine, value)
  {
    forall x | 1 <= x < |spine| ensures spine[x].value != value {
      if x <= r { ScoresRise(spine, x, r); }
    }
    if value == 0.0 {
      ScoresRise(spine, top, r);
      assert Tallest(spine, top);
    }
  }

  // ---------------------------------------------------------------- all links

  ghost predicate Distinct(spine: seq<Node>) {
    forall p, q :: 0 <= p < q < |spine| ==> spine[p] != spine[q]
  }

  /** Heights: the head has every level, the others at least one and at most lv. */
  ghost predicate Levelled(spine: seq<Node>, lv: nat) {
    && |spine| >= 1 && spine[0].height == MAX_LEVEL && 1 <= lv <= MAX_LEVEL
    && (forall p :: 0 <= p < |spine| ==> spine[p].height >= 1)
    && (forall p :: 1 <= p < |spine| ==> spine[p].height <= lv)
  }

  /** The link rows of the whole spine, as one value. */
  ghost function Rows(spine: seq<Node>): (rows: seq<seq<Link>>)
    reads spine`links
    ensures |rows| == |spine|
    ensures forall p :: 0 <= p < |spine| ==> rows[p] == spine[p].links
  {
    if |spine| == 0 then [] else Rows(spine[..|spine| - 1]) + [spine[|spine| - 1].links]
  }

  ghost predicate Sized(spine: seq<Node>, rows: seq<seq<Link>>) {
    && |rows| == |spine|
    && forall p :: 0 <= p < |spine| ==> |rows[p]| == spine[p].height
  }

  /** Every link below level lv is right, and the head has no link at or above it. */
  ghost predicate RowsOk(spine: seq<Node>, lv: nat, rows: seq<seq<Link>>) {
    && |spine| >= 1 && Sized(spine, rows)
    && (forall p, i {:trigger rows[p][i]} :: 0 <= p < |spine| && 0 <= i < lv && i < spine[p].height ==>
          LinkOk(spine, i, p, rows[p][i]))
    && (forall i :: lv <= i < |rows[0]| ==> rows[0][i].next == null)
  }

  ghost predicate Wired(spine: seq<Node>, lv: nat)
    reads spine`links
  {
    Distinct(spine) && Levelled(spine, lv) && RowsOk(spine, lv, Rows(spine))
  }

  /** Back pointers and the tail; an empty chain has no tail, and the first element no predecessor. */
  ghost predicate Chained(spine: seq<Node>, tail: Node?)
    reads spine`prev
  {
    && |spine| >= 1
    && (forall p {:trigger spine[p].prev} :: 1 <= p < |spine| ==> spine[p].prev == if p == 1 then null else spine[p - 1])
    && tail == if |spine| == 1 then null else spine[|spine| - 1]
  }

  lemma WiredHead(spine: seq<Node>, lv: nat)
    requires Wired(spine, lv)
    ensures |spine| >= 1 && 1 <= lv <= MAX_LEVEL == spine[0].height == |spine[0].links| && Distinct(spine)
    ensures forall x :: 0 <= x < |spine| ==> spine[x].height >= 1
    ensures forall x :: 1 <= x < |spine| ==> spine[x].height <= lv
  {
  }

  lemma LoneHeadWired(head: Node)
    requires head.height == MAX_LEVEL && head.links == seq(MAX_LEVEL, _ => Link(null, 0))
    ensures Wired([head], 1)
  {
  }

  lemma LinkAt(spine: seq<Node>, lv: nat, p: nat, i: nat)
    requires Wired(spine, lv) && p < |spine| && i < lv && i < spine[p].height
    ensures i < |spine[p].links|
    ensures LinkOk(spine, i, p, spine[p].links[i])
    ensures spine[p].links[i].next != null ==>
      var q := p + spine[p].links[i].span;
      p < q < |spine| && spine[p].links[i].next == spine[q] && spine[q].height > i
  {
  }

  lemma WiredRow(spine: seq<Node>, lv: nat, p: nat)
    requires Wired(spine, lv) && 1 <= p < |spine|
    ensures 1 <= |spine[p].links| == spine[p].height <= lv
  {
  }

  /** What the head's link on the topmost level leads to. */
  lemma TopPosition(spine: seq<Node>, lv: nat) returns (t: nat)
    requires Wired(spine, lv) && (lv > 1 ==> lv <= |spine[0].links| && spine[0].links[lv - 1].next != null)
    ensures TopAt(spine, lv, t)
  {
    t := 0;
    if lv > 1 {
      LinkAt(spine, lv, 0, lv - 1);
      t := spine[0].links[lv - 1].span;
    }
  }

  /** A level that some node reaches is in use. */
  lemma TopInUse(spine: seq<Node>, lv: nat, p: nat)
    requires Wired(spine, lv) && 1 <= p < |spine| && spine[p].height >= lv
    ensures 0 < lv <= |spine[0].links| && spine[0].links[lv - 1].next != null
  {
  }

  lemma FirstLink(spine: seq<Node>, lv: nat, k: nat)
    requires Wired(spine, lv) && k < |spine|
    ensures spine[k].height >= 1 && |spine[k].links| >= 1
    ensures spine[k].links[0] == if k + 1 < |spine| then Link(spine[k + 1], 1) else Link(null, 0)
  {
  }

  /** A level whose head link is null holds no node. */
  lemma WiredLower(spine: seq<Node>, lv: nat)
    requires Wired(spine, lv) && lv > 1 && |spine[0].links| == MAX_LEVEL && spine[0].links[lv - 1].next == null
    ensures Wired(spine, lv - 1)
  {
  }

  // ---------------------------------------------------------------- removing position k

  /** The patch of a predecessor's link when node leaves; over is node's own link on that level. */
  function Bridge(l: Link, node: Node, over: Link): Link {
    if l.next == node then Link(over.next, l.span + (over.span - 1)) else Link(l.next, l.span - 1)
  }

  /** After the cut the link at p is right when it is l: u is the level's predecessor of k, lu and lk
      the links of the two before the cut. */
  lemma BridgedLink(spine: seq<Node>, i: nat, p: nat, k: nat, u: nat, lu: Link, lk: Link, l: Link)
    requires Distinct(spine)
    requires u < k < |spine| && Gap(spine, i, u, k) && LinkOk(spine, i, u, lu) && spine[u].height > i
    requires spine[k].height > i ==> LinkOk(spine, i, k, lk)
    requires p < |spine| - 1 && Cut(spine, k)[p].height > i
    requires p == u ==> l == Bridge(lu, spine[k], lk)
    requires p != u ==> LinkOk(spine, i, if p < k then p else p + 1, l)
    ensures LinkOk(Cut(spine, k), i, p, l)
  {
  }

  lemma CutKeepsPredecessors(spine: seq<Node>, hi: nat, r: nat, update: seq<Node>, us: seq<nat>)
    requires r + 1 < |spine| && Predecessors(spine, 0, hi, r, update, us)
    ensures Predecessors(Cut(spine, r + 1), 0, hi, r, update, us)
  {
  }

  /** On each level below n, and there only at us, the link has been patched around position k. */
  ghost predicate BridgedRows(n: nat, node: Node, k: nat, us: seq<nat>, was: seq<seq<Link>>, now: seq<seq<Link>>) {
    && |now| == |was| && k < |was| && n <= |us| && now[k] == was[k]
    && (forall p :: 0 <= p < |was| ==> |now[p]| == |was[p]|)
    && (forall p, j {:trigger now[p][j]} :: 0 <= p < |was| && 0 <= j < |was[p]| ==>
          now[p][j] ==
            if j < n && p == us[j] then Bridge(was[p][j], node, if j < |was[k]| then was[k][j] else Link(null, 0))
            else was[p][j])
  }

  lemma BridgedRowsOk(spine: seq<Node>, lv: nat, k: nat, update: seq<Node>, us: seq<nat>, was: seq<seq<Link>>, now: seq<seq<Link>>)
    requires Distinct(spine) && Levelled(spine, lv) && RowsOk(spine, lv, was) && 1 <= k < |spine|
    requires Predecessors(spine, 0, lv, k - 1, update, us) && BridgedRows(lv, spine[k], k, us, was, now)
    ensures Distinct(Cut(spine, k)) && Levelled(Cut(spine, k), lv) && RowsOk(Cut(spine, k), lv, Cut(now, k))
  {
    hide LinkOk, Gap;
    var s, rows := Cut(spine, k), Cut(now, k);
    forall p, i | 0 <= p < |s| && 0 <= i < lv && i < s[p].height
      ensures LinkOk(s, i, p, rows[p][i])
    {
      var u := us[i];
      assert Gap(spine, i, u, k - 1 + 1) && LinkOk(spine, i, u, was[u][i]);
      BridgedLink(spine, i, p, k, u, was[u][i], if i < |was[k]| then was[k][i] else Link(null, 0), rows[p][i]);
    }
  }

  lemma BridgeReady(spine: seq<Node>, lv: nat, k: nat, update: seq<Node>, us: seq<nat>)
    requires Wired(spine, lv) && 1 <= k < |spine| && Predecessors(spine, 0, lv, k - 1, update, us)
    ensures lv <= |update| && lv <= |us|
    ensures forall i :: 0 <= i < lv ==> us[i] < k && update[i] == spine[us[i]] && i < update[i].height == |update[i].links|
    ensures forall i :: 0 <= i < lv && update[i].links[i].next == spine[k] ==> i < spine[k].height == |spine[k].links|
  {
  }

  lemma BridgeStart(node: Node, k: nat, us: seq<nat>, rows: seq<seq<Link>>)
    requires k < |rows|
    ensures BridgedRows(0, node, k, us, rows, rows)
  {
  }

  lemma BridgeRow(i: nat, node: Node, k: nat, us: seq<nat>, was: seq<seq<Link>>, now: seq<seq<Link>>)
    requires BridgedRows(i, node, k, us, was, now) && i < |us| && us[i] < k && i < |was[us[i]]|
    ensures now[us[i]][i] == was[us[i]][i]
    ensures var l := Bridge(was[us[i]][i], node, if i < |was[k]| then was[k][i] else Link(null, 0));
      BridgedRows(i + 1, node, k, us, was, now[us[i] := now[us[i]][i := l]])
  {
  }

  /** The loop of the source's _removeNode. */
  method BridgeLevels(ghost spine: seq<Node>, n: nat, node: Node, update: seq<Node>, ghost k: nat, ghost us: seq<nat>)
    requires Distinct(spine) && k < |spine| && node == spine[k]
    requires n <= |update| && n <= |us|
    requires forall i :: 0 <= i < n ==> us[i] < k && update[i] == spine[us[i]] && i < |update[i].links|
    requires forall i :: 0 <= i < n && update[i].links[i].next == node ==> i < |node.links|
    modifies spine`links
    ensures BridgedRows(n, node, k, us, old(Rows(spine)), Rows(spine)) && node.links == old(node.links)
  {
    hide Rows, BridgedRows;
    ghost var was: seq<seq<Link>> := Rows(spine);
    BridgeStart(node, k, us, was);
    for i := 0 to n
      invariant BridgedRows(i, node, k, us, was, Rows(spine)) && node.links == was[k]
      invariant forall p :: 0 <= p < |was| ==> |spine[p].links| == |was[p]|
    {
      ghost var rows: seq<seq<Link>> := Rows(spine);
      var u := update[i];
      assert u == spine[us[i]];
      BridgeRow(i, node, k, us, was, rows);
      if u.links[i].next == node {
        u.links := u.links[i := Link(node.links[i].next, u.links[i].span + (node.links[i].span - 1))];
      } else {
        u.links := u.links[i := Link(u.links[i].next, u.links[i].span - 1)];
      }
      assert Rows(spine) == rows[us[i] := u.links];
    }
  }

  lemma RowsCut(spine: seq<Node>, k: nat)
    requires k < |spine|
    ensures Rows(Cut(spine, k)) == Cut(Rows(spine), k)
  {
  }

  method Unlink(ghost spine: seq<Node>, lv: nat, node: Node, update: seq<Node>, ghost k: nat, ghost us: seq<nat>)
    requires Wired(spine, lv) && 1 <= k < |spine| && node == spine[k]
    requires Predecessors(spine, 0, lv, k - 1, update, us)
    modifies spine`links
    ensures Wired(Cut(spine, k), lv) && node.links == old(node.links)
  {
    hide Rows, RowsOk, Predecessors, BridgedRows, Levelled, Distinct, Cut;
    ghost var was: seq<seq<Link>> := Rows(spine);
    BridgeReady(spine, lv, k, update, us);
    BridgeLevels(spine, lv, node, update, k, us);
    BridgedRowsOk(spine, lv, k, update, us, was, Rows(spine));
    RowsCut(spine, k);
  }

  // ---------------------------------------------------------------- inserting at position k

  /** After the splice the link at p is right when it is l: u is the level's predecessor of k, and lu
      its link before the splice. */
  lemma SplicedLink(spine: seq<Node>, i: nat, p: nat, k: nat, u: nat, lu: Link, n: Node, l: Link)
    requires u < k <= |spine| && Gap(spine, i, u, k) && LinkOk(spine, i, u, lu) && spine[u].height > i
    requires p <= |spine| && Splice(spine, k, n)[p].height > i
    requires p == u ==> l == if i < n.height then Link(n, k - u) else Link(lu.next, lu.span + 1)
    requires p == k ==> l == Link(lu.next, lu.span - (k - 1 - u))
    requires p != u && p != k ==> LinkOk(spine, i, if p < k then p else p - 1, l)
    ensures LinkOk(Splice(spine, k, n), i, p, l)
  {
  }

  lemma SpliceLevelled(spine: seq<Node>, lv: nat, k: nat, node: Node)
    requires Distinct(spine) && Levelled(spine, lv) && 1 <= k <= |spine| && node !in spine && 1 <= node.height <= lv
    ensures Distinct(Splice(spine, k, node)) && Levelled(Splice(spine, k, node), lv)
  {
  }

  /** On each level below n the link at us has been redirected to the new node, which has taken over
      where it led (levels the node reaches), or is one longer (levels above). row is the new node's. */
  ghost predicate SplicedRows(n: nat, node: Node, us: seq<nat>, was: seq<seq<Link>>, now: seq<seq<Link>>, row: seq<Link>) {
    && |now| == |was| && |row| == node.height && n <= |us| && |us| > 0
    && (forall p :: 0 <= p < |was| ==> |now[p]| == |was[p]|)
    && (forall i :: 0 <= i < n ==> us[i] <= us[0] && us[i] < |was| && i < |was[us[i]]|)
    && (forall i :: 0 <= i < n && i < node.height ==>
          row[i] == Link(was[us[i]][i].next, was[us[i]][i].span - (us[0] - us[i])))
    && (forall p, j {:trigger now[p][j]} :: 0 <= p < |was| && 0 <= j < |was[p]| ==>
          now[p][j] ==
            if j >= n || p != us[j] then was[p][j]
            else if j < node.height then Link(node, us[0] - us[j] + 1)
            else Link(was[p][j].next, was[p][j].span + 1))
  }

  lemma SplicedRowsOk(spine: seq<Node>, lv: nat, node: Node, update: seq<Node>, us: seq<nat>,
                      was: seq<seq<Link>>, now: seq<seq<Link>>, row: seq<Link>)
    requires Levelled(spine, lv) && RowsOk(spine, lv, was) && node.height <= lv
    requires |us| > 0 && us[0] < |spine| && Predecessors(spine, 0, lv, us[0], update, us)
    requires SplicedRows(lv, node, us, was, now, row)
    ensures RowsOk(Splice(spine, us[0] + 1, node), lv, Splice(now, us[0] + 1, row))
  {
    hide LinkOk, Gap;
    var k := us[0] + 1;
    var s, rows := Splice(spine, k, node), Splice(now, k, row);
    forall p, i | 0 <= p < |s| && 0 <= i < lv && i < s[p].height
      ensures LinkOk(s, i, p, rows[p][i])
    {
      var u := us[i];
      assert Gap(spine, i, u, k) && LinkOk(spine, i, u, was[u][i]);
      SplicedLink(spine, i, p, k, u, was[u][i], node, rows[p][i]);
    }
  }

  lemma SpliceStart(node: Node, us: seq<nat>, rows: seq<seq<Link>>, row: seq<Link>)
    requires |row| == node.height && |us| > 0
    ensures SplicedRows(0, node, us, rows, rows, row)
  {
  }

  lemma SpliceRow(i: nat, node: Node, us: seq<nat>, was: seq<seq<Link>>, now: seq<seq<Link>>, row: seq<Link>)
    requires SplicedRows(i, node, us, was, now, row) && i < |us| && us[i] <= us[0] && us[i] < |was| && i < |was[us[i]]|
    ensures now[us[i]][i] == was[us[i]][i]
    ensures var l := was[us[i]][i]; var d := us[0] - us[i];
      if i < node.height then
        SplicedRows(i + 1, node, us, was, now[us[i] := now[us[i]][i := Link(node, d + 1)]], row[i := Link(l.next, l.span - d)])
      else
        SplicedRows(i + 1, node, us, was, now[us[i] := now[us[i]][i := Link(l.next, l.span + 1)]], row)
  {
  }

  lemma SpliceReady(spine: seq<Node>, lv: nat, update: seq<Node>, us: seq<nat>)
    requires Wired(spine, lv) && |us| > 0 && us[0] < |spine| && Predecessors(spine, 0, lv, us[0], update, us)
    ensures lv <= |update| && lv <= |us|
    ensures forall i :: 0 <= i < lv ==> us[i] <= us[0] && update[i] == spine[us[i]] && i < |update[i].links|
  {
  }

  /** The loop of the source's _insert that hangs the new node into the levels it reaches. */
  method HangNode(ghost spine: seq<Node>, node: Node, update: seq<Node>, rank: seq<int>, ghost us: seq<nat>)
    requires Distinct(spine) && node !in spine
    requires 1 <= |node.links| == node.height <= |update| && node.height <= |us| && node.height <= |rank|
    requires forall i :: 0 <= i < node.height ==> us[i] <= us[0] && us[i] < |spine| && update[i] == spine[us[i]] && i < |update[i].links|
    requires forall i :: 0 <= i < node.height ==> rank[i] == us[i]
    modifies spine`links, node`links
    ensures SplicedRows(node.height, node, us, old(Rows(spine)), Rows(spine), node.links)
    ensures forall p :: 0 <= p < |spine| ==> |spine[p].links| == old(|spine[p].links|)
  {
    hide Rows, SplicedRows;
    ghost var was: seq<seq<Link>> := Rows(spine);
    SpliceStart(node, us, was, node.links);
    for i := 0 to node.height
      invariant SplicedRows(i, node, us, was, Rows(spine), node.links) && |node.links| == node.height
      invariant forall p :: 0 <= p < |was| ==> |spine[p].links| == |was[p]|
    {
      ghost var rows: seq<seq<Link>> := Rows(spine);
      var u := update[i];
      assert u == spine[us[i]];
      SpliceRow(i, node, us, was, rows, node.links);
      node.links := node.links[i := Link(u.links[i].next, u.links[i].span - (rank[0] - rank[i]))];
      u.links := u.links[i := Link(node, rank[0] - rank[i] + 1)];
      assert Rows(spine) == rows[us[i] := u.links];
    }
  }

  /** The loop after it, which lengthens the links that pass over the new node. */
  method StretchLevels(ghost spine: seq<Node>, lv: nat, node: Node, update: seq<Node>, ghost us: seq<nat>, ghost was: seq<seq<Link>>)
    requires Distinct(spine) && node !in spine && |was| == |spine|
    requires node.height <= lv <= |update| && lv <= |us|
    requires forall i :: 0 <= i < lv ==> us[i] <= us[0] && us[i] < |spine| && update[i] == spine[us[i]] && i < |update[i].links|
    requires forall p :: 0 <= p < |was| ==> |spine[p].links| == |was[p]|
    requires SplicedRows(node.height, node, us, was, Rows(spine), node.links)
    modifies spine`links
    ensures SplicedRows(lv, node, us, was, Rows(spine), node.links)
  {
    hide Rows, SplicedRows;
    for i := node.height to lv
      invariant SplicedRows(i, node, us, was, Rows(spine), node.links)
      invariant forall p :: 0 <= p < |was| ==> |spine[p].links| == |was[p]|
    {
      ghost var rows: seq<seq<Link>> := Rows(spine);
      var u := update[i];
      assert u == spine[us[i]];
      SpliceRow(i, node, us, was, rows, node.links);
      u.links := u.links[i := Link(u.links[i].next, u.links[i].span + 1)];
      assert Rows(spine) == rows[us[i] := u.links];
    }
  }

  lemma RowsSplice(spine: seq<Node>, k: nat, node: Node)
    requires k <= |spine|
    ensures Rows(Splice(spine, k, node)) == Splice(Rows(spine), k, node.links)
  {
    hide Rows, Splice;
    var s, rows := Splice(spine, k, node), Splice(Rows(spine), k, node.links);
    forall x | 0 <= x < |s| ensures Rows(s)[x] == rows[x] {
      assert Rows(s)[x] == s[x].links;
    }
  }

  method SpliceIn(ghost spine: seq<Node>, lv: nat, node: Node, update: seq<Node>, rank: seq<int>, ghost us: seq<nat>)
    requires Wired(spine, lv) && node !in spine && 1 <= |node.links| == node.height <= lv
    requires |us| > 0 && us[0] < |spine| && Predecessors(spine, 0, lv, us[0], update, us)
    requires lv <= |rank| && forall i :: 0 <= i < lv ==> rank[i] == us[i]
    modifies spine`links, node`links
    ensures Wired(Splice(spine, us[0] + 1, node), lv)
  {
    hide Rows, RowsOk, Predecessors, SplicedRows, Levelled, Distinct, Splice;
    ghost var was: seq<seq<Link>> := Rows(spine);
    SpliceReady(spine, lv, update, us);
    HangNode(spine, node, update, rank, us);
    StretchLevels(spine, lv, node, update, us, was);
    SpliceLevelled(spine, lv, us[0] + 1, node);
    SplicedRowsOk(spine, lv, node, update, us, was, Rows(spine), node.links);
    RowsSplice(spine, us[0] + 1, node);
  }

  /** The growth step of the source's _insert: on the levels that come into use the head is the
      predecessor, and its link now spans the whole chain. */
  method GrowLevels(ghost spine: seq<Node>, lv: nat, h: nat, head: Node, length: int,
                    update: seq<Node>, rank: seq<int>, ghost us: seq<nat>)
    returns (update': seq<Node>, rank': seq<int>, ghost us': seq<nat>)
    requires Wired(spine, lv) && lv <= h <= MAX_LEVEL && head == spine[0] && length == |spine| - 1
    requires |update| == |rank| == |us| == MAX_LEVEL && us[0] < |spine|
    requires Predecessors(spine, 0, lv, us[0], update, us) && forall i :: 0 <= i < lv ==> rank[i] == us[i]
    modifies head`links
    ensures Wired(spine, h) && |update'| == |rank'| == |us'| == MAX_LEVEL && us'[0] == us[0]
    ensures Predecessors(spine, 0, h, us[0], update', us') && forall i :: 0 <= i < h ==> rank'[i] == us'[i]
  {
    update', rank', us' := update, rank, us;
    for i := lv to h
      modifies head`links
      invariant Wired(spine, i)
      invariant |update'| == |rank'| == |us'| == MAX_LEVEL && us'[0] == us[0]
      invariant Predecessors(spine, 0, i, us[0], update', us') && forall j :: 0 <= j < i ==> rank'[j] == us'[j]
    {
      rank' := rank'[i := 0];
      us' := us'[i := 0];
      update' := update'[i := head];
      GrowLevel(spine, i, head, length);
    }
  }

  method GrowLevel(ghost spine: seq<Node>, i: nat, head: Node, length: int)
    requires Wired(spine, i) && i < MAX_LEVEL && head == spine[0] && length == |spine| - 1
    modifies head`links
    ensures Wired(spine, i + 1)
  {
    WiredHead(spine, i);
    ghost var rows: seq<seq<Link>> := Rows(spine);
    assert rows[0][i].next == null;
    head.links := head.links[i := head.links[i].(span := length)];
    assert Rows(spine) == rows[0 := head.links];
    assert LinkOk(spine, i, 0, Link(null, length));
  }
}
