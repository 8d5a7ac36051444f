/**
  MULTI, EXEC and DISCARD: what one request does to its session and to the shared store.

  A database command is its body: a function of its parameters, the database it is handed, the session's
  current database and the store. Commands that block or throw are outside the model.
 */
module Transactions {
  import opened Options
  import opened Resp

  datatype Effect<S> = Effect(reply: Token, store: S, currentDb: nat)

  datatype Action<!S> =
    | Multi
    | Exec
    | Discard
    | Body(run: (seq<string>, nat, nat, S) -> Effect<S>)

  /** An entry of the command table. maxParams is -1 when there is no maximum. */
  datatype Command<!S> = Command(minParams: int, maxParams: int, action: Action<S>)

  /** command is what the table holds for the lower-cased name, if anything. */
  datatype Request<!S> = Request(name: string, params: seq<string>, command: Option<Command<S>>)

  // ---------------------------------------------------------------- classifying requests

  function LowerChar(c: char): char {
    if 'A' <= c <= 'Z' then (c as int + 32) as char else c
  }

  function Lower(s: string): (r: string)
    ensures |r| == |s|
  {
    if |s| == 0 then "" else [LowerChar(s[0])] + Lower(s[1..])
  }

  const ALWAYS_AT_ONCE: string := "exec discard multi"

  predicate Contains(text: string, part: string) {
    |part| <= |text| && (text[..|part|] == part || (|text| > 0 && Contains(text[1..], part)))
  }

  /** The source asks whether the text of the three names contains the command's, not whether the
      command is one of the three. */
  predicate Bypasses(name: string) {
    Contains(ALWAYS_AT_ONCE, Lower(name))
  }

  predicate BadArity<S>(r: Request<S>)
    requires r.command.Some?
  {
    var c := r.command.value;
    |r.params| < c.minParams || (c.maxParams > -1 && |r.params| > c.maxParams)
  }

  /** An unknown command, or a known one with the wrong number of parameters. */
  predicate Faulty<S>(r: Request<S>) {
    r.command.None? || BadArity(r)
  }

  predicate Queueable<S>(r: Request<S>) {
    !Faulty(r) && !Bypasses(r.name)
  }

  /** Requests that end an open transaction. */
  predicate Closes<S>(r: Request<S>) {
    !Faulty(r) && Bypasses(r.name) && (r.command.value.action.Exec? || r.command.value.action.Discard?)
  }

  /** The table files each of the three control commands under its own name, and no other. */
  predicate Registered<S>(r: Request<S>) {
    r.command.Some? ==>
      match r.command.value.action
      case Multi => Lower(r.name) == "multi"
      case Exec => Lower(r.name) == "exec"
      case Discard => Lower(r.name) == "discard"
      case Body(_) => Lower(r.name) != "multi" && Lower(r.name) != "exec" && Lower(r.name) != "discard"
  }

  // ---------------------------------------------------------------- what a request does

  /** A session's transaction: the queue when one is open, and the error mark. */
  datatype Tx<!S> = Tx(queue: Option<seq<Request<S>>>, errored: bool)

  /** A reply is known at once, or is the array that EXEC's microtasks fill. */
  datatype Answer = Ready(token: Token) | Pending(cell: nat)

  /** Replies of queued commands reach their array, and answers their client, by way of microtasks. */
  datatype Task = Push(cell: nat, token: Token) | Publish(client: nat, answer: Answer)

  const OK := Status("OK")
  const QUEUED := Bulk(Text("QUEUED"))
  const NESTED := Error("ERR MULTI calls can not be nested")
  const NO_MULTI_FOR_EXEC := Error("ERR EXEC without MULTI")
  const NO_MULTI_FOR_DISCARD := Error("ERR DISCARD without MULTI")
  const ABORTED := Error("EXECABORT Transaction discarded because of previous errors.")

  function Quoted(params: seq<string>): string {
    if |params| == 0 then "" else "`" + params[0] + "`, " + Quoted(params[1..])
  }

  function UnknownCommand<S>(r: Request<S>): Token {
    Error("ERR unknown command `" + r.name + "`, with args beginning with: " + Quoted(r.params))
  }

  function WrongArity<S>(r: Request<S>): Token {
    Error("ERR wrong number of arguments for '" + r.name + "' command")
  }

  /** What the session's transaction becomes. */
  function TxStep<S>(tx: Tx<S>, r: Request<S>): Tx<S> {
    if r.command.None? then tx.(errored := true)
    else if BadArity(r) then (if tx.queue.Some? then tx.(errored := true) else tx)
    else if tx.queue.Some? && !Bypasses(r.name) then tx.(queue := Some(tx.queue.value + [r]))
    else
      match r.command.value.action
      case Multi => if tx.queue.None? then Tx(Some([]), false) else tx
      case Discard => if tx.queue.Some? then Tx(None, false) else tx
      case Exec => if tx.queue.None? then tx else if tx.errored then Tx(None, false) else tx.(queue := None)
      case Body(_) => tx
  }

  /** Queued commands run one after the other, each handed database db; their replies in order. */
  function RunQueue<S>(queue: seq<Request<S>>, db: nat, currentDb: nat, store: S): (seq<Token>, S, nat)
    decreases |queue|
  {
    if |queue| == 0 then ([], store, currentDb)
    else
      var (tokens, store', currentDb') := RunQueue(queue[..|queue| - 1], db, currentDb, store);
      var r := queue[|queue| - 1];
      match r.command
      case Some(Command(_, _, Body(run))) =>
        var e := run(r.params, db, currentDb', store');
        (tokens + [e.reply], e.store, e.currentDb)
      case _ => (tokens, store', currentDb')
  }

  predicate AllBodies<S>(queue: seq<Request<S>>) {
    forall i {:trigger queue[i]} :: 0 <= i < |queue| ==> queue[i].command.Some? && queue[i].command.value.action.Body?
  }

  /** One command after the other, first to last, each on the store and with the current database that the
      one before it left, and all of them handed the same database db. */
  ghost predicate RunsInTurn<S>(queue: seq<Request<S>>, db: nat, stores: seq<S>, dbs: seq<nat>, tokens: seq<Token>) {
    && AllBodies(queue) && |stores| == |dbs| == |queue| + 1 && |tokens| == |queue|
    && forall i {:trigger queue[i]} :: 0 <= i < |queue| ==>
         queue[i].command.value.action.run(queue[i].params, db, dbs[i], stores[i]) == Effect(tokens[i], stores[i + 1], dbs[i + 1])
  }

  lemma {:induction false} QueueInTurn<S>(queue: seq<Request<S>>, db: nat, currentDb: nat, store: S)
    returns (stores: seq<S>, dbs: seq<nat>)
    requires AllBodies(queue)
    ensures var (tokens, store', currentDb') := RunQueue(queue, db, currentDb, store); var n := |queue|;
      && RunsInTurn(queue, db, stores, dbs, tokens)
      && stores[0] == store && dbs[0] == currentDb && stores[n] == store' && dbs[n] == currentDb'
    decreases |queue|
  {
    if |queue| == 0 {
      stores, dbs := [store], [currentDb];
    } else {
      var n := |queue| - 1;
      var front := queue[..n];
      stores, dbs := QueueInTurn(front, db, currentDb, store);
      var (tokens, store', currentDb') := RunQueue(front, db, currentDb, store);
      var e := queue[n].command.value.action.run(queue[n].params, db, currentDb', store');
      assert forall i {:trigger queue[i]} :: 0 <= i < n ==> front[i] == queue[i];
      stores, dbs := stores + [e.store], dbs + [e.currentDb];
    }
  }

  /** Whether a request makes EXEC run a queue, and which. */
  function Launched<S>(tx: Tx<S>, r: Request<S>): Option<seq<Request<S>>> {
    if !Faulty(r) && Bypasses(r.name) && r.command.value.action.Exec? && tx.queue.Some? && !tx.errored then tx.queue else None
  }

  /** Whether a request runs a command body at once. */
  predicate RunsAtOnce<S>(tx: Tx<S>, r: Request<S>) {
    !Faulty(r) && (tx.queue.None? || Bypasses(r.name)) && r.command.value.action.Body?
  }

  /** The reply of a request that runs nothing. */
  function Verdict<S>(tx: Tx<S>, r: Request<S>): Token {
    if r.command.None? then UnknownCommand(r)
    else if BadArity(r) then WrongArity(r)
    else if tx.queue.Some? && !Bypasses(r.name) then QUEUED
    else
      match r.command.value.action
      case Multi => if tx.queue.None? then OK else NESTED
      case Discard => if tx.queue.Some? then OK else NO_MULTI_FOR_DISCARD
      case Exec => if tx.queue.None? then NO_MULTI_FOR_EXEC else ABORTED
      case Body(_) => OK
  }

  // ---------------------------------------------------------------- the server

  /** A client's session. */
  datatype Seat<!S> = Seat(tx: Tx<S>, currentDb: nat)

  /** cells are the reply arrays of EXEC, tasks the microtasks in order, published what clients got. */
  datatype World<!S> = World(seats: map<nat, Seat<S>>, store: S, cells: seq<seq<Token>>, tasks: seq<Task>, published: seq<(nat, Token)>)
  {
    function At(client: nat): Seat<S> {
      if client in seats then seats[client] else Seat(Tx(None, false), 0)
    }
  }

  datatype Event<!S> = Receive(client: nat, request: Request<S>) | Tick

  function Pushes(cell: nat, tokens: seq<Token>): seq<Task> {
    if |tokens| == 0 then [] else Pushes(cell, tokens[..|tokens| - 1]) + [Push(cell, tokens[|tokens| - 1])]
  }

  /** One request, from its arrival to its last synchronous effect; its answer waits as a microtask. */
  function Serve<S>(w: World<S>, client: nat, r: Request<S>): World<S> {
    var seat := w.At(client);
    var tx := TxStep(seat.tx, r);
    match Launched(seat.tx, r)
    case Some(queue) =>
      var (tokens, store, db) := RunQueue(queue, seat.currentDb, seat.currentDb, w.store);
      World(w.seats[client := Seat(tx, db)], store, w.cells + [[]],
            w.tasks + Pushes(|w.cells|, tokens) + [Publish(client, Pending(|w.cells|))], w.published)
    case None =>
      if RunsAtOnce(seat.tx, r) then
        var e := r.command.value.action.run(r.params, seat.currentDb, seat.currentDb, w.store);
        World(w.seats[client := Seat(tx, e.currentDb)], e.store, w.cells, w.tasks + [Publish(client, Ready(e.reply))], w.published)
      else
        World(w.seats[client := Seat(tx, seat.currentDb)], w.store, w.cells,
              w.tasks + [Publish(client, Ready(Verdict(seat.tx, r)))], w.published)
  }

  /** What an answer is worth when it is sent. */
  function Worth(answer: Answer, cells: seq<seq<Token>>): Token {
    match answer
    case Ready(token) => token
    case Pending(cell) => if cell < |cells| then Array(cells[cell]) else Array([])
  }

  function RunTask(task: Task, cells: seq<seq<Token>>, published: seq<(nat, Token)>): (seq<seq<Token>>, seq<(nat, Token)>) {
    match task
    case Push(cell, token) => (if cell < |cells| then cells[cell := cells[cell] + [token]] else cells, published)
    case Publish(client, answer) => (cells, published + [(client, Worth(answer, cells))])
  }

  function Turn<S>(w: World<S>): World<S> {
    if |w.tasks| == 0 then w
    else
      var (cells, published) := RunTask(w.tasks[0], w.cells, w.published);
      w.(cells := cells, published := published, tasks := w.tasks[1..])
  }

  function Step<S>(w: World<S>, e: Event<S>): World<S> {
    match e
    case Receive(client, r) => Serve(w, client, r)
    case Tick => Turn(w)
  }

  function Run<S>(w: World<S>, es: seq<Event<S>>): World<S>
    decreases |es|
  {
    if |es| == 0 then w else Run(Step(w, es[0]), es[1..])
  }

  // ---------------------------------------------------------------- a session's own requests

  function Own<S>(es: seq<Event<S>>, client: nat): seq<Request<S>> {
    if |es| == 0 then []
    else (if es[0].Receive? && es[0].client == client then [es[0].request] else []) + Own(es[1..], client)
  }

  function TxRun<S>(tx: Tx<S>, rs: seq<Request<S>>): Tx<S>
    decreases |rs|
  {
    if |rs| == 0 then tx else TxRun(TxStep(tx, rs[0]), rs[1..])
  }

  /** A session's transaction depends on its own requests alone, whoever else is served in between. */
  lemma {:induction false} TransactionIsPrivate<S>(w: World<S>, es: seq<Event<S>>, client: nat)
    ensures Run(w, es).At(client).tx == TxRun(w.At(client).tx, Own(es, client))
    decreases |es|
  {
    hide TxStep, RunQueue;
    if |es| != 0 {
      TransactionIsPrivate(Step(w, es[0]), es[1..], client);
      if es[0].Receive? && es[0].client == client {
        assert ([es[0].request] + Own(es[1..], client))[1..] == Own(es[1..], client);
      } else {
        assert [] + Own(es[1..], client) == Own(es[1..], client);
      }
    }
  }

  function Queued<S>(rs: seq<Request<S>>): seq<Request<S>> {
    if |rs| == 0 then [] else (if Queueable(rs[0]) then [rs[0]] else []) + Queued(rs[1..])
  }

  predicate AnyFaulty<S>(rs: seq<Request<S>>) {
    |rs| > 0 && (Faulty(rs[0]) || AnyFaulty(rs[1..]))
  }

  predicate AnyCloses<S>(rs: seq<Request<S>>) {
    |rs| > 0 && (Closes(rs[0]) || AnyCloses(rs[1..]))
  }

  /** While a transaction is open, exactly the well-formed requests pile up, in order, and exactly a
      fault marks it. */
  lemma {:induction false} OpenTransaction<S>(queue: seq<Request<S>>, errored: bool, rs: seq<Request<S>>)
    requires !AnyCloses(rs)
    ensures TxRun(Tx(Some(queue), errored), rs) == Tx(Some(queue + Queued(rs)), errored || AnyFaulty(rs))
    decreases |rs|
  {
    hide Bypasses, BadArity;
    if |rs| == 0 {
      assert queue + [] == queue;
    } else if Queueable(rs[0]) {
      OpenTransaction(queue + [rs[0]], errored, rs[1..]);
      assert queue + [rs[0]] + Queued(rs[1..]) == queue + ([rs[0]] + Queued(rs[1..]));
    } else {
      OpenTransaction(queue, errored || Faulty(rs[0]), rs[1..]);
      assert [] + Queued(rs[1..]) == Queued(rs[1..]);
    }
  }

  // ---------------------------------------------------------------- names

  lemma {:induction false} ContainsAt(text: string, part: string, i: nat)
    requires i + |part| <= |text| && text[i..i + |part|] == part
    ensures Contains(text, part)
  {
    if i > 0 {
      assert text[1..][i - 1..i - 1 + |part|] == text[i..i + |part|];
      ContainsAt(text[1..], part, i - 1);
    } else {
      assert text[..|part|] == text[0..|part|];
    }
  }

  lemma ControlNamesBypass<S>(r: Request<S>)
    requires Registered(r) && r.command.Some? && !r.command.value.action.Body?
    ensures Bypasses(r.name)
  {
    hide Contains, Lower;
    var text := ALWAYS_AT_ONCE;
    if r.command.value.action.Exec? {
      assert text[0..4] == "exec";
      ContainsAt(text, "exec", 0);
    } else if r.command.value.action.Discard? {
      assert text[5..12] == "discard";
      ContainsAt(text, "discard", 5);
    } else {
      assert text[13..18] == "multi";
      ContainsAt(text, "multi", 13);
    }
  }

  /** So queues hold nothing but database commands. */
  lemma QueueHoldsBodies<S>(tx: Tx<S>, r: Request<S>)
    requires Registered(r) && (tx.queue.Some? ==> AllBodies(tx.queue.value))
    ensures var tx' := TxStep(tx, r); tx'.queue.Some? ==> AllBodies(tx'.queue.value)
  {
    hide Bypasses, BadArity, Registered;
    if r.command.Some? && !r.command.value.action.Body? {
      ControlNamesBypass(r);
    }
  }

  /** The name of SCARD is inside that of DISCARD. */
  lemma ScardBypasses()
    ensures Bypasses("scard") && Bypasses("SCARD")
  {
    hide Contains;
    assert ALWAYS_AT_ONCE[7..12] == "scard";
    ContainsAt(ALWAYS_AT_ONCE, "scard", 7);
    assert Lower("scard") == "scard" && Lower("SCARD") == "scard";
  }

  /** In an open transaction a well-formed request is queued exactly when its name does not bypass. */
  lemma QueuedExactly<S>(tx: Tx<S>, r: Request<S>)
    requires tx.queue.Some? && !Faulty(r)
    ensures TxStep(tx, r).queue == Some(tx.queue.value + [r]) <==> !Bypasses(r.name)
  {
  }

  /** So SCARD inside a transaction runs at once, against the store as it is. */
  lemma ScardRunsInside<S>(w: World<S>, client: nat, r: Request<S>)
    requires w.At(client).tx.queue.Some? && !Faulty(r) && Lower(r.name) == "scard" && Registered(r)
    ensures r.command.value.action.Body?
    ensures Serve(w, client, r).store ==
            r.command.value.action.run(r.params, w.At(client).currentDb, w.At(client).currentDb, w.store).store
    ensures Serve(w, client, r).At(client).tx == w.At(client).tx
    ensures Deserved(w, client, r) ==
            r.command.value.action.run(r.params, w.At(client).currentDb, w.At(client).currentDb, w.store).reply
  {
    ScardBypasses();
    assert Lower("scard") == "scard";
    hide BadArity, RunQueue;
  }

  // ---------------------------------------------------------------- transactions in a run

  /** A well-formed request for one of the control commands. */
  predicate Controls<S>(r: Request<S>, name: string) {
    Registered(r) && !Faulty(r) && !r.command.value.action.Body? && Lower(r.name) == name
  }

  /** Between an accepted MULTI and EXEC anything may be served to anybody, as long as this client does
      not close the transaction. EXEC is refused exactly when the client made a fault since MULTI, and
      then changes nothing; otherwise the queue, which is the client's well-formed requests in order,
      runs as one step on the store of that moment. An error mark from before MULTI plays no part, and
      afterwards the session is out of transaction and unmarked. */
  lemma ExecDecides<S>(w: World<S>, client: nat, multi: Request<S>, mid: seq<Event<S>>, exec: Request<S>)
    requires Controls(multi, "multi") && Controls(exec, "exec")
    requires w.At(client).tx.queue.None? && !AnyCloses(Own(mid, client))
    ensures var before := Run(Serve(w, client, multi), mid); var after := Serve(before, client, exec);
      var rs := Own(mid, client); var db := before.At(client).currentDb;
      var (tokens, store, _) := RunQueue(Queued(rs), db, db, before.store);
      && after.At(client).tx == Tx(None, false)
      && (AnyFaulty(rs) ==> after.store == before.store && after.tasks == before.tasks + [Publish(client, Ready(ABORTED))])
      && (!AnyFaulty(rs) ==>
        && after.store == store
        && after.tasks == before.tasks + Pushes(|before.cells|, tokens) + [Publish(client, Pending(|before.cells|))])
  {
    hide Bypasses, BadArity, RunQueue, Queued, AnyFaulty, Own, Run;
    ControlNamesBypass(multi);
    ControlNamesBypass(exec);
    var began := Serve(w, client, multi);
    assert began.At(client).tx == Tx(Some([]), false);
    TransactionIsPrivate(began, mid, client);
    OpenTransaction([], false, Own(mid, client));
    assert [] + Queued(Own(mid, client)) == Queued(Own(mid, client));
  }

  /** DISCARD drops the queue and the mark, and leaves the store alone. */
  lemma DiscardDrops<S>(w: World<S>, client: nat, multi: Request<S>, mid: seq<Event<S>>, discard: Request<S>)
    requires Controls(multi, "multi") && Controls(discard, "discard")
    requires w.At(client).tx.queue.None? && !AnyCloses(Own(mid, client))
    ensures var before := Run(Serve(w, client, multi), mid); var after := Serve(before, client, discard);
      && after.At(client).tx == Tx(None, false) && after.store == before.store
      && after.tasks == before.tasks + [Publish(client, Ready(OK))]
  {
    hide Bypasses, BadArity, RunQueue, Queued, AnyFaulty, Own, Run;
    ControlNamesBypass(multi);
    ControlNamesBypass(discard);
    var began := Serve(w, client, multi);
    assert began.At(client).tx == Tx(Some([]), false);
    TransactionIsPrivate(began, mid, client);
    OpenTransaction([], false, Own(mid, client));
  }

  // ---------------------------------------------------------------- isolation

  function WithoutClient<S>(es: seq<Event<S>>, client: nat): seq<Event<S>> {
    if |es| == 0 then []
    else (if es[0].Receive? && es[0].client == client then [] else [es[0]]) + WithoutClient(es[1..], client)
  }

  /** Well-formed requests that an open transaction does not hold back, other than the control commands. */
  predicate AtOnce<S>(r: Request<S>) {
    !Faulty(r) && Bypasses(r.name) && r.command.value.action.Body?
  }

  predicate AnyAtOnce<S>(rs: seq<Request<S>>) {
    |rs| > 0 && (AtOnce(rs[0]) || AnyAtOnce(rs[1..]))
  }

  function ToOthers(replies: seq<(nat, Token)>, client: nat): seq<(nat, Token)> {
    if |replies| == 0 then [] else (if replies[0].0 == client then [] else [replies[0]]) + ToOthers(replies[1..], client)
  }

  /** The same for everybody but one client. */
  ghost predicate Alike<S>(w: World<S>, v: World<S>, client: nat) {
    w.store == v.store && forall d {:trigger w.At(d)} {:trigger v.At(d)} :: d != client ==> w.At(d) == v.At(d)
  }

  lemma AlikeServe<S>(w: World<S>, v: World<S>, client: nat, d: nat, r: Request<S>)
    requires Alike(w, v, client) && d != client
    ensures Alike(Serve(w, d, r), Serve(v, d, r), client) && Deserved(w, d, r) == Deserved(v, d, r)
  {
    hide TxStep, Verdict, RunsAtOnce, Launched, RunQueue;
    assert w.At(d) == v.At(d);
    var w', v' := Serve(w, d, r), Serve(v, d, r);
    assert w'.store == v'.store && w'.At(d) == v'.At(d);
    forall x | x != client
      ensures w'.At(x) == v'.At(x)
    {
      assert w.At(x) == v.At(x);
      if x != d {
        assert w'.At(x) == w.At(x) && v'.At(x) == v.At(x);
      }
    }
  }

  lemma OpenServe<S>(w: World<S>, v: World<S>, client: nat, r: Request<S>)
    requires Alike(w, v, client) && w.At(client).tx.queue.Some? && !Closes(r) && !AtOnce(r)
    ensures Alike(Serve(w, client, r), v, client) && Serve(w, client, r).At(client).tx.queue.Some?
  {
  }

  /** Nothing a client sends inside its transaction touches the store or anybody else's session: the run
      without those requests is the same for all others. Requests that bypass the queue are the one
      exception. */
  lemma {:induction false} OpenTransactionIsIsolated<S>(w: World<S>, v: World<S>, es: seq<Event<S>>, client: nat)
    requires Alike(w, v, client) && w.At(client).tx.queue.Some?
    requires !AnyCloses(Own(es, client)) && !AnyAtOnce(Own(es, client))
    ensures Alike(Run(w, es), Run(v, WithoutClient(es, client)), client)
    ensures ToOthers(Replies(w, es), client) == Replies(v, WithoutClient(es, client))
    decreases |es|
  {
    hide Alike, Serve, Closes, AtOnce, Turn, Deserved;
    if |es| != 0 {
      var rest := WithoutClient(es[1..], client);
      match es[0] {
        case Tick =>
          AlikeTurn(w, v, client);
          assert ([es[0]] + rest)[1..] == rest && [] + Own(es[1..], client) == Own(es[1..], client);
          assert forall replies: seq<(nat, Token)> :: [] + replies == replies;
          OpenTransactionIsIsolated(Turn(w), Turn(v), es[1..], client);
        case Receive(d, r) =>
          if d == client {
            assert ([r] + Own(es[1..], client))[1..] == Own(es[1..], client) && [] + rest == rest;
            OpenServe(w, v, client, r);
            assert Replies(w, es)[1..] == Replies(Serve(w, d, r), es[1..]);
            OpenTransactionIsIsolated(Serve(w, d, r), v, es[1..], client);
          } else {
            assert ([es[0]] + rest)[1..] == rest && [] + Own(es[1..], client) == Own(es[1..], client);
            AlikeServe(w, v, client, d, r);
            OtherSeat(w, client, d, r);
            assert Replies(w, es)[1..] == Replies(Serve(w, d, r), es[1..]);
            OpenTransactionIsIsolated(Serve(w, d, r), Serve(v, d, r), es[1..], client);
          }
      }
    }
  }

  lemma AlikeTurn<S>(w: World<S>, v: World<S>, client: nat)
    requires Alike(w, v, client)
    ensures Alike(Turn(w), Turn(v), client) && Turn(w).At(client) == w.At(client)
  {
    hide RunTask;
    assert forall d :: Turn(w).At(d) == w.At(d) && Turn(v).At(d) == v.At(d);
  }

  lemma OtherSeat<S>(w: World<S>, client: nat, d: nat, r: Request<S>)
    requires d != client
    ensures Serve(w, d, r).At(client) == w.At(client)
  {
  }

  // ---------------------------------------------------------------- replies

  /** The reply arrays and what clients have got once all microtasks have run. */
  function Drain(cells: seq<seq<Token>>, tasks: seq<Task>, published: seq<(nat, Token)>): (seq<seq<Token>>, seq<(nat, Token)>)
    decreases |tasks|
  {
    if |tasks| == 0 then (cells, published)
    else
      var (cells', published') := RunTask(tasks[0], cells, published);
      Drain(cells', tasks[1..], published')
  }

  function Settled<S>(w: World<S>): seq<(nat, Token)> {
    Drain(w.cells, w.tasks, w.published).1
  }

  predicate Refers(task: Task, n: nat) {
    match task
    case Push(cell, _) => cell < n
    case Publish(_, Ready(_)) => true
    case Publish(_, Pending(cell)) => cell < n
  }

  /** Microtasks refer to arrays that exist. */
  ghost predicate Sound<S>(w: World<S>) {
    forall i :: 0 <= i < |w.tasks| ==> Refers(w.tasks[i], |w.cells|)
  }

  /** The reply that a request deserves, the moment it is served. */
  function Deserved<S>(w: World<S>, client: nat, r: Request<S>): Token {
    var seat := w.At(client);
    match Launched(seat.tx, r)
    case Some(queue) => Array(RunQueue(queue, seat.currentDb, seat.currentDb, w.store).0)
    case None =>
      if RunsAtOnce(seat.tx, r) then r.command.value.action.run(r.params, seat.currentDb, seat.currentDb, w.store).reply
      else Verdict(seat.tx, r)
  }

  /** The replies deserved in a run, in the order of the requests. */
  function Replies<S>(w: World<S>, es: seq<Event<S>>): seq<(nat, Token)>
    decreases |es|
  {
    if |es| == 0 then []
    else (if es[0].Receive? then [(es[0].client, Deserved(w, es[0].client, es[0].request))] else []) + Replies(Step(w, es[0]), es[1..])
  }

  function Received<S>(es: seq<Event<S>>): seq<Event<S>> {
    if |es| == 0 then [] else (if es[0].Receive? then [es[0]] else []) + Received(es[1..])
  }

  lemma {:induction false} DrainConcat(cells: seq<seq<Token>>, a: seq<Task>, b: seq<Task>, published: seq<(nat, Token)>)
    ensures var (c, p) := Drain(cells, a, published); Drain(cells, a + b, published) == Drain(c, b, p)
    decreases |a|
  {
    hide RunTask;
    if |a| == 0 {
      assert a + b == b;
    } else {
      assert (a + b)[1..] == a[1..] + b;
      var (cells', published') := RunTask(a[0], cells, published);
      DrainConcat(cells', a[1..], b, published');
    }
  }

  /** Earlier microtasks do not see a new array. */
  lemma {:induction false} DrainBelow(cells: seq<seq<Token>>, tasks: seq<Task>, published: seq<(nat, Token)>)
    requires forall i :: 0 <= i < |tasks| ==> Refers(tasks[i], |cells|)
    ensures var (c, p) := Drain(cells, tasks, published);
      && |c| == |cells|
      && Drain(cells + [[]], tasks, published) == (c + [[]], p)
    decreases |tasks|
  {
    if |tasks| != 0 {
      assert Refers(tasks[0], |cells|);
      var (cells', published') := RunTask(tasks[0], cells, published);
      match tasks[0] {
        case Push(cell, token) =>
          assert (cells + [[]])[cell := cells[cell] + [token]] == cells' + [[]];
        case Publish(_, _) =>
      }
      assert RunTask(tasks[0], cells + [[]], published) == (cells' + [[]], published');
      DrainBelow(cells', tasks[1..], published');
    }
  }

  /** The pushes of one EXEC fill its own array, in order. */
  lemma {:induction false} DrainPushes(cells: seq<seq<Token>>, cell: nat, tokens: seq<Token>, published: seq<(nat, Token)>)
    requires cell < |cells| && cells[cell] == []
    ensures Drain(cells, Pushes(cell, tokens), published) == (cells[cell := tokens], published)
    decreases |tokens|
  {
    if |tokens| == 0 {
      assert cells[cell := tokens] == cells;
    } else {
      var front, last := tokens[..|tokens| - 1], tokens[|tokens| - 1];
      DrainPushes(cells, cell, front, published);
      DrainConcat(cells, Pushes(cell, front), [Push(cell, last)], published);
      DrainOne(Push(cell, last), cells[cell := front], published);
      assert front + [last] == tokens;
      assert cells[cell := front][cell := tokens] == cells[cell := tokens];
    }
  }

  lemma DrainOne(task: Task, cells: seq<seq<Token>>, published: seq<(nat, Token)>)
    ensures Drain(cells, [task], published) == RunTask(task, cells, published)
  {
  }

  lemma {:induction false} PushesRefer(cell: nat, tokens: seq<Token>, n: nat)
    requires cell < n
    ensures forall i :: 0 <= i < |Pushes(cell, tokens)| ==> Refers(Pushes(cell, tokens)[i], n)
  {
    if |tokens| != 0 {
      PushesRefer(cell, tokens[..|tokens| - 1], n);
    }
  }

  /** Whatever microtasks are still waiting, serving a request settles as one more reply: what it deserves. */
  lemma ServeSettles<S>(w: World<S>, client: nat, r: Request<S>)
    requires Sound(w)
    ensures Sound(Serve(w, client, r))
    ensures Settled(Serve(w, client, r)) == Settled(w) + [(client, Deserved(w, client, r))]
  {
    hide TxStep, RunsAtOnce, Verdict, Launched, RunQueue, Drain, Pushes;
    var seat := w.At(client);
    var (cells, published) := Drain(w.cells, w.tasks, w.published);
    if Launched(seat.tx, r).Some? {
      var tokens := RunQueue(Launched(seat.tx, r).value, seat.currentDb, seat.currentDb, w.store).0;
      var n := |w.cells|;
      var pushes := Pushes(n, tokens);
      var last := Publish(client, Pending(n));
      PushesRefer(n, tokens, n + 1);
      DrainBelow(w.cells, w.tasks, w.published);
      DrainConcat(w.cells + [[]], w.tasks, pushes, w.published);
      DrainConcat(w.cells + [[]], w.tasks + pushes, [last], w.published);
      DrainPushes(cells + [[]], n, tokens, published);
      DrainOne(last, (cells + [[]])[n := tokens], published);
    } else {
      var last := Publish(client, Ready(Deserved(w, client, r)));
      DrainConcat(w.cells, w.tasks, [last], w.published);
      DrainOne(last, cells, published);
    }
  }

  /** Running a microtask changes nothing about how things settle. */
  lemma TurnSettles<S>(w: World<S>)
    requires Sound(w)
    ensures Sound(Turn(w)) && Settled(Turn(w)) == Settled(w)
  {
  }

  /** Every client gets what its requests deserve, in the order of the requests, wherever microtasks fall. */
  lemma {:induction false} RunSettles<S>(w: World<S>, es: seq<Event<S>>)
    requires Sound(w)
    ensures Sound(Run(w, es)) && Settled(Run(w, es)) == Settled(w) + Replies(w, es)
    decreases |es|
  {
    hide Sound, Settled, Serve, Turn, Deserved;
    if |es| == 0 {
      assert Settled(w) + [] == Settled(w);
    } else {
      match es[0] {
        case Receive(client, r) =>
          ServeSettles(w, client, r);
          RunSettles(Serve(w, client, r), es[1..]);
        case Tick =>
          TurnSettles(w);
          RunSettles(Turn(w), es[1..]);
      }
    }
  }

  lemma {:induction false} DrainExtends(cells: seq<seq<Token>>, tasks: seq<Task>, published: seq<(nat, Token)>)
    ensures published <= Drain(cells, tasks, published).1
    decreases |tasks|
  {
    if |tasks| != 0 {
      var (cells', published') := RunTask(tasks[0], cells, published);
      DrainExtends(cells', tasks[1..], published');
    }
  }

  /** Where microtasks fall in between cannot be observed. */
  lemma {:induction false} TicksUnobservable<S>(w: World<S>, v: World<S>, es: seq<Event<S>>, fs: seq<Event<S>>)
    requires w.seats == v.seats && w.store == v.store && Received(es) == Received(fs)
    ensures Replies(w, es) == Replies(v, fs)
    decreases |es| + |fs|
  {
    hide TxStep, Launched, RunQueue, RunsAtOnce, Verdict, RunTask;
    if |es| > 0 && es[0].Tick? {
      TicksUnobservable(Turn(w), v, es[1..], fs);
    } else if |fs| > 0 && fs[0].Tick? {
      TicksUnobservable(w, Turn(v), es, fs[1..]);
    } else if |es| > 0 {
      assert Received(es)[0] == es[0] && Received(es)[1..] == Received(es[1..]);
      assert |fs| > 0 && Received(fs)[0] == fs[0] && Received(fs)[1..] == Received(fs[1..]);
      TicksUnobservable(Step(w, es[0]), Step(v, fs[0]), es[1..], fs[1..]);
    }
  }

  /** What clients have got at any moment of a run is the beginning of what they deserve, and all of it
      once no microtask is left. */
  lemma PublishedIsDeserved<S>(w: World<S>, es: seq<Event<S>>)
    requires w.tasks == [] && w.published == []
    ensures Run(w, es).published <= Replies(w, es)
    ensures Run(w, es).tasks == [] ==> Run(w, es).published == Replies(w, es)
  {
    hide Run, Replies, RunTask;
    var v := Run(w, es);
    RunSettles(w, es);
    DrainExtends(v.cells, v.tasks, v.published);
    assert [] + Replies(w, es) == Replies(w, es);
  }
}
