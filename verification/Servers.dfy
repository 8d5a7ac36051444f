/**
  Sessions and the server as the objects they are: every method takes the abstract world of
  Transactions one step further.
 */
module Servers {
  import opened Options
  import opened Resp
  import opened Transactions

  class Session<!S> {
    var commands: Option<seq<Request<S>>>
    var errored: bool
    var currentDb: nat

    /** A new connection is not in a transaction. */
    constructor ()
      ensures Tx() == Transactions.Tx(None, false) && currentDb == 0
    {
      commands := None;
      errored := false;
      currentDb := 0;
    }

    ghost function Tx(): Tx<S>
      reads this`commands, this`errored
    {
      Transactions.Tx(commands, errored)
    }

    ghost function Seat(): Seat<S>
      reads this
    {
      Transactions.Seat(Tx(), currentDb)
    }

    predicate InTransaction()
      reads this`commands
    {
      commands.Some?
    }

    method SetError()
      modifies this`errored
      ensures errored
    {
      errored := true;
    }

    method QueueRequest(r: Request<S>)
      modifies this`commands
      ensures commands == Some(if old(commands).Some? then old(commands).value + [r] else [r])
    {
      if commands.None? {
        commands := Some([r]);
      } else {
        commands := Some(commands.value + [r]);
      }
    }

    /** An error mark outside a transaction stays. */
    method AbortTransaction() returns (aborted: bool)
      modifies this`commands, this`errored
      ensures aborted == old(InTransaction())
      ensures Tx() == if aborted then Transactions.Tx(None, false) else old(Tx())
    {
      if InTransaction() {
        commands := None;
        errored := false;
        return true;
      }
      return false;
    }

    method GetTransaction() returns (r: Option<seq<Request<S>>>)
      modifies this`commands
      ensures r == old(commands) && commands == None
    {
      r := commands;
      if commands.Some? {
        commands := None;
      }
    }

    /** Starting a transaction inside one loses it. */
    method StartTransaction() returns (started: bool)
      modifies this`commands, this`errored
      ensures started == !old(InTransaction())
      ensures Tx() == if started then Transactions.Tx(Some([]), false) else Transactions.Tx(None, old(errored))
    {
      if InTransaction() {
        commands := None;
        return false;
      }
      commands := Some([]);
      errored := false;
      return true;
    }
  }

  lemma TurnSizes<S>(queue: seq<Request<S>>, db: nat, stores: seq<S>, dbs: seq<nat>, tokens: seq<Token>)
    requires RunsInTurn(queue, db, stores, dbs, tokens)
    ensures |stores| == |dbs| == |queue| + 1
  {
  }

  /** A world in which one more answer waits to be sent. */
  function Answering<S>(w: World<S>, client: nat, answer: Answer): World<S> {
    w.(tasks := w.tasks + [Publish(client, answer)])
  }

  class Server<!S> {
    var sessions: map<nat, Session<S>>
    var store: S
    var cells: seq<seq<Token>>
    var tasks: seq<Task>
    var published: seq<(nat, Token)>

    /** No two clients share a session. */
    ghost predicate Valid()
      reads this`sessions
    {
      forall c, d :: c in sessions && d in sessions && c != d ==> sessions[c] != sessions[d]
    }

    ghost function Abstract(): (w: World<S>)
      reads this, sessions.Values
      ensures w.tasks == tasks && w.published == published
    {
      World(map c | c in sessions :: sessions[c].Seat(), store, cells, tasks, published)
    }

    constructor (store: S)
      ensures Valid() && Abstract() == World(map[], store, [], [], [])
    {
      sessions := map[];
      this.store := store;
      cells, tasks, published := [], [], [];
    }

    /** A new client is a session like those of clients never heard of. */
    method Connect(client: nat)
      requires Valid() && client !in sessions
      modifies this`sessions
      ensures Valid() && sessions.Keys == old(sessions.Keys) + {client} && fresh(sessions[client])
      ensures Abstract() == old(Abstract()).(seats := old(Abstract()).seats[client := Transactions.Seat(Tx(None, false), 0)])
    {
      var session := new Session<S>();
      sessions := sessions[client := session];
    }

    /** An unknown command marks its session, in a transaction or not. */
    method Null(client: nat, r: Request<S>) returns (answer: Answer)
      requires Valid() && client in sessions && r.command.None?
      modifies sessions[client]
      ensures Answering(Abstract(), client, answer) == Serve(old(Abstract()), client, r)
    {
      hide BadArity, Bypasses, RunQueue;
      sessions[client].SetError();
      var params := "";
      for i := 0 to |r.params|
        invariant params + Quoted(r.params[i..]) == Quoted(r.params)
      {
        params := params + ("`" + r.params[i] + "`, ");
        assert r.params[i..][1..] == r.params[i + 1..];
      }
      assert params + "" == params;
      answer := Ready(Error("ERR unknown command `" + r.name + "`, with args beginning with: " + params));
      assert Abstract().seats == old(Abstract()).seats[client := sessions[client].Seat()];
    }

    method Multi(client: nat, r: Request<S>) returns (answer: Answer)
      requires Valid() && client in sessions && !Faulty(r) && r.command.value.action.Multi?
      requires sessions[client].InTransaction() ==> Bypasses(r.name)
      modifies sessions[client]
      ensures Answering(Abstract(), client, answer) == Serve(old(Abstract()), client, r)
    {
      hide BadArity, Bypasses, RunQueue;
      if !sessions[client].InTransaction() {
        var _ := sessions[client].StartTransaction();
        answer := Ready(OK);
      } else {
        answer := Ready(NESTED);
      }
      assert Abstract().seats == old(Abstract()).seats[client := sessions[client].Seat()];
    }

    method Discard(client: nat, r: Request<S>) returns (answer: Answer)
      requires Valid() && client in sessions && !Faulty(r) && r.command.value.action.Discard?
      requires sessions[client].InTransaction() ==> Bypasses(r.name)
      modifies sessions[client]
      ensures Answering(Abstract(), client, answer) == Serve(old(Abstract()), client, r)
    {
      hide BadArity, Bypasses, RunQueue;
      if !sessions[client].InTransaction() {
        answer := Ready(NO_MULTI_FOR_DISCARD);
      } else {
        var _ := sessions[client].AbortTransaction();
        answer := Ready(OK);
      }
      assert Abstract().seats == old(Abstract()).seats[client := sessions[client].Seat()];
    }

    /** The queued commands run here and now; their replies reach the array by microtasks. */
    method Exec(client: nat, r: Request<S>) returns (answer: Answer)
      requires Valid() && client in sessions && !Faulty(r) && r.command.value.action.Exec?
      requires sessions[client].InTransaction() ==> Bypasses(r.name)
      modifies this`store, this`cells, this`tasks, sessions[client]
      ensures Answering(Abstract(), client, answer) == Serve(old(Abstract()), client, r)
    {
      hide BadArity, Bypasses, RunQueue, Pushes, RunsInTurn, AllBodies;
      var session := sessions[client];
      if !session.InTransaction() {
        answer := Ready(NO_MULTI_FOR_EXEC);
      } else if session.errored {
        var _ := session.AbortTransaction();
        answer := Ready(ABORTED);
      } else {
        var queue := session.GetTransaction();
        var cell := |cells|;
        cells := cells + [[]];
        ghost var tokens, stores, dbs := RunAll(session, queue.value, session.currentDb, cell);
        answer := Pending(cell);
      }
      assert Abstract().seats == old(Abstract()).seats[client := session.Seat()];
    }

    /** tokens are the replies, stores and dbs the states between the commands. */
    method RunAll(session: Session<S>, queue: seq<Request<S>>, db: nat, cell: nat)
      returns (ghost tokens: seq<Token>, ghost stores: seq<S>, ghost dbs: seq<nat>)
      modifies this`store, this`tasks, session`currentDb
      ensures (tokens, store, session.currentDb) == RunQueue(queue, db, old(session.currentDb), old(store))
      ensures tasks == old(tasks) + Pushes(cell, tokens)
      ensures AllBodies(queue) ==>
        var n := |queue|;
        && RunsInTurn(queue, db, stores, dbs, tokens)
        && stores[0] == old(store) && dbs[0] == old(session.currentDb) && stores[n] == store && dbs[n] == session.currentDb
    {
      hide RunsInTurn, AllBodies;
      ghost var was, current, waiting := store, session.currentDb, tasks;
      tokens, stores, dbs := [], [], [];
      for i := 0 to |queue|
        invariant RunQueue(queue[..i], db, current, was) == (tokens, store, session.currentDb)
        invariant tasks == waiting + Pushes(cell, tokens)
      {
        assert queue[..i + 1][..i] == queue[..i];
        match queue[i].command {
          case Some(Command(_, _, Body(run))) =>
            var e := run(queue[i].params, db, session.currentDb, store);
            store := e.store;
            session.currentDb := e.currentDb;
            tasks := tasks + [Push(cell, e.reply)];
            assert (tokens + [e.reply])[..|tokens|] == tokens;
            tokens := tokens + [e.reply];
          case _ =>
        }
      }
      assert queue[..|queue|] == queue;
      if AllBodies(queue) {
        stores, dbs := QueueInTurn(queue, db, current, was);
        TurnSizes(queue, db, stores, dbs, tokens);
      }
    }

    /** Checks the arity, then queues the request or executes it. */
    method ExecSync(client: nat, r: Request<S>) returns (answer: Answer)
      requires Valid() && client in sessions && r.command.Some?
      modifies this`store, this`cells, this`tasks, sessions[client]
      ensures Answering(Abstract(), client, answer) == Serve(old(Abstract()), client, r)
    {
      hide BadArity, Bypasses, RunQueue, Pushes;
      var session := sessions[client];
      if BadArity(r) {
        if session.InTransaction() {
          session.SetError();
        }
        answer := Ready(WrongArity(r));
      } else if session.InTransaction() && !Bypasses(r.name) {
        session.QueueRequest(r);
        answer := Ready(QUEUED);
      } else {
        match r.command.value.action {
          case Multi =>
            answer := Multi(client, r);
            return;
          case Exec =>
            answer := Exec(client, r);
            return;
          case Discard =>
            answer := Discard(client, r);
            return;
          case Body(run) =>
            var e := run(r.params, session.currentDb, session.currentDb, store);
            store := e.store;
            session.currentDb := e.currentDb;
            answer := Ready(e.reply);
        }
      }
      assert Abstract().seats == old(Abstract()).seats[client := session.Seat()];
    }

    /** Looks up the command, executes it, and leaves the sending of its answer to a microtask. */
    method Receive(client: nat, r: Request<S>)
      requires Valid() && client in sessions
      modifies this`store, this`cells, this`tasks, sessions[client]
      ensures Abstract() == Step(old(Abstract()), Event.Receive(client, r))
    {
      hide Serve;
      var answer: Answer;
      if r.command.None? {
        answer := Null(client, r);
      } else {
        answer := ExecSync(client, r);
      }
      tasks := tasks + [Publish(client, answer)];
    }

    method RunMicrotask()
      requires Valid() && |tasks| > 0
      modifies this`cells, this`tasks, this`published
      ensures Abstract() == Step(old(Abstract()), Tick)
    {
      var task := tasks[0];
      tasks := tasks[1..];
      match task {
        case Push(cell, token) =>
          if cell < |cells| {
            cells := cells[cell := cells[cell] + [token]];
          }
        case Publish(client, answer) =>
          published := published + [(client, Worth(answer, cells))];
      }
    }

    /** The event loop runs all microtasks before it takes the next message. */
    method Settle()
      requires Valid()
      modifies this`cells, this`tasks, this`published
      ensures tasks == [] && published == Settled(old(Abstract()))
      ensures Abstract().seats == old(Abstract()).seats && store == old(store)
    {
      ghost var settled := Settled(Abstract());
      while |tasks| > 0
        invariant Settled(Abstract()) == settled
        decreases |tasks|
      {
        RunMicrotask();
      }
    }
  }

  predicate Connected<S>(clients: set<nat>, events: seq<Event<S>>) {
    forall i {:trigger events[i]} :: 0 <= i < |events| && events[i].Receive? ==> events[i].client in clients
  }

  lemma RunOn<S>(w: World<S>, events: seq<Event<S>>, i: nat)
    requires i < |events|
    ensures Run(w, events[i..]) == Run(Step(w, events[i]), events[i + 1..])
  {
    hide Step;
    assert events[i..][0] == events[i] && events[i..][1..] == events[i + 1..];
  }

  lemma NoMore<S>(w: World<S>)
    ensures Run(w, []) == w
  {
  }

  lemma NothingToDo<S>(w: World<S>)
    requires |w.tasks| == 0
    ensures Step(w, Tick) == w
  {
  }

  /** Any interleaving of messages and microtasks on the objects is a run of the world; and what clients
      have got at its end is the beginning of what they deserve, all of it once no microtask is left. */
  method Drive<S>(server: Server<S>, events: seq<Event<S>>)
    requires server.Valid() && Connected(server.sessions.Keys, events)
    modifies server`store, server`cells, server`tasks, server`published, server.sessions.Values
    ensures server.Valid() && server.Abstract() == Run(old(server.Abstract()), events)
    ensures old(server.tasks) == [] && old(server.published) == [] ==>
      var replies := Replies(old(server.Abstract()), events);
      && server.published <= replies
      && (server.tasks == [] ==> server.published == replies)
  {
    hide Server.Abstract, Step, Run, Replies;
    ghost var was := server.Abstract();
    assert events[0..] == events;
    for i := 0 to |events|
      invariant server.Valid() && Run(server.Abstract(), events[i..]) == Run(was, events)
    {
      RunOn(server.Abstract(), events, i);
      match events[i] {
        case Receive(client, r) =>
          server.Receive(client, r);
        case Tick =>
          if |server.tasks| > 0 {
            server.RunMicrotask();
          } else {
            NothingToDo(server.Abstract());
          }
      }
    }
    assert events[|events|..] == [];
    NoMore(server.Abstract());
    if old(server.tasks) == [] && old(server.published) == [] {
      PublishedIsDeserved(was, events);
    }
  }
}
