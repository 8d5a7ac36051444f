/**
  What one request does, case by case: which reply it deserves, and what becomes of its session, of the
  store, and of everybody else.
 */
module Serving {
  import opened Options
  import opened Resp
  import opened Transactions

  /** A known command with a number of parameters that it takes. */
  predicate Sized<S>(r: Request<S>) {
    r.command.Some? && var c := r.command.value; c.minParams <= |r.params| && (c.maxParams >= 0 ==> |r.params| <= c.maxParams)
  }

  lemma SizedMeans<S>(r: Request<S>)
    ensures Sized(r) <==> !Faulty(r)
  {
  }

  /** Nothing of the world changes but the transaction of one client, which becomes tx. */
  ghost predicate OnlyTx<S>(w: World<S>, w': World<S>, client: nat, tx: Tx<S>) {
    && w'.store == w.store && w'.At(client) == Seat(tx, w.At(client).currentDb)
    && forall d {:trigger w'.At(d)} :: d != client ==> w'.At(d) == w.At(d)
  }

  /** Outside a transaction an ordinary command runs at once: handed the session's database, on the store
      as it is. */
  lemma OutsideRuns<S>(w: World<S>, client: nat, r: Request<S>)
    requires w.At(client).tx.queue.None? && Sized(r) && r.command.value.action.Body?
    ensures var seat, w' := w.At(client), Serve(w, client, r);
      var e := r.command.value.action.run(r.params, seat.currentDb, seat.currentDb, w.store);
      && Deserved(w, client, r) == e.reply && w'.store == e.store && w'.At(client) == Seat(seat.tx, e.currentDb)
      && forall d :: d != client ==> w'.At(d) == w.At(d)
  {
    hide Bypasses;
  }

  /** What is unknown marks the session, in a transaction or not. */
  lemma Unknown<S>(w: World<S>, client: nat, r: Request<S>)
    requires r.command.None?
    ensures OnlyTx(w, Serve(w, client, r), client, Tx(w.At(client).tx.queue, true))
    ensures Deserved(w, client, r) ==
            Error("ERR unknown command `" + r.name + "`, with args beginning with: " + Quoted(r.params))
  {
    hide Quoted;
  }

  /** A wrong number of parameters marks an open transaction only. */
  lemma Missized<S>(w: World<S>, client: nat, r: Request<S>)
    requires r.command.Some? && !Sized(r)
    ensures var tx := w.At(client).tx;
      OnlyTx(w, Serve(w, client, r), client, Tx(tx.queue, tx.errored || tx.queue.Some?))
    ensures Deserved(w, client, r) == Error("ERR wrong number of arguments for '" + r.name + "' command")
  {
  }

  /** MULTI opens a transaction and forgets an old mark; EXEC and DISCARD need one. */
  lemma OutsideControls<S>(w: World<S>, client: nat, r: Request<S>)
    requires w.At(client).tx.queue.None? && Sized(r) && !r.command.value.action.Body?
    ensures OnlyTx(w, Serve(w, client, r), client, if r.command.value.action.Multi? then Tx(Some([]), false) else w.At(client).tx)
    ensures Deserved(w, client, r) ==
            match r.command.value.action
            case Multi => Status("OK")
            case Exec => Error("ERR EXEC without MULTI")
            case Discard => Error("ERR DISCARD without MULTI")
  {
    hide Bypasses;
  }

  /** In a transaction everything is queued that does not pass the test on its name. */
  lemma InsideQueues<S>(w: World<S>, client: nat, r: Request<S>)
    requires w.At(client).tx.queue.Some? && Sized(r) && !Bypasses(r.name)
    ensures var tx := w.At(client).tx;
      OnlyTx(w, Serve(w, client, r), client, Tx(Some(tx.queue.value + [r]), tx.errored))
    ensures Deserved(w, client, r) == Bulk(Text("QUEUED"))
  {
    hide Bypasses;
  }

  /** MULTI does not nest; DISCARD ends the transaction, and so does EXEC of a marked one. */
  lemma InsideControls<S>(w: World<S>, client: nat, r: Request<S>)
    requires w.At(client).tx.queue.Some? && Sized(r) && Bypasses(r.name) && !r.command.value.action.Body?
    requires r.command.value.action.Exec? ==> w.At(client).tx.errored
    ensures OnlyTx(w, Serve(w, client, r), client, if r.command.value.action.Multi? then w.At(client).tx else Tx(None, false))
    ensures Deserved(w, client, r) ==
            match r.command.value.action
            case Multi => Error("ERR MULTI calls can not be nested")
            case Exec => Error("EXECABORT Transaction discarded because of previous errors.")
            case Discard => Status("OK")
  {
    hide Bypasses;
  }

  /** EXEC of a clean one runs its queue, first to last, every command handed the database that is current
      at the moment of EXEC, and answers with the replies in that order. */
  lemma ExecRuns<S>(w: World<S>, client: nat, r: Request<S>) returns (stores: seq<S>, dbs: seq<nat>, tokens: seq<Token>)
    requires Sized(r) && Bypasses(r.name) && r.command.value.action.Exec?
    requires var tx := w.At(client).tx; tx.queue.Some? && !tx.errored && AllBodies(tx.queue.value)
    ensures var seat, w' := w.At(client), Serve(w, client, r); var queue := seat.tx.queue.value; var n := |queue|;
      && RunsInTurn(queue, seat.currentDb, stores, dbs, tokens)
      && stores[0] == w.store && dbs[0] == seat.currentDb
      && w'.store == stores[n] && w'.At(client) == Seat(Tx(None, false), dbs[n])
      && Deserved(w, client, r) == Array(tokens)
      && forall d :: d != client ==> w'.At(d) == w.At(d)
  {
    hide Bypasses, RunQueue;
    var seat := w.At(client);
    stores, dbs := QueueInTurn(seat.tx.queue.value, seat.currentDb, seat.currentDb, w.store);
    tokens := RunQueue(seat.tx.queue.value, seat.currentDb, seat.currentDb, w.store).0;
  }

  predicate AllRegistered<S>(rs: seq<Request<S>>) {
    |rs| == 0 || (Registered(rs[0]) && AllRegistered(rs[1..]))
  }

  lemma {:induction false} QueuedAreBodies<S>(rs: seq<Request<S>>)
    requires AllRegistered(rs)
    ensures AllBodies(Queued(rs))
  {
    hide Registered, BadArity, Bypasses;
    if |rs| > 0 {
      QueuedAreBodies(rs[1..]);
      if Queueable(rs[0]) && !rs[0].command.value.action.Body? {
        ControlNamesBypass(rs[0]);
      }
    }
  }

  /** Over any interleaving: the transaction of a client who made no fault since MULTI runs, at EXEC and as
      one step, the client's queueable requests, first to last, on the store of that moment. */
  lemma ExecInTurn<S>(w: World<S>, client: nat, multi: Request<S>, mid: seq<Event<S>>, exec: Request<S>)
    returns (stores: seq<S>, dbs: seq<nat>, tokens: seq<Token>)
    requires Controls(multi, "multi") && Controls(exec, "exec")
    requires w.At(client).tx.queue.None? && !AnyCloses(Own(mid, client))
    requires !AnyFaulty(Own(mid, client)) && AllRegistered(Own(mid, client))
    ensures var before := Run(Serve(w, client, multi), mid); var after := Serve(before, client, exec);
      var queue, db := Queued(Own(mid, client)), before.At(client).currentDb; var n := |queue|;
      && RunsInTurn(queue, db, stores, dbs, tokens)
      && stores[0] == before.store && dbs[0] == db && after.store == stores[n]
      && after.At(client) == Seat(Tx(None, false), dbs[n])
      && Deserved(before, client, exec) == Array(tokens)
  {
    hide Bypasses, BadArity, RunQueue, Queued, AnyFaulty, Own, Run, RunsInTurn, AllBodies;
    ControlNamesBypass(multi);
    ControlNamesBypass(exec);
    var began := Serve(w, client, multi);
    assert began.At(client).tx == Tx(Some([]), false);
    TransactionIsPrivate(began, mid, client);
    OpenTransaction([], false, Own(mid, client));
    assert [] + Queued(Own(mid, client)) == Queued(Own(mid, client));
    QueuedAreBodies(Own(mid, client));
    SizedMeans(exec);
    stores, dbs, tokens := ExecRuns(Run(began, mid), client, exec);
  }

  // ---------------------------------------------------------------- texts

  /** The parameters of an unknown command are quoted one after the other. */
  lemma {:induction false} QuotedInTurn(a: seq<string>, b: seq<string>, param: string)
    ensures Quoted([]) == "" && Quoted([param]) == "`" + param + "`, "
    ensures Quoted(a + b) == Quoted(a) + Quoted(b)
  {
    assert [param][1..] == [];
    if |a| == 0 {
      assert a + b == b;
    } else {
      assert (a + b)[1..] == a[1..] + b;
      QuotedInTurn(a[1..], b, param);
    }
  }

  /** Names are compared without regard to the case of letters. */
  lemma LowerLetters()
    ensures LowerChar('A') == 'a' && LowerChar('Z') == 'z'
    ensures forall c: char, d: char :: 'A' <= c < d <= 'Z' ==>
      'a' <= LowerChar(c) < LowerChar(d) <= 'z' && LowerChar(d) as int - LowerChar(c) as int == d as int - c as int
    ensures forall c: char :: c < 'A' || c > 'Z' ==> LowerChar(c) == c
  {
  }
}
