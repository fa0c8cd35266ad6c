/**
  Every interleaving of Execute calls and connection servers over one broker. A step is one critical
  section, one channel operation or one network call; anything outside the broker's control
  (cancellation, replies, failures) may happen at any time.
 */
module BrokerRuns {
  import opened Options
  import opened CommandBroker

  /** Whoever runs failPending or resolve: an Execute call or the server of a connection. */
  datatype Worker = CallOf(r: Req) | ServerOf(c: Conn)

  /** What a worker has taken out of the pending map and still owes, and the connection to close first. */
  datatype Job = Job(close: Option<Conn>, owed: set<Req>, outcome: Outcome)

  datatype Answer = Cancelled | Got(outcome: Outcome)

  /** Where an Execute call stands; `cancel` tells the cancel frame from the command frame. */
  datatype Phase =
    | Queued(cancel: bool)
    | Writing(cancel: bool)
    | WriteFailed(cancelled: bool)
    | Dropping
    | Failing
    | Waiting
    | Stopped
    | Returned(answer: Answer)

  /** What became of a request's entry in the pending map. */
  datatype Place = Pending | Taken(worker: Worker) | Delivered | Abandoned

  /** A registered request: its channel's content, and how often that channel was sent to. */
  datatype Call = Call(conn: Conn, phase: Phase, place: Place, box: Option<Outcome>, sends: nat)

  datatype Server = Greeting | Busy(ending: bool) | Serving | Gone

  /**
    `holder` names who took the write gate's token; None means the token is in the channel.
    `commands` and `cancels` are the requests whose command and cancel frames were written whole.
   */
  datatype State = State(
    shared: Shared,
    holder: Option<Req>,
    calls: map<Req, Call>,
    servers: map<Conn, Server>,
    jobs: map<Worker, Job>,
    closed: set<Conn>,
    heard: set<(Req, Outcome)>,
    commands: set<Req>,
    cancels: set<Req>)

  const START := State(Shared(None, {}), None, map[], map[], map[], {}, {}, {}, {})

  datatype Event =
    | Execute(r: Req)
    | Acquire(r: Req)
    | GiveUp(r: Req)
    | Wrote(r: Req, ok: bool, cancelled: bool)
    | Remove(r: Req)
    | Drop(r: Req)
    | Interrupt(r: Req)
    | Receive(r: Req)
    | Accept(c: Conn)
    | Reject(c: Conn)
    | Replace(c: Conn)
    | Hear(c: Conn, reply: Reply)
    | Leave(c: Conn)
    | Shutdown(c: Conn)
    | Close(w: Worker)
    | Send(w: Worker, r: Req)
    | Finish(w: Worker)

  predicate In(s: State, r: Req, phase: Phase) {
    r in s.calls && s.calls[r].phase == phase
  }

  predicate Serves(s: State, c: Conn, server: Server) {
    c in s.servers && s.servers[c] == server
  }

  /** A send is enabled only while the channel has room, as in Go. */
  predicate Enabled(s: State, e: Event) {
    match e
    case Execute(r) => r !in s.calls
    case Acquire(r) => r in s.calls && s.calls[r].phase.Queued? && s.holder.None?
    case GiveUp(r) => r in s.calls && s.calls[r].phase.Queued?
    case Wrote(r, ok, cancelled) => r in s.calls && s.calls[r].phase.Writing?
    case Remove(r) => r in s.calls && (s.calls[r].phase.WriteFailed? || s.calls[r].phase.Stopped?)
    case Drop(r) => In(s, r, Dropping)
    case Interrupt(r) => In(s, r, Waiting)
    case Receive(r) => In(s, r, Waiting) && s.calls[r].box.Some?
    case Accept(c) => c !in s.servers
    case Reject(c) => Serves(s, c, Greeting)
    case Replace(c) => Serves(s, c, Greeting)
    case Hear(c, reply) => Serves(s, c, Serving)
    case Leave(c) => Serves(s, c, Serving)
    case Shutdown(c) => c in s.servers && Alive(s.servers[c])
    case Close(w) => w in s.jobs && s.jobs[w].close.Some?
    case Send(w, r) =>
      w in s.jobs && s.jobs[w].close.None? && r in s.jobs[w].owed && r in s.calls && s.calls[r].box.None?
    case Finish(w) => w in s.jobs && s.jobs[w].close.None? && s.jobs[w].owed == {}
  }

  function At(s: State, r: Req, phase: Phase): State
    requires r in s.calls
  {
    s.(calls := s.calls[r := s.calls[r].(phase := phase)])
  }

  function Handed(calls: map<Req, Call>, taken: set<Req>, w: Worker): map<Req, Call> {
    map r | r in calls :: if r in taken then calls[r].(place := Taken(w)) else calls[r]
  }

  /** The worker takes requests out of the pending map, to be failed after `close` is closed. */
  function Takes(s: State, w: Worker, shared: Shared, close: Option<Conn>, taken: set<Req>, outcome: Outcome): State {
    s.(shared := shared, calls := Handed(s.calls, taken, w), jobs := s.jobs[w := Job(close, taken, outcome)])
  }

  function Written(s: State, r: Req, ok: bool, cancelled: bool): State
    requires r in s.calls && s.calls[r].phase.Writing?
  {
    var phase :=
      if s.calls[r].phase.cancel then Returned(Cancelled)
      else if ok then Waiting
      else WriteFailed(cancelled);
    var t := s.(holder := None);
    At(if !ok then t
       else if s.calls[r].phase.cancel then t.(cancels := s.cancels + {r})
       else t.(commands := s.commands + {r}), r, phase)
  }

  function Withdrawn(s: State, r: Req): State
    requires r in s.calls
  {
    var call := s.calls[r];
    var phase :=
      if call.phase.Stopped? then Queued(true)
      else if call.phase == WriteFailed(true) then Returned(Cancelled)
      else Dropping;
    var place := if r in s.shared.pending then Abandoned else call.place;
    s.(shared := Removed(s.shared, r), calls := s.calls[r := call.(phase := phase, place := place)])
  }

  function Dropped(s: State, r: Req): State
    requires r in s.calls
  {
    var c := s.calls[r].conn;
    if s.shared.conn != Some(c) then At(s, r, Returned(Got(Unavailable)))
    else At(Takes(s, CallOf(r), Cleared(s.shared, c), Some(c), s.shared.pending, Unavailable), r, Failing)
  }

  function Heard(s: State, c: Conn, m: Reply): State
    requires Serves(s, c, Serving)
  {
    var t := s.(heard := s.heard + {(m.id, OutcomeOf(m))});
    if m.id !in s.shared.pending then t
    else
      Takes(t, ServerOf(c), Removed(s.shared, m.id), None, {m.id}, OutcomeOf(m))
        .(servers := s.servers[c := Busy(false)])
  }

  function Left(s: State, c: Conn): State {
    if s.shared.conn != Some(c) then s.(servers := s.servers[c := Gone])
    else
      Takes(s, ServerOf(c), Cleared(s.shared, c), Some(c), s.shared.pending, Unavailable)
        .(servers := s.servers[c := Busy(true)])
  }

  function Sent(s: State, w: Worker, r: Req): State
    requires Enabled(s, Send(w, r))
  {
    var call := s.calls[r];
    s.(calls := s.calls[r := call.(place := Delivered, box := Some(s.jobs[w].outcome), sends := call.sends + 1)],
      jobs := s.jobs[w := s.jobs[w].(owed := s.jobs[w].owed - {r})])
  }

  function Finished(s: State, w: Worker): State {
    var t := s.(jobs := s.jobs - {w});
    match w
    case CallOf(r) => if r in s.calls then At(t, r, Returned(Got(Unavailable))) else t
    case ServerOf(c) =>
      t.(servers := s.servers[c := if Serves(s, c, Busy(true)) then Gone else Serving])
  }

  function Step(s: State, e: Event): State
    requires Enabled(s, e)
  {
    match e
    case Execute(r) =>
      if s.shared.conn.None? then s
      else
        s.(shared := Registered(s.shared, r),
          calls := s.calls[r := Call(s.shared.conn.value, Queued(false), Pending, None, 0)])
    case Acquire(r) => At(s.(holder := Some(r)), r, Writing(s.calls[r].phase.cancel))
    case GiveUp(r) => At(s, r, if s.calls[r].phase.cancel then Returned(Cancelled) else WriteFailed(true))
    case Wrote(r, ok, cancelled) => Written(s, r, ok, cancelled)
    case Remove(r) => Withdrawn(s, r)
    case Drop(r) => Dropped(s, r)
    case Interrupt(r) => At(s, r, Stopped)
    case Receive(r) =>
      s.(calls := s.calls[r := s.calls[r].(phase := Returned(Got(s.calls[r].box.value)), box := None)])
    case Accept(c) => s.(servers := s.servers[c := Greeting])
    case Reject(c) => s.(servers := s.servers[c := Gone], closed := s.closed + {c})
    case Replace(c) =>
      Takes(s, ServerOf(c), Replaced(s.shared, c), s.shared.conn, s.shared.pending, Unavailable)
        .(servers := s.servers[c := Busy(false)])
    case Hear(c, reply) => Heard(s, c, reply)
    case Leave(c) => Left(s, c)
    case Shutdown(c) => s.(closed := s.closed + {c})
    case Close(w) =>
      s.(closed := s.closed + {s.jobs[w].close.value}, jobs := s.jobs[w := s.jobs[w].(close := None)])
    case Send(w, r) => Sent(s, w, r)
    case Finish(w) => Finished(s, w)
  }

  function Do(s: State, e: Event): State {
    if Enabled(s, e) then Step(s, e) else s
  }

  function Run(s: State, es: seq<Event>): State
    decreases |es|
  {
    if es == [] then s else Do(Run(s, es[..|es| - 1]), es[|es| - 1])
  }

  // ---------- the invariant ----------

  /** The call has removed its own entry, or was told it never needs to. */
  predicate PastRemoval(p: Phase) {
    p.Dropping? || p.Failing? || p.Returned? || p == Queued(true) || p == Writing(true)
  }

  /** The command frame is out: the caller waits, or has stopped waiting and cancels. */
  predicate PastCommand(p: Phase) {
    p.Waiting? || p.Stopped? || p == Queued(true) || p == Writing(true)
  }

  /** An outcome is "unavailable" or the content of a reply that named this very request. */
  predicate Answers(s: State, r: Req, o: Outcome) {
    o == Unavailable || (r, o) in s.heard
  }

  ghost predicate CallOk(s: State, r: Req) {
    r in s.calls ==>
      var call := s.calls[r];
      && (r in s.shared.pending <==> call.place == Pending)
      && (call.place.Pending? ==> s.shared.conn == Some(call.conn) && !PastRemoval(call.phase))
      && (call.place.Taken? ==> call.place.worker in s.jobs && r in s.jobs[call.place.worker].owed)
      && (call.place.Abandoned? ==> PastRemoval(call.phase))
      && call.sends == (if call.place.Delivered? then 1 else 0)
      && (call.box.Some? ==> call.place.Delivered? && Answers(s, r, call.box.value))
      && (call.place.Delivered? && call.box.None? ==> call.phase.Returned?)
      && (call.phase.Returned? && call.phase.answer.Got? ==> Answers(s, r, call.phase.answer.outcome))
      && (call.phase.Failing? <==> CallOf(r) in s.jobs)
      && (call.phase.Writing? <==> s.holder == Some(r))
      && (if PastCommand(call.phase) then r in s.commands else call.phase.Returned? || r !in s.commands)
      && (r in s.cancels ==> r in s.commands && call.phase == Returned(Cancelled))
  }

  ghost predicate JobOk(s: State, w: Worker) {
    w in s.jobs ==>
      && (forall r :: r in s.jobs[w].owed ==> r in s.calls && s.calls[r].place == Taken(w) && Answers(s, r, s.jobs[w].outcome))
      && (w.CallOf? ==> w.r in s.calls)
      && (w.ServerOf? ==> w.c in s.servers)
  }

  predicate Alive(server: Server) {
    server.Busy? || server.Serving?
  }

  ghost predicate BeingClosed(s: State, c: Conn) {
    c in s.closed || exists w :: w in s.jobs && s.jobs[w].close == Some(c)
  }

  /** A connection that has been replaced or dropped is closed, or its replacer is about to close it. */
  ghost predicate ServerOk(s: State, c: Conn) {
    c in s.servers ==>
      && (s.servers[c].Busy? <==> ServerOf(c) in s.jobs)
      && (Alive(s.servers[c]) && s.shared.conn != Some(c) ==> BeingClosed(s, c))
  }

  ghost predicate SharedOk(s: State) {
    && Settled(s.shared)
    && s.shared.pending <= s.calls.Keys
    && s.commands <= s.calls.Keys
    && s.cancels <= s.calls.Keys
    && (s.holder.Some? ==> s.holder.value in s.calls)
    && (s.shared.conn.Some? ==>
        var c := s.shared.conn.value; Serves(s, c, Serving) || Serves(s, c, Busy(false)))
  }

  ghost predicate Inv(s: State) {
    && SharedOk(s)
    && (forall r :: CallOk(s, r))
    && (forall w :: JobOk(s, w))
    && (forall c :: ServerOk(s, c))
  }

  // ---------- every step keeps it ----------

  lemma AcquireKeeps(s: State, r: Req)
    requires Inv(s) && Enabled(s, Acquire(r))
    ensures Inv(Step(s, Acquire(r)))
  {
    var t := Step(s, Acquire(r));
    assert CallOk(s, r);
    forall q ensures CallOk(t, q) {
      assert CallOk(s, q);
    }
    SameJobsKeep(s, t);
  }

  lemma WroteKeepsCall(s: State, r: Req, ok: bool, cancelled: bool)
    requires Inv(s) && Enabled(s, Wrote(r, ok, cancelled))
    ensures CallOk(Step(s, Wrote(r, ok, cancelled)), r)
  {
    assert CallOk(s, r);
  }

  lemma WroteKeeps(s: State, r: Req, ok: bool, cancelled: bool)
    requires Inv(s) && Enabled(s, Wrote(r, ok, cancelled))
    ensures Inv(Step(s, Wrote(r, ok, cancelled)))
  {
    var t := Step(s, Wrote(r, ok, cancelled));
    WroteKeepsCall(s, r, ok, cancelled);
    forall q ensures CallOk(t, q) {
      if q != r {
        assert CallOk(s, q) && CallOk(s, r);
      }
    }
    SameJobsKeep(s, t);
  }

  lemma WaitKeeps(s: State, e: Event, r: Req)
    requires Inv(s) && Enabled(s, e) && (e == GiveUp(r) || e == Interrupt(r) || e == Receive(r))
    ensures Inv(Step(s, e))
  {
    var t := Step(s, e);
    assert CallOk(s, r);
    forall q ensures CallOk(t, q) {
      assert CallOk(s, q);
    }
    SameJobsKeep(s, t);
  }

  /** Calls that keep their place, and servers and jobs that do not change, keep the rest. */
  lemma SameJobsKeep(s: State, t: State)
    requires Inv(s)
    requires t.jobs == s.jobs && t.servers == s.servers && t.shared.conn == s.shared.conn
    requires s.closed <= t.closed && s.heard <= t.heard
    requires s.calls.Keys <= t.calls.Keys
    requires forall q :: q in s.calls && s.calls[q].place.Taken? ==> t.calls[q].place == s.calls[q].place
    ensures forall w :: JobOk(t, w)
    ensures forall c :: ServerOk(t, c)
  {
    forall w ensures JobOk(t, w) {
      assert JobOk(s, w);
    }
    forall c ensures ServerOk(t, c) {
      assert ServerOk(s, c);
    }
  }

  lemma ExecuteKeeps(s: State, r: Req)
    requires Inv(s) && Enabled(s, Execute(r))
    ensures Inv(Step(s, Execute(r)))
  {
    var t := Step(s, Execute(r));
    assert JobOk(s, CallOf(r));
    forall q ensures CallOk(t, q) {
      assert CallOk(s, q);
    }
    SameJobsKeep(s, t);
  }

  lemma RemoveKeeps(s: State, r: Req)
    requires Inv(s) && Enabled(s, Remove(r))
    ensures Inv(Step(s, Remove(r)))
  {
    var t := Step(s, Remove(r));
    assert CallOk(s, r);
    forall q ensures CallOk(t, q) {
      assert CallOk(s, q);
    }
    SameJobsKeep(s, t);
  }

  /** Taking requests that were all pending, by a worker that had no job. */
  lemma TakesKeeps(s: State, w: Worker, shared: Shared, close: Option<Conn>, taken: set<Req>, o: Outcome)
    requires Inv(s) && w !in s.jobs
    requires taken <= s.shared.pending && shared.pending == s.shared.pending - taken
    requires shared.pending != {} ==> shared.conn == s.shared.conn
    requires forall r :: r in taken ==> Answers(s, r, o)
    ensures forall q :: w != CallOf(q) ==> CallOk(Takes(s, w, shared, close, taken, o), q)
    ensures forall v :: v != w ==> JobOk(Takes(s, w, shared, close, taken, o), v)
    ensures forall r :: r in taken ==> r in s.calls && Handed(s.calls, taken, w)[r].place == Taken(w)
  {
    var t := Takes(s, w, shared, close, taken, o);
    forall q | w != CallOf(q) ensures CallOk(t, q) {
      assert CallOk(s, q);
    }
    forall v | v != w ensures JobOk(t, v) {
      assert JobOk(s, v);
      forall r | v in s.jobs && r in s.jobs[v].owed ensures r !in taken {
        assert CallOk(s, r);
      }
    }
  }

  /** Whoever stops being the current connection is the one the taking worker will close. */
  lemma TakesKeepsServers(s: State, w: Worker, shared: Shared, close: Option<Conn>, taken: set<Req>, o: Outcome)
    requires Inv(s) && w !in s.jobs
    requires s.shared.conn.Some? && shared.conn != s.shared.conn ==> close == s.shared.conn
    ensures forall c :: w != ServerOf(c) ==> ServerOk(Takes(s, w, shared, close, taken, o), c)
    ensures forall c :: w == ServerOf(c) && c in s.servers && Alive(s.servers[c]) ==>
      shared.conn == Some(c) || BeingClosed(Takes(s, w, shared, close, taken, o), c)
  {
    var t := Takes(s, w, shared, close, taken, o);
    assert close.Some? ==> w in t.jobs && t.jobs[w].close == close;
    forall c | c in s.servers && Alive(s.servers[c]) && shared.conn != Some(c)
      ensures BeingClosed(t, c)
    {
      assert ServerOk(s, c);
      if s.shared.conn != Some(c) && c !in s.closed {
        var v :| v in s.jobs && s.jobs[v].close == Some(c);
        assert v in t.jobs && t.jobs[v].close == Some(c);
      }
    }
    forall c | w != ServerOf(c)
      ensures ServerOk(t, c)
    {
      assert ServerOk(s, c);
    }
  }

  /** Server states change only for the worker's own connection. */
  lemma ServingKeeps(s: State, t: State, c: Conn, server: Server)
    requires t == s.(servers := s.servers[c := server])
    requires SharedOk(t) && forall r :: CallOk(s, r)
    requires forall w :: JobOk(s, w) || w == ServerOf(c)
    requires forall d :: d == c || ServerOk(s, d)
    requires JobOk(t, ServerOf(c)) && ServerOk(t, c)
    ensures Inv(t)
  {
    forall r ensures CallOk(t, r) {
      assert CallOk(s, r);
    }
    forall w ensures JobOk(t, w) {
      assert JobOk(s, w) || w == ServerOf(c);
    }
    forall d ensures ServerOk(t, d) {
      assert d == c || ServerOk(s, d);
      if d != c && d in t.servers && BeingClosed(s, d) {
        assert BeingClosed(t, d);
      }
    }
  }

  lemma DropKeeps(s: State, r: Req)
    requires Inv(s) && Enabled(s, Drop(r))
    ensures Inv(Step(s, Drop(r)))
  {
    var t := Step(s, Drop(r));
    assert CallOk(s, r);
    var c := s.calls[r].conn;
    if s.shared.conn == Some(c) {
      var u := Takes(s, CallOf(r), Cleared(s.shared, c), Some(c), s.shared.pending, Unavailable);
      TakesKeeps(s, CallOf(r), Cleared(s.shared, c), Some(c), s.shared.pending, Unavailable);
      TakesKeepsServers(s, CallOf(r), Cleared(s.shared, c), Some(c), s.shared.pending, Unavailable);
      forall q ensures CallOk(t, q) {
        assert q != r ==> CallOk(u, q);
      }
      forall w ensures JobOk(t, w) {
        assert w != CallOf(r) ==> JobOk(u, w);
      }
      forall d ensures ServerOk(t, d) {
        assert ServerOk(u, d);
        assert BeingClosed(u, d) ==> BeingClosed(t, d);
      }
    } else {
      forall q ensures CallOk(t, q) {
        assert CallOk(s, q);
      }
      SameJobsKeep(s, t);
    }
  }

  lemma ReplaceKeeps(s: State, c: Conn)
    requires Inv(s) && Enabled(s, Replace(c))
    ensures Inv(Step(s, Replace(c)))
  {
    assert ServerOk(s, c);
    var w := ServerOf(c);
    var u := Takes(s, w, Replaced(s.shared, c), s.shared.conn, s.shared.pending, Unavailable);
    TakesKeeps(s, w, Replaced(s.shared, c), s.shared.conn, s.shared.pending, Unavailable);
    TakesKeepsServers(s, w, Replaced(s.shared, c), s.shared.conn, s.shared.pending, Unavailable);
    ServingKeeps(u, Step(s, Replace(c)), c, Busy(false));
  }

  lemma LeaveKeeps(s: State, c: Conn)
    requires Inv(s) && Enabled(s, Leave(c))
    ensures Inv(Step(s, Leave(c)))
  {
    assert ServerOk(s, c) && JobOk(s, ServerOf(c));
    if s.shared.conn == Some(c) {
      var w := ServerOf(c);
      var u := Takes(s, w, Cleared(s.shared, c), Some(c), s.shared.pending, Unavailable);
      TakesKeeps(s, w, Cleared(s.shared, c), Some(c), s.shared.pending, Unavailable);
      TakesKeepsServers(s, w, Cleared(s.shared, c), Some(c), s.shared.pending, Unavailable);
      assert BeingClosed(u, c) ==> BeingClosed(Step(s, Leave(c)), c);
      ServingKeeps(u, Step(s, Leave(c)), c, Busy(true));
    } else {
      ServingKeeps(s, Step(s, Leave(c)), c, Gone);
    }
  }

  /** Hearing more only makes more outcomes answers. */
  lemma HearingMoreKeeps(s: State, t: State)
    requires Inv(s) && s.heard <= t.heard && t == s.(heard := t.heard)
    ensures Inv(t)
  {
    forall q ensures CallOk(t, q) {
      assert CallOk(s, q);
    }
    SameJobsKeep(s, t);
  }

  lemma HearKeeps(s: State, c: Conn, m: Reply)
    requires Inv(s) && Enabled(s, Hear(c, m))
    ensures Inv(Step(s, Hear(c, m)))
  {
    var t := s.(heard := s.heard + {(m.id, OutcomeOf(m))});
    HearingMoreKeeps(s, t);
    if m.id in s.shared.pending {
      assert ServerOk(t, c);
      var w := ServerOf(c);
      var u := Takes(t, w, Removed(s.shared, m.id), None, {m.id}, OutcomeOf(m));
      TakesKeeps(t, w, Removed(s.shared, m.id), None, {m.id}, OutcomeOf(m));
      TakesKeepsServers(t, w, Removed(s.shared, m.id), None, {m.id}, OutcomeOf(m));
      assert BeingClosed(u, c) ==> BeingClosed(Step(s, Hear(c, m)), c);
      ServingKeeps(u, Step(s, Hear(c, m)), c, Busy(false));
    }
  }

  lemma AcceptKeeps(s: State, c: Conn)
    requires Inv(s) && Enabled(s, Accept(c))
    ensures Inv(Step(s, Accept(c)))
  {
    assert JobOk(s, ServerOf(c)) && ServerOk(s, c);
    ServingKeeps(s, Step(s, Accept(c)), c, Greeting);
  }

  lemma ClosingMoreKeeps(s: State, t: State)
    requires Inv(s) && s.closed <= t.closed && t == s.(closed := t.closed)
    ensures Inv(t)
  {
    forall q ensures CallOk(t, q) {
      assert CallOk(s, q);
    }
    SameJobsKeep(s, t);
  }

  lemma RejectKeeps(s: State, c: Conn)
    requires Inv(s) && Enabled(s, Reject(c))
    ensures Inv(Step(s, Reject(c)))
  {
    var t := s.(closed := s.closed + {c});
    ClosingMoreKeeps(s, t);
    assert JobOk(t, ServerOf(c)) && ServerOk(t, c);
    ServingKeeps(t, Step(s, Reject(c)), c, Gone);
  }

  lemma CloseKeeps(s: State, w: Worker)
    requires Inv(s) && Enabled(s, Close(w))
    ensures Inv(Step(s, Close(w)))
  {
    var t := Step(s, Close(w));
    forall q ensures CallOk(t, q) {
      assert CallOk(s, q);
    }
    forall v ensures JobOk(t, v) {
      assert JobOk(s, v);
    }
    forall c ensures ServerOk(t, c) {
      assert ServerOk(s, c);
      if BeingClosed(s, c) && c !in t.closed {
        var v :| v in s.jobs && s.jobs[v].close == Some(c);
        assert v in t.jobs && t.jobs[v].close == Some(c);
      }
    }
  }

  lemma SendKeeps(s: State, w: Worker, r: Req)
    requires Inv(s) && Enabled(s, Send(w, r))
    ensures Inv(Step(s, Send(w, r)))
  {
    var t := Step(s, Send(w, r));
    assert JobOk(s, w) && CallOk(s, r);
    forall q ensures CallOk(t, q) {
      assert CallOk(s, q);
    }
    forall v ensures JobOk(t, v) {
      assert JobOk(s, v);
    }
    forall c ensures ServerOk(t, c) {
      assert ServerOk(s, c);
      if BeingClosed(s, c) && c !in t.closed {
        var v :| v in s.jobs && s.jobs[v].close == Some(c);
        assert v in t.jobs && t.jobs[v].close == Some(c);
      }
    }
  }

  /** Retiring a job that owes nothing and closes nothing. */
  lemma RetireKeeps(s: State, w: Worker)
    requires Inv(s) && Enabled(s, Finish(w))
    ensures forall q :: w == CallOf(q) || CallOk(s.(jobs := s.jobs - {w}), q)
    ensures forall v :: JobOk(s.(jobs := s.jobs - {w}), v)
    ensures forall c :: w == ServerOf(c) || ServerOk(s.(jobs := s.jobs - {w}), c)
    ensures forall c :: w == ServerOf(c) && BeingClosed(s, c) ==> BeingClosed(s.(jobs := s.jobs - {w}), c)
  {
    var t := s.(jobs := s.jobs - {w});
    forall q | w != CallOf(q) ensures CallOk(t, q) {
      assert CallOk(s, q);
    }
    forall v ensures JobOk(t, v) {
      assert JobOk(s, v);
    }
    forall c | BeingClosed(s, c) ensures BeingClosed(t, c) {
      if c !in t.closed {
        var v :| v in s.jobs && s.jobs[v].close == Some(c);
        assert v in t.jobs && t.jobs[v].close == Some(c);
      }
    }
    forall c | w != ServerOf(c) ensures ServerOk(t, c) {
      assert ServerOk(s, c);
    }
  }

  lemma FinishKeeps(s: State, w: Worker)
    requires Inv(s) && Enabled(s, Finish(w))
    ensures Inv(Step(s, Finish(w)))
  {
    var t := s.(jobs := s.jobs - {w});
    RetireKeeps(s, w);
    assert JobOk(s, w);
    match w {
      case CallOf(r) =>
        var u := At(t, r, Returned(Got(Unavailable)));
        assert CallOk(s, r);
        forall q ensures CallOk(u, q) {
          assert q != r ==> CallOk(t, q);
        }
        forall v ensures JobOk(u, v) {
          assert JobOk(t, v);
        }
        forall c ensures ServerOk(u, c) {
          assert ServerOk(t, c);
          assert BeingClosed(t, c) ==> BeingClosed(u, c);
        }
      case ServerOf(c) =>
        var server := if Serves(s, c, Busy(true)) then Gone else Serving;
        var u := t.(servers := s.servers[c := server]);
        assert ServerOk(s, c);
        assert BeingClosed(t, c) ==> BeingClosed(u, c);
        ServingKeeps(t, u, c, server);
    }
  }

  lemma StepKeeps(s: State, e: Event)
    requires Inv(s)
    ensures Inv(Do(s, e))
  {
    if Enabled(s, e) {
      match e {
        case Execute(r) => ExecuteKeeps(s, r);
        case Acquire(r) => AcquireKeeps(s, r);
        case GiveUp(r) => WaitKeeps(s, e, r);
        case Wrote(r, ok, cancelled) => WroteKeeps(s, r, ok, cancelled);
        case Remove(r) => RemoveKeeps(s, r);
        case Drop(r) => DropKeeps(s, r);
        case Interrupt(r) => WaitKeeps(s, e, r);
        case Receive(r) => WaitKeeps(s, e, r);
        case Accept(c) => AcceptKeeps(s, c);
        case Reject(c) => RejectKeeps(s, c);
        case Replace(c) => ReplaceKeeps(s, c);
        case Hear(c, m) => HearKeeps(s, c, m);
        case Leave(c) => LeaveKeeps(s, c);
        case Shutdown(c) => ClosingMoreKeeps(s, Step(s, e));
        case Close(w) => CloseKeeps(s, w);
        case Send(w, r) => SendKeeps(s, w, r);
        case Finish(w) => FinishKeeps(s, w);
      }
    }
  }

  lemma {:induction false} RunKeeps(s: State, es: seq<Event>)
    requires Inv(s)
    ensures Inv(Run(s, es))
    decreases |es|
  {
    if es != [] {
      RunKeeps(s, es[..|es| - 1]);
      StepKeeps(Run(s, es[..|es| - 1]), es[|es| - 1]);
    }
  }
}
