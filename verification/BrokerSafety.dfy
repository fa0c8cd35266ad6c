/** What every run of the broker guarantees its callers. */
module BrokerSafety {
  import opened Options
  import opened CommandBroker
  import opened BrokerRuns

  ghost predicate Reached(s: State, es: seq<Event>) {
    s == Run(START, es)
  }

  lemma ReachedIsOk(s: State, es: seq<Event>)
    requires Reached(s, es)
    ensures Inv(s)
  {
    assert Inv(START);
    RunKeeps(START, es);
  }

  predicate Owes(s: State, w: Worker, r: Req) {
    w in s.jobs && r in s.jobs[w].owed
  }

  /**
    Every registered request is in exactly one place: pending, owed by one worker, sent its one
    result, or withdrawn by its own caller, who no longer waits.
   */
  lemma ExactlyOnePlace(s: State, es: seq<Event>, r: Req)
    requires Reached(s, es) && r in s.calls
    ensures s.calls[r].sends <= 1
    ensures r in s.shared.pending ==>
      s.calls[r].sends == 0 && !PastRemoval(s.calls[r].phase) && forall w :: !Owes(s, w, r)
    ensures forall w :: Owes(s, w, r) ==>
      r !in s.shared.pending && s.calls[r].sends == 0 && forall v :: Owes(s, v, r) ==> v == w
    ensures r !in s.shared.pending && s.calls[r].sends == 0 && (forall w :: !Owes(s, w, r)) ==>
      PastRemoval(s.calls[r].phase)
  {
    ReachedIsOk(s, es);
    assert CallOk(s, r);
    forall w | Owes(s, w, r)
      ensures s.calls[r].place == Taken(w)
    {
      assert JobOk(s, w);
    }
    if s.calls[r].place.Taken? {
      assert Owes(s, s.calls[r].place.worker, r);
    }
  }

  /** No send ever finds its channel full. */
  lemma NoSendBlocks(s: State, es: seq<Event>, w: Worker, r: Req)
    requires Reached(s, es) && Owes(s, w, r) && s.jobs[w].close.None?
    ensures Enabled(s, Send(w, r))
  {
    ReachedIsOk(s, es);
    assert JobOk(s, w) && CallOk(s, r);
  }

  /** A caller that waits on an empty channel is owed a result, or its own connection is still served. */
  lemma NobodyIsStranded(s: State, es: seq<Event>, r: Req)
    requires Reached(s, es) && In(s, r, Waiting) && s.calls[r].box.None?
    ensures (exists w :: Owes(s, w, r)) ||
      (r in s.shared.pending && s.shared.conn == Some(s.calls[r].conn) &&
        (Serves(s, s.calls[r].conn, Serving) || Serves(s, s.calls[r].conn, Busy(false))))
  {
    ReachedIsOk(s, es);
    assert CallOk(s, r);
    if s.calls[r].place.Taken? {
      assert Owes(s, s.calls[r].place.worker, r);
    }
  }

  /** Pending commands belong to the current connection; without one there are none. */
  lemma PendingIsCurrent(s: State, es: seq<Event>)
    requires Reached(s, es)
    ensures s.shared.conn.None? ==> s.shared.pending == {}
    ensures forall r :: r in s.shared.pending ==> r in s.calls && s.shared.conn == Some(s.calls[r].conn)
  {
    ReachedIsOk(s, es);
    forall r | r in s.shared.pending
      ensures r in s.calls && s.shared.conn == Some(s.calls[r].conn)
    {
      assert CallOk(s, r);
    }
  }

  /** One frame at a time, and a missing token is held by a call that is about to give it back. */
  lemma GateIsExclusive(s: State, es: seq<Event>)
    requires Reached(s, es)
    ensures forall r, q :: r in s.calls && q in s.calls && s.calls[r].phase.Writing? && s.calls[q].phase.Writing? ==> r == q
    ensures s.holder.Some? <==> exists r :: r in s.calls && s.calls[r].phase.Writing?
  {
    ReachedIsOk(s, es);
    forall r | r in s.calls
      ensures s.calls[r].phase.Writing? <==> s.holder == Some(r)
    {
      assert CallOk(s, r);
    }
  }

  /**
    A caller waits only for a command that was written whole, and a cancel frame follows the command
    it cancels, of a call that then reports cancellation.
   */
  lemma FramesInOrder(s: State, es: seq<Event>, r: Req)
    requires Reached(s, es)
    ensures In(s, r, Waiting) ==> r in s.commands
    ensures r in s.cancels ==> r in s.commands && In(s, r, Returned(Cancelled))
  {
    ReachedIsOk(s, es);
    assert CallOk(s, r);
  }

  /**
    A call drops the connection only after a write of its own that failed while its context showed no
    error, if only because the deadline that cut the write short had not been noticed yet.
   */
  lemma {:induction false} DropsAfterFailedWrite(s: State, es: seq<Event>, r: Req)
    requires Reached(s, es) && (In(s, r, Dropping) || In(s, r, WriteFailed(false)))
    ensures exists i :: 0 <= i < |es| && es[i] == Wrote(r, false, false)
    decreases |es|
  {
    var n := |es| - 1;
    if Enabled(Run(START, es[..n]), es[n]) {
      NewlyFailed(Run(START, es[..n]), es[n], r);
    }
    if es[n] != Wrote(r, false, false) {
      DropsAfterFailedWrite(Run(START, es[..n]), es[..n], r);
      var i :| 0 <= i < n && es[..n][i] == Wrote(r, false, false);
      assert es[i] == Wrote(r, false, false);
    }
  }

  lemma NewlyFailed(s: State, e: Event, r: Req)
    requires Enabled(s, e) && (In(Step(s, e), r, Dropping) || In(Step(s, e), r, WriteFailed(false)))
    ensures e == Wrote(r, false, false) || In(s, r, Dropping) || In(s, r, WriteFailed(false))
  {
  }

  // ---------- what a caller is told ----------

  /** The reply says so: its own error or the default one, its result, an empty object for none, or garbage. */
  predicate Tells(m: Reply, o: Outcome) {
    match o
    case Value(x) => m.ok && (m.result == Decodable(x) || ((m.result.Absent? || m.result.Null?) && x == "{}"))
    case CommandFailed(f) =>
      !m.ok && (m.error == Some(f) || (m.error.None? && f == Fault("BROWSER_COMMAND_FAILED", "Browser command failed")))
    case Undecodable => m.ok && m.result.Malformed?
    case Unavailable => false
  }

  lemma NewlyHeard(s: State, e: Event, r: Req, o: Outcome)
    requires Enabled(s, e) && (r, o) in Step(s, e).heard
    ensures (r, o) in s.heard || (e.Hear? && e.reply.id == r && Tells(e.reply, o))
  {
  }

  /**
    What a caller gets is "unavailable" or what a reply that named its request tells: success only for a
    reply that reports success, with that reply's own result, and failure only for one that reports it.
   */
  lemma AnswersAreCorrelated(s: State, es: seq<Event>, r: Req, o: Outcome)
    requires Reached(s, es) && In(s, r, Returned(Got(o)))
    ensures o == Unavailable || exists i, c, m :: 0 <= i < |es| && es[i] == Hear(c, m) && m.id == r && Tells(m, o)
  {
    ReachedIsOk(s, es);
    assert CallOk(s, r);
    if o != Unavailable {
      HeardWasHeard(s, es, r, o);
    }
  }

  lemma {:induction false} HeardWasHeard(s: State, es: seq<Event>, r: Req, o: Outcome)
    requires Reached(s, es) && (r, o) in s.heard
    ensures exists i, c, m :: 0 <= i < |es| && es[i] == Hear(c, m) && m.id == r && Tells(m, o)
    decreases |es|
  {
    var n := |es| - 1;
    if Enabled(Run(START, es[..n]), es[n]) {
      NewlyHeard(Run(START, es[..n]), es[n], r, o);
    }
    if (r, o) in Run(START, es[..n]).heard {
      HeardWasHeard(Run(START, es[..n]), es[..n], r, o);
      var i, c, m :| 0 <= i < n && es[..n][i] == Hear(c, m) && m.id == r && Tells(m, o);
      assert es[i] == Hear(c, m);
    } else {
      assert es[n] == Hear(es[n].c, es[n].reply);
    }
  }

  /** The call is past its own failed write, and about to answer "unavailable" for that reason. */
  predicate GivingUp(s: State, r: Req) {
    In(s, r, WriteFailed(false)) || In(s, r, Dropping) || In(s, r, Failing)
  }

  /** The request was taken out of the pending map for this outcome, and is sent nothing else. */
  predicate BoundTo(s: State, r: Req, o: Outcome) {
    r in s.calls && (s.calls[r].place.Taken? || s.calls[r].place.Delivered?) &&
    (s.calls[r].place.Taken? ==> s.calls[r].place.worker in s.jobs && s.jobs[s.calls[r].place.worker].outcome == o) &&
    (s.calls[r].box.Some? ==> s.calls[r].box.value == o)
  }

  /** A worker that has taken a request keeps it for the same outcome until it sends that. */
  lemma TakenWorkerKeepsItsJob(s: State, e: Event, r: Req)
    requires Inv(s) && Enabled(s, e) && r in s.calls && s.calls[r].place.Taken? && s.calls[r].place.worker in s.jobs
    ensures var w, t := s.calls[r].place.worker, Step(s, e);
      r in t.calls && (t.calls[r].place == s.calls[r].place || (e == Send(w, r) && t.calls[r].place.Delivered?)) &&
      (t.calls[r].place.Taken? ==> w in t.jobs && t.jobs[w].outcome == s.jobs[w].outcome) &&
      (t.calls[r].box.Some? ==> t.calls[r].box.value == s.jobs[w].outcome)
  {
    assert CallOk(s, r) && JobOk(s, s.calls[r].place.worker);
    match e {
      case Send(w, q) => assert JobOk(s, w);
      case Drop(q) => assert CallOk(s, q);
      case Replace(c) => assert ServerOk(s, c);
      case Leave(c) => assert ServerOk(s, c);
      case Hear(c, m) => assert ServerOk(s, c);
      case _ =>
    }
  }

  /** What has been delivered is not replaced. */
  lemma DeliveredStays(s: State, e: Event, r: Req)
    requires Inv(s) && Enabled(s, e) && r in s.calls && s.calls[r].place.Delivered?
    ensures var t := Step(s, e);
      r in t.calls && t.calls[r].place.Delivered? && (t.calls[r].box.Some? ==> t.calls[r].box == s.calls[r].box)
  {
    assert CallOk(s, r);
    if e.Send? {
      assert JobOk(s, e.w);
    }
  }

  lemma StaysBound(s: State, e: Event, r: Req, o: Outcome)
    requires Inv(s) && Enabled(s, e) && BoundTo(s, r, o)
    ensures BoundTo(Step(s, e), r, o)
  {
    if s.calls[r].place.Taken? {
      TakenWorkerKeepsItsJob(s, e, r);
    } else {
      DeliveredStays(s, e, r);
    }
  }

  /** What a bound call returns it was bound to, if it is not giving up. */
  lemma ReturnsWhatItIsBoundTo(s: State, e: Event, r: Req, o: Outcome, p: Outcome)
    requires Inv(s) && Enabled(s, e) && BoundTo(s, r, o) && In(Step(s, e), r, Returned(Got(p)))
    ensures p == o || GivingUp(s, r) || In(s, r, Returned(Got(p)))
  {
    assert CallOk(s, r);
  }

  lemma NewlyFailing(s: State, e: Event, r: Req)
    requires Enabled(s, e) && In(Step(s, e), r, Failing)
    ensures In(s, r, Failing) || In(s, r, Dropping)
  {
  }

  lemma {:induction false} GaveUpAfterFailedWrite(s: State, es: seq<Event>, r: Req)
    requires Reached(s, es) && GivingUp(s, r)
    ensures exists i :: 0 <= i < |es| && es[i] == Wrote(r, false, false)
    decreases |es|
  {
    if In(s, r, Failing) {
      var n := |es| - 1;
      var before := Run(START, es[..n]);
      if Enabled(before, es[n]) {
        NewlyFailing(before, es[n], r);
      }
      GaveUpAfterFailedWrite(before, es[..n], r);
      var i :| 0 <= i < n && es[..n][i] == Wrote(r, false, false);
      assert es[i] == Wrote(r, false, false);
    } else {
      DropsAfterFailedWrite(s, es, r);
    }
  }

  /** The i-th event takes the pending request for the outcome. */
  predicate Binds(es: seq<Event>, i: nat, r: Req, o: Outcome) {
    i < |es| && r in Run(START, es[..i]).shared.pending && BoundTo(Run(START, es[..i + 1]), r, o)
  }

  lemma FailedWriteStays(es: seq<Event>, n: nat, r: Req)
    requires n <= |es| && exists j :: 0 <= j < n && es[..n][j] == Wrote(r, false, false)
    ensures exists j :: 0 <= j < |es| && es[j] == Wrote(r, false, false)
  {
    var j :| 0 <= j < n && es[..n][j] == Wrote(r, false, false);
    assert es[j] == Wrote(r, false, false);
  }

  /** One step of a call that is bound: what it returns it was bound to, unless a write of its own failed. */
  lemma BoundReturn(before: State, s: State, es: seq<Event>, r: Req, o: Outcome, p: Outcome)
    requires es != [] && Reached(before, es[..|es| - 1]) && Reached(s, es)
    requires BoundTo(before, r, o) && In(s, r, Returned(Got(p)))
    ensures p == o || In(before, r, Returned(Got(p))) || exists j :: 0 <= j < |es| && es[j] == Wrote(r, false, false)
  {
    var n := |es| - 1;
    ReachedIsOk(before, es[..n]);
    if Enabled(before, es[n]) {
      ReturnsWhatItIsBoundTo(before, es[n], r, o, p);
    }
    if GivingUp(before, r) {
      GaveUpAfterFailedWrite(before, es[..n], r);
      FailedWriteStays(es, n, r);
    }
  }

  /** No call returns an answer in the step that ends its being pending. */
  lemma PendingDoesNotReturn(s: State, e: Event, r: Req, p: Outcome)
    requires Inv(s) && r in s.shared.pending
    ensures !In(Do(s, e), r, Returned(Got(p)))
  {
    assert CallOk(s, r);
  }

  lemma {:induction false} BoundFromThenOn(s: State, es: seq<Event>, i: nat, r: Req, o: Outcome)
    requires Reached(s, es) && Binds(es, i, r, o)
    ensures BoundTo(s, r, o)
    ensures forall p :: In(s, r, Returned(Got(p))) ==> p == o || exists j :: 0 <= j < |es| && es[j] == Wrote(r, false, false)
    decreases |es|
  {
    var n := |es| - 1;
    var before := Run(START, es[..n]);
    ReachedIsOk(before, es[..n]);
    assert es[..n + 1] == es;
    if i == n {
      forall p
        ensures !In(s, r, Returned(Got(p)))
      {
        PendingDoesNotReturn(before, es[n], r, p);
      }
    } else {
      assert es[..n][..i] == es[..i] && es[..n][..i + 1] == es[..i + 1];
      BoundFromThenOn(before, es[..n], i, r, o);
      if Enabled(before, es[n]) {
        StaysBound(before, es[n], r, o);
      }
      forall p | In(s, r, Returned(Got(p))) && p != o
        ensures exists j :: 0 <= j < |es| && es[j] == Wrote(r, false, false)
      {
        BoundReturn(before, s, es, r, o, p);
        if In(before, r, Returned(Got(p))) {
          FailedWriteStays(es, n, r);
        }
      }
    }
  }

  lemma HearBinds(es: seq<Event>, i: nat, c: Conn, m: Reply)
    requires i < |es| && es[i] == Hear(c, m) && m.id in Run(START, es[..i]).shared.pending && Enabled(Run(START, es[..i]), es[i])
    ensures Binds(es, i, m.id, OutcomeOf(m)) && Tells(m, OutcomeOf(m))
  {
    var s := Run(START, es[..i]);
    ReachedIsOk(s, es[..i]);
    assert CallOk(s, m.id);
    assert es[..i + 1][..i] == es[..i];
  }

  /**
    The first reply to a pending request decides: from then on its caller returns what that reply tells,
    or has been cancelled, or gave up after a failed write of its own.
   */
  lemma FirstReplyDecides(s: State, es: seq<Event>, i: nat, c: Conn, m: Reply, o: Outcome)
    requires Reached(s, es) && i < |es| && es[i] == Hear(c, m)
    requires m.id in Run(START, es[..i]).shared.pending && Enabled(Run(START, es[..i]), es[i])
    requires In(s, m.id, Returned(Got(o)))
    ensures Tells(m, o) || exists j :: 0 <= j < |es| && es[j] == Wrote(m.id, false, false)
  {
    HearBinds(es, i, c, m);
    BoundFromThenOn(s, es, i, m.id, OutcomeOf(m));
  }

  /** At the i-th event the request was pending and its connection stopped being the current one. */
  predicate LosesConnection(es: seq<Event>, i: nat, r: Req) {
    i < |es| && r in Run(START, es[..i]).shared.pending && r !in Run(START, es[..i + 1]).shared.pending &&
    Run(START, es[..i + 1]).shared.conn != Run(START, es[..i]).shared.conn
  }

  /** The request was taken because its connection was lost, or was told so. */
  predicate TakenForLoss(s: State, r: Req) {
    r in s.calls &&
    ((s.calls[r].place.Taken? && s.calls[r].place.worker in s.jobs && s.jobs[s.calls[r].place.worker].outcome == Unavailable) ||
     s.calls[r].box == Some(Unavailable))
  }

  lemma SentForLoss(s: State, w: Worker, q: Req, r: Req)
    requires Inv(s) && Enabled(s, Send(w, q)) && TakenForLoss(Step(s, Send(w, q)), r)
    ensures TakenForLoss(s, r)
  {
    assert JobOk(s, w) && CallOk(s, r);
  }

  lemma NewlyTakenForLoss(s: State, e: Event, r: Req)
    requires Inv(s) && Enabled(s, e) && TakenForLoss(Step(s, e), r)
    ensures TakenForLoss(s, r) ||
      (r in s.shared.pending && r !in Step(s, e).shared.pending && Step(s, e).shared.conn != s.shared.conn)
  {
    assert CallOk(s, r);
    match e {
      case Send(w, q) => SentForLoss(s, w, q, r);
      case Drop(q) => assert CallOk(s, q);
      case Replace(c) => assert ServerOk(s, c);
      case Leave(c) => assert ServerOk(s, c);
      case Hear(c, m) => assert ServerOk(s, c);
      case _ =>
    }
  }

  lemma LossStays(es: seq<Event>, more: seq<Event>, r: Req)
    requires es <= more && exists i: nat :: LosesConnection(es, i, r)
    ensures exists i: nat :: LosesConnection(more, i, r)
  {
    var i: nat :| LosesConnection(es, i, r);
    assert more[..i] == es[..i] && more[..i + 1] == es[..i + 1];
    assert LosesConnection(more, i, r);
  }

  lemma {:induction false} TakenAfterLoss(s: State, es: seq<Event>, r: Req)
    requires Reached(s, es) && TakenForLoss(s, r)
    ensures exists i: nat :: LosesConnection(es, i, r)
    decreases |es|
  {
    var n := |es| - 1;
    var before := Run(START, es[..n]);
    ReachedIsOk(before, es[..n]);
    if Enabled(before, es[n]) {
      NewlyTakenForLoss(before, es[n], r);
    }
    if TakenForLoss(before, r) {
      TakenAfterLoss(before, es[..n], r);
      LossStays(es[..n], es, r);
    } else {
      assert es[..n + 1] == es;
      assert LosesConnection(es, n, r);
    }
  }

  lemma NewlyUnavailable(s: State, e: Event, r: Req)
    requires Inv(s) && Enabled(s, e) && In(Step(s, e), r, Returned(Got(Unavailable)))
    ensures In(s, r, Returned(Got(Unavailable))) || TakenForLoss(s, r) || GivingUp(s, r)
  {
    assert CallOk(s, r);
  }

  /**
    A caller is told "unavailable" only if its connection was lost while its request was pending, or after
    a failed write of its own.
   */
  lemma {:induction false} UnavailableMeansLost(s: State, es: seq<Event>, r: Req)
    requires Reached(s, es) && In(s, r, Returned(Got(Unavailable)))
    ensures (exists i: nat :: LosesConnection(es, i, r)) || exists j :: 0 <= j < |es| && es[j] == Wrote(r, false, false)
    decreases |es|
  {
    var n := |es| - 1;
    var before := Run(START, es[..n]);
    ReachedIsOk(before, es[..n]);
    if Enabled(before, es[n]) {
      NewlyUnavailable(before, es[n], r);
    }
    if TakenForLoss(before, r) {
      TakenAfterLoss(before, es[..n], r);
      LossStays(es[..n], es, r);
    } else {
      if GivingUp(before, r) {
        GaveUpAfterFailedWrite(before, es[..n], r);
      } else {
        UnavailableMeansLost(before, es[..n], r);
        if exists i: nat :: LosesConnection(es[..n], i, r) {
          LossStays(es[..n], es, r);
        }
      }
      if exists j :: 0 <= j < n && es[..n][j] == Wrote(r, false, false) {
        FailedWriteStays(es, n, r);
      }
    }
  }

  /** Cancellation was noticed before the command was written, while it was, or while waiting. */
  predicate Cancels(e: Event, r: Req) {
    e == GiveUp(r) || e == Wrote(r, false, true) || e == Interrupt(r)
  }

  /** The call has noticed its cancellation. */
  predicate CancelNoticed(s: State, r: Req) {
    r in s.calls &&
    (s.calls[r].phase in {Queued(true), Writing(true), WriteFailed(true), Stopped, Returned(Cancelled)})
  }

  lemma NewlyNoticed(s: State, e: Event, r: Req)
    requires Enabled(s, e) && CancelNoticed(Step(s, e), r)
    ensures CancelNoticed(s, r) || Cancels(e, r)
  {
  }

  /** A caller reports cancellation only if its context was cancelled. */
  lemma {:induction false} CancelledOnlyIfCancelled(s: State, es: seq<Event>, r: Req)
    requires Reached(s, es) && CancelNoticed(s, r)
    ensures exists i :: 0 <= i < |es| && Cancels(es[i], r)
    decreases |es|
  {
    var n := |es| - 1;
    var before := Run(START, es[..n]);
    if Enabled(before, es[n]) {
      NewlyNoticed(before, es[n], r);
    }
    if CancelNoticed(before, r) {
      CancelledOnlyIfCancelled(before, es[..n], r);
      var i :| 0 <= i < n && Cancels(es[..n][i], r);
      assert Cancels(es[i], r);
    }
  }

  // ---------- replaced connections ----------

  /** Past its hello, and no longer the current connection. */
  predicate Superseded(s: State, c: Conn) {
    c in s.servers && s.servers[c] != Greeting && s.shared.conn != Some(c)
  }

  lemma {:induction false} SupersededForever(s: State, es: seq<Event>, c: Conn)
    requires Inv(s) && Superseded(s, c)
    ensures Superseded(Run(s, es), c)
    decreases |es|
  {
    if es != [] {
      SupersededForever(s, es[..|es| - 1], c);
      RunKeeps(s, es[..|es| - 1]);
      StillSuperseded(Run(s, es[..|es| - 1]), es[|es| - 1], c);
    }
  }

  lemma StillSuperseded(s: State, e: Event, c: Conn)
    requires Inv(s) && Superseded(s, c)
    ensures Superseded(Do(s, e), c)
  {
    if e.Finish? {
      assert JobOk(s, e.w);
    }
  }

  /**
    However late, the disconnect or the failed write of a replaced connection neither clears the
    new connection nor touches a command pending on it.
   */
  lemma LateEndsAreHarmless(s: State, es: seq<Event>, c: Conn, e: Event)
    requires Inv(s) && Superseded(s, c)
    requires var t := Run(s, es); e == Leave(c) || (e.Drop? && e.r in t.calls && t.calls[e.r].conn == c)
    ensures var t := Run(s, es);
      Do(t, e).shared == t.shared && Do(t, e).jobs == t.jobs &&
      forall r :: r in t.shared.pending ==> r in Do(t, e).calls && r in t.calls && Do(t, e).calls[r] == t.calls[r]
  {
    SupersededForever(s, es, c);
    RunKeeps(s, es);
    var t := Run(s, es);
    forall r | r in t.shared.pending
      ensures r in Do(t, e).calls && r in t.calls && Do(t, e).calls[r] == t.calls[r]
    {
      assert CallOk(t, r);
    }
  }

  /** A superseded connection that is still being read is closed, or a worker is about to close it. */
  lemma SupersededIsClosed(s: State, es: seq<Event>, c: Conn)
    requires Reached(s, es) && Superseded(s, c) && Alive(s.servers[c])
    ensures BeingClosed(s, c)
  {
    ReachedIsOk(s, es);
    assert ServerOk(s, c);
  }

  // ---------- workers always finish ----------

  /** What workers do on their own. */
  predicate WorkerStep(e: Event) {
    e.Close? || e.Send? || e.Finish?
  }

  predicate WorkersOnly(es: seq<Event>) {
    forall i :: 0 <= i < |es| ==> WorkerStep(es[i])
  }

  function Owed(s: State): set<Req> {
    set r | r in s.calls && s.calls[r].place.Taken?
  }

  function Closing(s: State): set<Worker> {
    set w | w in s.jobs && s.jobs[w].close.Some?
  }

  /** A worker with a job is never stuck, and its step brings the end closer. */
  lemma WorkerMoves(s: State) returns (e: Event)
    requires Inv(s) && s.jobs != map[]
    ensures WorkerStep(e) && Enabled(s, e)
    ensures Owed(Step(s, e)) < Owed(s) ||
      (Owed(Step(s, e)) == Owed(s) && (Closing(Step(s, e)) < Closing(s) ||
        (Closing(Step(s, e)) == Closing(s) && Step(s, e).jobs.Keys < s.jobs.Keys)))
  {
    var w :| w in s.jobs.Keys;
    assert JobOk(s, w);
    if s.jobs[w].close.Some? {
      e := Close(w);
      assert w in Closing(s) && w !in Closing(Step(s, e));
    } else if r :| r in s.jobs[w].owed {
      e := Send(w, r);
      assert CallOk(s, r);
      assert r in Owed(s) && r !in Owed(Step(s, e));
    } else {
      e := Finish(w);
      assert Closing(Step(s, e)) == Closing(s);
    }
  }

  /** Worker steps leave every waiting call waiting. */
  lemma WorkerStepFrame(s: State, e: Event, r: Req)
    requires Inv(s) && Enabled(s, e) && WorkerStep(e) && In(s, r, Waiting)
    ensures In(Step(s, e), r, Waiting)
  {
    assert CallOk(s, r);
  }

  lemma {:induction false} RunJoins(s: State, es: seq<Event>, fs: seq<Event>)
    ensures Run(s, es + fs) == Run(Run(s, es), fs)
    decreases |fs|
  {
    if fs == [] {
      assert es + fs == es;
    } else {
      RunJoins(s, es, fs[..|fs| - 1]);
      assert (es + fs)[..|es + fs| - 1] == es + fs[..|fs| - 1];
    }
  }

  /** Left to themselves, the workers pay everything they owe. */
  lemma Drain(s: State) returns (es: seq<Event>)
    requires Inv(s)
    ensures WorkersOnly(es) && Inv(Run(s, es))
    ensures Run(s, es).jobs == map[] && Run(s, es).shared == s.shared
    ensures forall r :: In(s, r, Waiting) ==> In(Run(s, es), r, Waiting)
    decreases Owed(s), Closing(s), s.jobs.Keys
  {
    if s.jobs == map[] {
      es := [];
    } else {
      var e := WorkerMoves(s);
      var t := Step(s, e);
      StepKeeps(s, e);
      assert t.shared == s.shared;
      var fs := Drain(t);
      es := [e] + fs;
      assert Run(s, [e]) == t by {
        assert [e][..0] == [];
      }
      RunJoins(s, [e], fs);
      forall r | In(s, r, Waiting)
        ensures In(t, r, Waiting)
      {
        WorkerStepFrame(s, e, r);
      }
    }
  }

  /** With nobody connected and nothing owed, every caller that still waits can receive. */
  lemma QuietMeansAnswered(s: State, r: Req)
    requires Inv(s) && s.shared.conn.None? && s.jobs == map[] && In(s, r, Waiting)
    ensures Enabled(s, Receive(r))
  {
    assert CallOk(s, r);
  }

  /**
    From every reachable state, once the connection's server ends, the workers' own steps put a
    result in front of every caller that is waiting.
   */
  lemma EveryWaiterIsAnswered(s: State, es: seq<Event>) returns (fs: seq<Event>)
    requires Reached(s, es)
    ensures forall i :: 0 <= i < |fs| ==> WorkerStep(fs[i]) || (s.shared.conn.Some? && fs[i] == Leave(s.shared.conn.value))
    ensures forall r :: In(s, r, Waiting) ==> Enabled(Run(s, fs), Receive(r))
  {
    ReachedIsOk(s, es);
    fs := Drain(s);
    var t := Run(s, fs);
    if s.shared.conn.Some? {
      var c := s.shared.conn.value;
      assert ServerOk(t, c) && Serves(t, c, Serving);
      var u := Step(t, Leave(c));
      StepKeeps(t, Leave(c));
      forall r | In(t, r, Waiting)
        ensures In(u, r, Waiting)
      {
      }
      var gs := Drain(u);
      assert Run(t, [Leave(c)]) == u by {
        assert [Leave(c)][..0] == [];
      }
      RunJoins(t, [Leave(c)], gs);
      RunJoins(s, fs, [Leave(c)] + gs);
      fs := fs + ([Leave(c)] + gs);
    }
    forall r | In(s, r, Waiting)
      ensures Enabled(Run(s, fs), Receive(r))
    {
      QuietMeansAnswered(Run(s, fs), r);
    }
  }
}
