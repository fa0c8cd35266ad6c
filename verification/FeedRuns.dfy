/** Appends, deletions, polls, subscriptions and seeks in any order. */
module FeedRuns {
  import opened Options
  import opened ChangeFeed

  /** One subscription, for as long as anybody remembers it: when it began and ended, and what it got. */
  datatype Sub = Sub(from: nat, till: Option<nat>, got: seq<Event>)

  /**
    `log` holds the rows now in the table; `history` every row there ever was, `dropped` the deleted
    ones and `issued` the highest number given out. `queue` is what the poll in progress has still to
    look at and `sent` what was broadcast. `base` and `start` say how much had been sent, and where
    the cursor stood, at the last seek; `lost` are the rows that were gone when a poll read past them.
   */
  datatype State = State(
    log: seq<Event>,
    history: seq<Event>,
    dropped: set<Event>,
    issued: int,
    cursor: int,
    queue: seq<Event>,
    sent: seq<Event>,
    base: nat,
    start: int,
    lost: set<Event>,
    nextId: nat,
    subs: map<nat, Sub>)

  datatype Action =
    | Append(e: Event)
    | Delete(session: string)
    | Seek(latest: int)
    | Read(answer: seq<Event>)
    | BroadcastNext
    | Subscribe
    | Unsubscribe(id: nat)

  function Beginning(log: seq<Event>, startSeq: int): State {
    State(log, log, {}, LatestSeq(log), startSeq, [], [], 0, startSeq, {}, 0, map[])
  }

  function Active(sub: Sub): bool {
    sub.till.None?
  }

  function Receive(subs: map<nat, Sub>, e: Event): map<nat, Sub> {
    map id | id in subs :: if Active(subs[id]) then subs[id].(got := subs[id].got + [e]) else subs[id]
  }

  /** What DeleteSession leaves of the table. */
  function Without(log: seq<Event>, session: string): seq<Event> {
    if log == [] then []
    else
      var before := Without(log[..|log| - 1], session);
      if log[|log| - 1].session == Some(session) then before else before + [log[|log| - 1]]
  }

  /** The rows that a poll reading up to `to` passes over without an answer. */
  function PassedOver(history: seq<Event>, from: int, to: int, answer: seq<Event>): set<Event> {
    set e | e in history && from < e.seqNo <= to && e !in answer
  }

  /** A poll reads only when the previous one is done; failed reads change nothing and are left out. */
  function Do(s: State, a: Action): State {
    match a
    case Append(e) => s.(log := s.log + [e], history := s.history + [e], issued := e.seqNo)
    case Delete(session) =>
      s.(log := Without(s.log, session), dropped := s.dropped + set e | e in s.log && e.session == Some(session))
    case Seek(latest) =>
      if s.queue != [] then s else s.(cursor := latest, base := |s.sent|, start := latest, lost := {})
    case Read(answer) =>
      if s.queue != [] then s
      else
        s.(queue := answer,
          lost := s.lost + PassedOver(s.history, s.cursor, CursorAfter(answer, s.cursor), answer))
    case BroadcastNext =>
      if s.queue == [] then s
      else if s.queue[0].seqNo <= s.cursor then s.(queue := s.queue[1..])
      else
        var e := s.queue[0];
        s.(queue := s.queue[1..], cursor := e.seqNo, sent := s.sent + [e], subs := Receive(s.subs, e))
    case Subscribe =>
      s.(nextId := s.nextId + 1, subs := s.subs[s.nextId := Sub(|s.sent|, None, [])])
    case Unsubscribe(id) =>
      if id in s.subs && Active(s.subs[id]) then s.(subs := s.subs[id := s.subs[id].(till := Some(|s.sent|))])
      else s
  }

  function Run(s: State, acts: seq<Action>): State
    decreases |acts|
  {
    if acts == [] then s else Do(Run(s, acts[..|acts| - 1]), acts[|acts| - 1])
  }

  // ---------- whatever the source answers ----------

  function Till(s: State, sub: Sub): nat {
    if sub.till.Some? then sub.till.value else |s.sent|
  }

  ghost predicate SubOk(s: State, id: nat) {
    id in s.subs ==>
      var sub := s.subs[id];
      id < s.nextId && sub.from <= Till(s, sub) <= |s.sent| && sub.got == s.sent[sub.from..Till(s, sub)]
  }

  lemma SubHearsNext(s: State, id: nat)
    requires SubOk(s, id) && id in s.subs && s.queue != [] && s.queue[0].seqNo > s.cursor
    ensures SubOk(Do(s, BroadcastNext), id)
  {
    var sub, more := s.subs[id], s.sent + [s.queue[0]];
    assert Do(s, BroadcastNext).sent == more;
    if Active(sub) {
      assert more[sub.from..|more|] == s.sent[sub.from..|s.sent|] + [s.queue[0]];
    } else {
      assert more[sub.from..sub.till.value] == s.sent[sub.from..sub.till.value];
    }
  }

  lemma SubStaysOk(s: State, a: Action, id: nat)
    requires SubOk(s, id)
    ensures SubOk(Do(s, a), id)
  {
    if a.BroadcastNext? && id in s.subs && s.queue != [] && s.queue[0].seqNo > s.cursor {
      SubHearsNext(s, id);
    }
  }

  /** Each subscriber gets exactly what was broadcast while it was subscribed. */
  lemma {:induction false} SubscribersGetTheirSpan(log: seq<Event>, startSeq: int, acts: seq<Action>, id: nat)
    ensures SubOk(Run(Beginning(log, startSeq), acts), id)
    decreases |acts|
  {
    if acts != [] {
      SubscribersGetTheirSpan(log, startSeq, acts[..|acts| - 1], id);
      SubStaysOk(Run(Beginning(log, startSeq), acts[..|acts| - 1]), acts[|acts| - 1], id);
    }
  }

  /** A seek goes forward when it does not return behind the last event broadcast. */
  predicate Forward(s: State, a: Action) {
    a.Seek? && s.queue == [] && s.sent != [] ==> a.latest >= s.sent[|s.sent| - 1].seqNo
  }

  ghost predicate OnlyForward(s: State, acts: seq<Action>)
    decreases |acts|
  {
    acts == [] ||
    (OnlyForward(s, acts[..|acts| - 1]) && Forward(Run(s, acts[..|acts| - 1]), acts[|acts| - 1]))
  }

  ghost predicate Orderly(s: State) {
    Ascending(s.sent) && (s.sent != [] ==> s.sent[|s.sent| - 1].seqNo <= s.cursor)
  }

  lemma StaysOrderly(s: State, a: Action)
    requires Orderly(s) && Forward(s, a)
    ensures Orderly(Do(s, a))
  {
    if a.BroadcastNext? && s.queue != [] {
      AscendingSnoc(s.sent, s.queue[0]);
    }
  }

  /** Even a source that repeats or reorders cannot make a broadcast go backwards. */
  lemma {:induction false} BroadcastsAscend(log: seq<Event>, startSeq: int, acts: seq<Action>)
    requires OnlyForward(Beginning(log, startSeq), acts)
    ensures Orderly(Run(Beginning(log, startSeq), acts))
    decreases |acts|
  {
    if acts != [] {
      var n := |acts| - 1;
      BroadcastsAscend(log, startSeq, acts[..n]);
      StaysOrderly(Run(Beginning(log, startSeq), acts[..n]), acts[n]);
    }
  }

  lemma RunMore(s: State, acts: seq<Action>, a: Action)
    ensures Run(s, acts + [a]) == Do(Run(s, acts), a)
  {
    assert (acts + [a])[..|acts|] == acts;
  }

  /** What three steps that seek, read one event and broadcast it make of a run. */
  lemma SeekReadBroadcast(s: State, acts: seq<Action>, latest: int, e: Event)
    requires Run(s, acts).queue == []
    ensures Run(s, acts + [Seek(latest), Read([e]), BroadcastNext]).sent ==
      Run(s, acts).sent + if e.seqNo <= latest then [] else [e]
  {
    RunMore(s, acts, Seek(latest));
    RunMore(s, acts + [Seek(latest)], Read([e]));
    RunMore(s, acts + [Seek(latest)] + [Read([e])], BroadcastNext);
    assert acts + [Seek(latest), Read([e]), BroadcastNext] == acts + [Seek(latest)] + [Read([e])] + [BroadcastNext];
  }

  lemma OneMoreAscends(s: State, latest: int, e: Event)
    requires Orderly(s) && s.queue == []
    ensures Ascending(Run(s, [Seek(latest), Read([e]), BroadcastNext]).sent) <==>
      e.seqNo <= latest || s.sent == [] || s.sent[|s.sent| - 1].seqNo < e.seqNo
  {
    SeekReadBroadcast(s, [], latest, e);
    assert [] + [Seek(latest), Read([e]), BroadcastNext] == [Seek(latest), Read([e]), BroadcastNext];
    AscendingSnoc(s.sent, e);
    assert s.sent + [] == s.sent;
  }

  /**
    SeekToHead keeps broadcasts ascending, for every event that may follow, exactly when it does not
    return behind the last one broadcast.
   */
  lemma BackwardSeekRepeats(s: State, latest: int)
    requires Orderly(s) && s.queue == []
    ensures Forward(s, Seek(latest)) <==>
      forall e: Event :: Ascending(Run(s, [Seek(latest), Read([e]), BroadcastNext]).sent)
  {
    forall e: Event
      ensures Ascending(Run(s, [Seek(latest), Read([e]), BroadcastNext]).sent) <==>
        e.seqNo <= latest || s.sent == [] || s.sent[|s.sent| - 1].seqNo < e.seqNo
    {
      OneMoreAscends(s, latest, e);
    }
    if !Forward(s, Seek(latest)) {
      OneMoreAscends(s, latest, s.sent[|s.sent| - 1]);
    }
  }

  /** A run in which a source whose head falls back makes the poller broadcast one event twice. */
  lemma FallenHeadRepeats(e: Event)
    requires e.seqNo > 0
    ensures Run(Beginning([], 0), [Read([e]), BroadcastNext, Seek(0), Read([e]), BroadcastNext]).sent == [e, e]
  {
    var first := [Read([e]), BroadcastNext];
    var s := Run(Beginning([], 0), first);
    RunMore(Beginning([], 0), [], Read([e]));
    RunMore(Beginning([], 0), [Read([e])], BroadcastNext);
    assert [] + [Read([e])] == [Read([e])] && [Read([e])] + [BroadcastNext] == first;
    assert s.sent == [e] && s.queue == [];
    SeekReadBroadcast(Beginning([], 0), first, 0, e);
    assert first + [Seek(0), Read([e]), BroadcastNext] == [Read([e]), BroadcastNext, Seek(0), Read([e]), BroadcastNext];
  }

  // ---------- a source that reads the change log ----------

  /** Appends take a number never given out before; reads and seeks answer from the rows now there. */
  predicate Conforms(s: State, a: Action, batch: nat) {
    match a
    case Append(e) => e.seqNo > s.issued
    case Seek(latest) => latest == LatestSeq(s.log)
    case Read(answer) => answer == EventsAfter(s.log, s.cursor, batch)
    case _ => true
  }

  ghost predicate AllConform(s: State, acts: seq<Action>, batch: nat)
    decreases |acts|
  {
    acts == [] ||
    (AllConform(s, acts[..|acts| - 1], batch) && Conforms(Run(s, acts[..|acts| - 1]), acts[|acts| - 1], batch))
  }

  lemma ConformMore(s: State, acts: seq<Action>, a: Action, batch: nat)
    requires AllConform(s, acts, batch) && Conforms(Run(s, acts), a, batch)
    ensures AllConform(s, acts + [a], batch) && Run(s, acts + [a]) == Do(Run(s, acts), a)
  {
    RunMore(s, acts, a);
    assert (acts + [a])[..|acts|] == acts;
  }

  lemma OnlyRow(e: Event, session: string)
    requires e.seqNo > 0 && e.session == Some(session)
    ensures EventsAfter([e], 0, 1) == [e] && Without([e], session) == []
  {
    AfterAppend([], e, 0);
    assert [] + [e] == [e] && [e][..0] == [];
  }

  lemma GoOn(s: State, acts: seq<Action>, a: Action, batch: nat) returns (more: seq<Action>)
    requires AllConform(s, acts, batch) && Conforms(Run(s, acts), a, batch)
    ensures AllConform(s, more, batch) && Run(s, more) == Do(Run(s, acts), a)
  {
    more := acts + [a];
    ConformMore(s, acts, a, batch);
  }

  lemma AppendOne(e: Event) returns (acts: seq<Action>)
    requires e.seqNo > 0
    ensures AllConform(Beginning([], 0), acts, 1)
    ensures var s := Run(Beginning([], 0), acts); s.log == [e] && s.cursor == 0 && s.queue == [] && s.sent == []
  {
    acts := GoOn(Beginning([], 0), [], Append(e), 1);
    assert [] + [e] == [e];
  }

  lemma ReadOne(acts: seq<Action>, e: Event) returns (more: seq<Action>)
    requires AllConform(Beginning([], 0), acts, 1) && EventsAfter([e], 0, 1) == [e]
    requires var s := Run(Beginning([], 0), acts); s.log == [e] && s.cursor == 0 && s.queue == [] && s.sent == []
    ensures AllConform(Beginning([], 0), more, 1)
    ensures var s := Run(Beginning([], 0), more); s.log == [e] && s.cursor == 0 && s.queue == [e] && s.sent == []
  {
    more := GoOn(Beginning([], 0), acts, Read([e]), 1);
  }

  lemma SendOne(acts: seq<Action>, e: Event) returns (more: seq<Action>)
    requires AllConform(Beginning([], 0), acts, 1) && e.seqNo > 0
    requires var s := Run(Beginning([], 0), acts); s.log == [e] && s.cursor == 0 && s.queue == [e] && s.sent == []
    ensures AllConform(Beginning([], 0), more, 1)
    ensures var s := Run(Beginning([], 0), more); s.log == [e] && s.queue == [] && s.sent == [e]
  {
    more := GoOn(Beginning([], 0), acts, BroadcastNext, 1);
  }

  lemma DeleteOne(acts: seq<Action>, e: Event, session: string) returns (more: seq<Action>)
    requires AllConform(Beginning([], 0), acts, 1) && Without([e], session) == []
    requires var s := Run(Beginning([], 0), acts); s.log == [e] && s.queue == [] && s.sent == [e]
    ensures AllConform(Beginning([], 0), more, 1)
    ensures var s := Run(Beginning([], 0), more); s.log == [] && s.queue == [] && s.sent == [e]
  {
    more := GoOn(Beginning([], 0), acts, Delete(session), 1);
  }

  /** A run over the real table whose next seek returns behind the last broadcast: its row was deleted. */
  lemma DeletedHeadSeeksBack(e: Event, session: string) returns (acts: seq<Action>)
    requires e.seqNo > 0 && e.session == Some(session)
    ensures var s := Run(Beginning([], 0), acts);
      AllConform(Beginning([], 0), acts, 1) && s.sent == [e] && !Forward(s, Seek(LatestSeq(s.log)))
  {
    OnlyRow(e, session);
    acts := AppendOne(e);
    acts := ReadOne(acts, e);
    acts := SendOne(acts, e);
    acts := DeleteOne(acts, e, session);
  }

  // ---------- the table ----------

  /** The table holds the rows of history that were not dropped, in order, with numbers given out. */
  ghost predicate TableOk(s: State) {
    Ascending(s.log) && Ascending(s.history) &&
    (forall e :: e in s.log <==> e in s.history && e !in s.dropped) &&
    (forall e :: e in s.history || e in s.dropped ==> e.seqNo <= s.issued)
  }

  lemma AscendingPair(evs: seq<Event>, e: Event, f: Event)
    requires Ascending(evs) && e in evs && f in evs && e.seqNo == f.seqNo
    ensures e == f
  {
    var i :| 0 <= i < |evs| && evs[i] == e;
    var j :| 0 <= j < |evs| && evs[j] == f;
    assert i < j ==> Before(evs, i, j);
    assert j < i ==> Before(evs, j, i);
  }

  lemma {:induction false} WithoutKeepsOrder(log: seq<Event>, session: string)
    requires Ascending(log)
    ensures Ascending(Without(log, session))
    ensures forall e :: e in Without(log, session) <==> e in log && e.session != Some(session)
  {
    if log != [] {
      var n := |log| - 1;
      AscendingPart(log, 0, n);
      assert log[0..n] == log[..n] && log == log[..n] + [log[n]];
      WithoutKeepsOrder(log[..n], session);
      var before := Without(log[..n], session);
      if before != [] {
        var last := before[|before| - 1];
        assert last in before;
        var i :| 0 <= i < n && log[i] == last;
        assert Before(log, i, n);
      }
      AscendingSnoc(before, log[n]);
    }
  }

  lemma AppendKeepsTable(s: State, e: Event)
    requires TableOk(s) && e.seqNo > s.issued
    ensures TableOk(Do(s, Append(e)))
  {
    assert s.log != [] ==> s.log[|s.log| - 1] in s.log;
    assert s.history != [] ==> s.history[|s.history| - 1] in s.history;
    AscendingSnoc(s.log, e);
    AscendingSnoc(s.history, e);
  }

  lemma DeleteKeepsTable(s: State, session: string)
    requires TableOk(s)
    ensures TableOk(Do(s, Delete(session)))
  {
    WithoutKeepsOrder(s.log, session);
  }

  // ---------- what is broadcast ----------

  /** How far the poller has read. */
  function Reach(s: State): int {
    CursorAfter(s.queue, s.cursor)
  }

  /** Everything broadcast or about to be, since the beginning. */
  function Stream(s: State): seq<Event> {
    s.sent + s.queue
  }

  /**
    The stream ascends, and what the poller has not read yet is newer than all of it: rows that a
    backward seek would expose again are no longer there.
   */
  ghost predicate StreamOk(s: State) {
    Ascending(Stream(s)) &&
    (forall e :: e in s.queue ==> e.seqNo > s.cursor) &&
    (forall e :: e in Stream(s) ==> e in s.history) &&
    (forall e, f :: e in s.log && f in Stream(s) && e.seqNo > Reach(s) ==> e.seqNo > f.seqNo)
  }

  /** The first n of an ascending list are those up to the n-th number. */
  lemma PrefixIsWindow(evs: seq<Event>, start: int, n: nat)
    requires Ascending(evs) && n <= |evs| && forall e :: e in evs ==> start < e.seqNo
    ensures forall e :: e in evs[..n] <==> e in evs && e.seqNo <= CursorAfter(evs[..n], start)
  {
    forall e | e in evs[..n]
      ensures e.seqNo <= CursorAfter(evs[..n], start)
    {
      var i :| 0 <= i < n && evs[..n][i] == e;
      assert i < n - 1 ==> Before(evs, i, n - 1);
    }
    forall e | e in evs && e.seqNo <= CursorAfter(evs[..n], start)
      ensures e in evs[..n]
    {
      var i :| 0 <= i < |evs| && evs[i] == e;
      assert n > 0;
      assert n - 1 < i ==> Before(evs, n - 1, i);
      assert evs[..n][i] == e;
    }
  }

  lemma RowsAfter(log: seq<Event>, cursor: int)
    requires Ascending(log)
    ensures Ascending(After(log, cursor))
    ensures forall e :: e in After(log, cursor) <==> e in log && cursor < e.seqNo
  {
    var k := AfterIsTail(log, cursor);
    AscendingPart(log, k, |log|);
    assert log[k..|log|] == log[k..];
    forall e | e in log && cursor < e.seqNo
      ensures e in log[k..]
    {
      var i :| 0 <= i < |log| && log[i] == e;
      assert log[k..][i - k] == e;
    }
    forall e | e in log[k..]
      ensures cursor < e.seqNo
    {
      var i :| 0 <= i < |log| - k && log[k..][i] == e;
      assert log[k + i] == e;
    }
  }

  /** What a poll of the table answers: the next rows there are, up to where it stops. */
  lemma AnswerIsWindow(log: seq<Event>, cursor: int, batch: nat)
    requires Ascending(log)
    ensures var answer := EventsAfter(log, cursor, batch);
      Ascending(answer) && forall e :: e in answer <==> e in log && cursor < e.seqNo <= CursorAfter(answer, cursor)
  {
    RowsAfter(log, cursor);
    var tail := After(log, cursor);
    var n := |EventsAfter(log, cursor, batch)|;
    AscendingPart(tail, 0, n);
    assert tail[0..n] == tail[..n] == EventsAfter(log, cursor, batch);
    PrefixIsWindow(tail, cursor, n);
  }

  lemma AscendingJoin(a: seq<Event>, b: seq<Event>)
    requires Ascending(a) && Ascending(b) && forall e, f :: e in a && f in b ==> e.seqNo < f.seqNo
    ensures Ascending(a + b)
  {
    forall i: nat, j: nat | i < j < |a + b|
      ensures Before(a + b, i, j)
    {
      if j < |a| {
        assert Before(a, i, j);
      } else if i >= |a| {
        assert Before(b, i - |a|, j - |a|);
      } else {
        assert a[i] in a && b[j - |a|] in b;
      }
    }
  }

  lemma ReadKeepsStream(s: State, batch: nat)
    requires TableOk(s) && StreamOk(s) && s.queue == []
    ensures StreamOk(Do(s, Read(EventsAfter(s.log, s.cursor, batch))))
  {
    var answer := EventsAfter(s.log, s.cursor, batch);
    AnswerIsWindow(s.log, s.cursor, batch);
    assert Stream(s) == s.sent;
    AscendingJoin(s.sent, answer);
    var t := Do(s, Read(answer));
    forall e, f | e in t.log && f in Stream(t) && e.seqNo > Reach(t)
      ensures e.seqNo > f.seqNo
    {
      if f in answer {
        assert f.seqNo <= Reach(t);
      } else {
        assert f in Stream(s);
        assert answer != [] ==> answer[|answer| - 1] in answer;
      }
    }
  }

  lemma AppendKeepsStream(s: State, e: Event)
    requires TableOk(s) && StreamOk(s) && e.seqNo > s.issued
    ensures StreamOk(Do(s, Append(e)))
  {
  }

  lemma DeleteKeepsStream(s: State, session: string)
    requires TableOk(s) && StreamOk(s)
    ensures StreamOk(Do(s, Delete(session)))
  {
    WithoutKeepsOrder(s.log, session);
  }

  /** The head of an ascending log is its greatest number, so nothing is past it. */
  lemma NothingPastHead(log: seq<Event>, e: Event)
    requires Ascending(log) && e in log
    ensures e.seqNo <= LatestSeq(log)
  {
    var i :| 0 <= i < |log| && log[i] == e;
    assert i < |log| - 1 ==> Before(log, i, |log| - 1);
  }

  lemma SeekKeepsStream(s: State)
    requires TableOk(s) && StreamOk(s)
    ensures StreamOk(Do(s, Seek(LatestSeq(s.log))))
  {
    forall e | e in s.log
      ensures e.seqNo <= LatestSeq(s.log)
    {
      NothingPastHead(s.log, e);
    }
  }

  lemma BroadcastKeepsStream(s: State)
    requires StreamOk(s)
    ensures StreamOk(Do(s, BroadcastNext)) && Stream(Do(s, BroadcastNext)) == Stream(s)
    ensures Reach(Do(s, BroadcastNext)) == Reach(s)
  {
    if s.queue != [] {
      var t := Do(s, BroadcastNext);
      assert s.queue[0] in s.queue;
      assert Stream(t) == Stream(s) by {
        assert s.sent + [s.queue[0]] + s.queue[1..] == s.sent + s.queue;
      }
      forall e | e in t.queue
        ensures e.seqNo > t.cursor
      {
        var i :| 0 <= i < |t.queue| && t.queue[i] == e;
        assert Before(Stream(s), |s.sent|, |s.sent| + i + 1);
        assert Stream(s)[|s.sent|] == s.queue[0] && Stream(s)[|s.sent| + i + 1] == e;
      }
      assert t.queue == [] ==> s.queue == [s.queue[0]];
    }
  }

  lemma StepKeepsStream(s: State, a: Action, batch: nat)
    requires TableOk(s) && StreamOk(s) && Conforms(s, a, batch)
    ensures TableOk(Do(s, a)) && StreamOk(Do(s, a))
  {
    match a {
      case Append(e) =>
        AppendKeepsTable(s, e);
        AppendKeepsStream(s, e);
      case Delete(session) =>
        DeleteKeepsTable(s, session);
        DeleteKeepsStream(s, session);
      case Seek(_) => SeekKeepsStream(s);
      case Read(_) =>
        if s.queue == [] {
          ReadKeepsStream(s, batch);
        }
      case BroadcastNext => BroadcastKeepsStream(s);
      case Subscribe =>
      case Unsubscribe(_) =>
    }
  }

  lemma BeginsOk(log: seq<Event>, startSeq: int)
    requires Ascending(log)
    ensures TableOk(Beginning(log, startSeq)) && StreamOk(Beginning(log, startSeq))
  {
    forall e | e in log
      ensures e.seqNo <= LatestSeq(log)
    {
      NothingPastHead(log, e);
    }
    assert Ascending([]);
  }

  lemma {:induction false} RunsStayOk(log: seq<Event>, startSeq: int, acts: seq<Action>, batch: nat)
    requires Ascending(log) && AllConform(Beginning(log, startSeq), acts, batch)
    ensures var s := Run(Beginning(log, startSeq), acts); TableOk(s) && StreamOk(s)
    decreases |acts|
  {
    if acts == [] {
      BeginsOk(log, startSeq);
    } else {
      var n := |acts| - 1;
      RunsStayOk(log, startSeq, acts[..n], batch);
      StepKeepsStream(Run(Beginning(log, startSeq), acts[..n]), acts[n], batch);
    }
  }

  /**
    Over the real table broadcasts strictly ascend in every run: rows may be deleted, so that a seek
    returns behind the last broadcast, but what it could repeat is gone and numbers are never reused.
   */
  lemma LogBroadcastsAscend(log: seq<Event>, startSeq: int, acts: seq<Action>, batch: nat)
    requires Ascending(log) && AllConform(Beginning(log, startSeq), acts, batch)
    ensures Ascending(Run(Beginning(log, startSeq), acts).sent)
  {
    RunsStayOk(log, startSeq, acts, batch);
    var s := Run(Beginning(log, startSeq), acts);
    AscendingPart(Stream(s), 0, |s.sent|);
    assert Stream(s)[0..|s.sent|] == s.sent;
  }

  // ---------- what a subscriber gets of the log ----------

  /** Everything broadcast or about to be, since the last seek. */
  function Flow(s: State): seq<Event>
    requires s.base <= |s.sent|
  {
    s.sent[s.base..] + s.queue
  }

  predicate Due(s: State, e: Event) {
    e in s.history && s.start < e.seqNo <= Reach(s) && e !in s.lost
  }

  /**
    Since the last seek the poller has taken every row there ever was up to where it has read, apart
    from the lost ones, and those had been deleted before it read past them.
   */
  ghost predicate Complete(s: State) {
    s.base <= |s.sent| &&
    s.cursor == CursorAfter(s.sent[s.base..], s.start) &&
    (forall e :: e in Flow(s) <==> Due(s, e)) &&
    s.lost <= s.dropped &&
    s.start <= Reach(s) && (Reach(s) == s.start || Reach(s) <= s.issued)
  }

  lemma AppendKeepsComplete(s: State, e: Event)
    requires TableOk(s) && Complete(s) && e.seqNo > s.issued
    ensures Complete(Do(s, Append(e)))
  {
    var t := Do(s, Append(e));
    assert Flow(t) == Flow(s) && Reach(t) == Reach(s);
    assert !Due(t, e) && !Due(s, e);
    assert forall f :: f != e ==> Due(t, f) == Due(s, f);
  }

  lemma SameFlowKeepsComplete(s: State, t: State)
    requires Complete(s) && t.base <= |t.sent| && t.cursor == CursorAfter(t.sent[t.base..], t.start)
    requires Flow(t) == Flow(s) && Reach(t) == Reach(s) && t.history == s.history && t.start == s.start
    requires t.lost == s.lost && s.dropped <= t.dropped && t.issued == s.issued
    ensures Complete(t)
  {
    assert forall e :: Due(t, e) == Due(s, e);
  }

  lemma DeleteKeepsComplete(s: State, session: string)
    requires Complete(s)
    ensures Complete(Do(s, Delete(session)))
  {
    SameFlowKeepsComplete(s, Do(s, Delete(session)));
  }

  lemma SeekKeepsComplete(s: State)
    requires TableOk(s) && Complete(s)
    ensures Complete(Do(s, Seek(LatestSeq(s.log))))
  {
    var t := Do(s, Seek(LatestSeq(s.log)));
    if s.queue == [] {
      assert Flow(t) == [];
      assert forall e :: !Due(t, e);
    }
  }

  lemma ReadKeepsComplete(s: State, batch: nat)
    requires TableOk(s) && Complete(s) && s.queue == []
    ensures Complete(Do(s, Read(EventsAfter(s.log, s.cursor, batch))))
  {
    var answer := EventsAfter(s.log, s.cursor, batch);
    AnswerIsWindow(s.log, s.cursor, batch);
    var t := Do(s, Read(answer));
    assert Flow(s) == s.sent[s.base..] && Flow(t) == Flow(s) + answer;
    assert answer != [] ==> answer[|answer| - 1] in answer;
    forall e
      ensures e in Flow(t) <==> Due(t, e)
    {
      assert e in Flow(s) <==> Due(s, e);
      assert e.seqNo <= s.cursor ==> Due(t, e) == Due(s, e);
      assert e.seqNo > s.cursor ==> !Due(s, e) && (Due(t, e) <==> e in answer);
    }
  }

  lemma FlowMovesOn(s: State)
    requires StreamOk(s) && s.base <= |s.sent| && s.queue != []
    ensures var t := Do(s, BroadcastNext);
      t.base == s.base <= |t.sent| && Flow(t) == Flow(s) && t.cursor == CursorAfter(t.sent[t.base..], t.start)
  {
    var t := Do(s, BroadcastNext);
    var e := s.queue[0];
    assert e in s.queue;
    assert t.sent[t.base..] == s.sent[s.base..] + [e];
    Regroup(s.sent[s.base..], e, s.queue[1..]);
    assert [e] + s.queue[1..] == s.queue;
  }

  lemma BroadcastKeepsComplete(s: State)
    requires StreamOk(s) && Complete(s)
    ensures Complete(Do(s, BroadcastNext))
  {
    if s.queue != [] {
      FlowMovesOn(s);
      BroadcastKeepsStream(s);
      SameFlowKeepsComplete(s, Do(s, BroadcastNext));
    }
  }

  lemma StepKeepsComplete(s: State, a: Action, batch: nat)
    requires TableOk(s) && StreamOk(s) && Complete(s) && Conforms(s, a, batch)
    ensures Complete(Do(s, a))
  {
    match a {
      case Append(e) => AppendKeepsComplete(s, e);
      case Delete(session) => DeleteKeepsComplete(s, session);
      case Seek(_) => SeekKeepsComplete(s);
      case Read(_) =>
        if s.queue == [] {
          ReadKeepsComplete(s, batch);
        }
      case BroadcastNext => BroadcastKeepsComplete(s);
      case Subscribe => SameFlowKeepsComplete(s, Do(s, a));
      case Unsubscribe(_) => SameFlowKeepsComplete(s, Do(s, a));
    }
  }

  lemma {:induction false} RunsStayComplete(log: seq<Event>, startSeq: int, acts: seq<Action>, batch: nat)
    requires Ascending(log) && AllConform(Beginning(log, startSeq), acts, batch)
    ensures Complete(Run(Beginning(log, startSeq), acts))
    decreases |acts|
  {
    if acts == [] {
      var s := Beginning(log, startSeq);
      assert Flow(s) == [];
      assert forall e :: !Due(s, e);
    } else {
      var n := |acts| - 1;
      RunsStayOk(log, startSeq, acts[..n], batch);
      RunsStayComplete(log, startSeq, acts[..n], batch);
      StepKeepsComplete(Run(Beginning(log, startSeq), acts[..n]), acts[n], batch);
    }
  }

  /** Where the cursor stood once the first n events had been sent. */
  function CursorAt(s: State, n: nat): int
    requires s.base <= n <= |s.sent|
  {
    CursorAfter(s.sent[s.base..n], s.start)
  }

  /** The rows there ever were in the stretch of numbers that went by between two broadcasts. */
  predicate Owed(s: State, from: nat, till: nat, e: Event)
    requires s.base <= from <= till <= |s.sent|
  {
    e in s.history && CursorAt(s, from) < e.seqNo <= CursorAt(s, till) && e !in s.lost
  }

  lemma PartFollows(before: seq<Event>, part: seq<Event>, start: int)
    requires Ascending(before + part) && forall e :: e in before + part ==> start < e.seqNo
    ensures Ascending(part) && forall e :: e in part ==> CursorAfter(before, start) < e.seqNo
  {
    var all, a := before + part, |before|;
    AscendingPart(all, a, |all|);
    assert all[a..|all|] == part;
    forall e | e in part
      ensures CursorAfter(before, start) < e.seqNo
    {
      var j :| 0 <= j < |part| && part[j] == e;
      assert all[a + j] == e;
      assert a > 0 ==> Before(all, a - 1, a + j);
    }
  }

  lemma BeforeIsUpTo(before: seq<Event>, part: seq<Event>, start: int)
    requires Ascending(before + part) && forall e :: e in before + part ==> start < e.seqNo
    ensures forall e :: e in before <==> e in before + part && e.seqNo <= CursorAfter(before, start)
  {
    PrefixIsWindow(before + part, start, |before|);
    assert (before + part)[..|before|] == before;
  }

  lemma PrefixAscends(evs: seq<Event>, front: seq<Event>)
    requires Ascending(evs) && front <= evs
    ensures Ascending(front) && evs[..|front|] == front
  {
    AscendingPart(evs, 0, |front|);
    assert evs[0..|front|] == front;
  }

  /** Of an ascending list past `start`, a stretch is what lies between two of its numbers. */
  lemma StretchIsWindow(evs: seq<Event>, before: seq<Event>, part: seq<Event>, start: int)
    requires Ascending(evs) && before + part <= evs && forall e :: e in evs ==> start < e.seqNo
    ensures Ascending(part)
    ensures forall e :: e in part <==>
      e in evs && CursorAfter(before, start) < e.seqNo <= CursorAfter(before + part, start)
  {
    var all := before + part;
    PrefixAscends(evs, all);
    PrefixIsWindow(evs, start, |all|);
    assert forall e :: e in all <==> e in evs && e.seqNo <= CursorAfter(all, start);
    PartFollows(before, part, start);
    BeforeIsUpTo(before, part, start);
    forall e | e in evs && CursorAfter(before, start) < e.seqNo <= CursorAfter(all, start)
      ensures e in part
    {
      assert e in all && e !in before;
    }
  }

  lemma FlowAscends(s: State)
    requires StreamOk(s) && Complete(s)
    ensures Ascending(Flow(s)) && forall e :: e in Flow(s) ==> s.start < e.seqNo
  {
    AscendingPart(Stream(s), s.base, |Stream(s)|);
    assert Stream(s)[s.base..|Stream(s)|] == Flow(s);
  }

  /** Nothing sent lies past where the poller has read. */
  lemma SentIsRead(s: State, till: nat)
    requires Complete(s) && s.base <= till <= |s.sent|
    ensures CursorAt(s, till) <= Reach(s)
  {
    if till > s.base {
      assert Flow(s)[till - s.base - 1] in Flow(s);
    }
  }

  lemma PartOfFlow<T>(sent: seq<T>, base: nat, queue: seq<T>, from: nat, till: nat)
    requires base <= from <= till <= |sent|
    ensures sent[base..till] == sent[base..from] + sent[from..till] <= sent[base..] + queue
  {
  }

  lemma StartIsLeast(s: State, from: nat)
    requires StreamOk(s) && Complete(s) && s.base <= from <= |s.sent|
    ensures s.start <= CursorAt(s, from)
  {
    FlowAscends(s);
    if from > s.base {
      assert Flow(s)[from - s.base - 1] in Flow(s);
    }
  }

  lemma SpanIsWindow(s: State, from: nat, till: nat)
    requires StreamOk(s) && Complete(s) && s.base <= from <= till <= |s.sent|
    ensures Ascending(s.sent[from..till])
    ensures forall e :: e in s.sent[from..till] <==> e in Flow(s) && CursorAt(s, from) < e.seqNo <= CursorAt(s, till)
  {
    FlowAscends(s);
    PartOfFlow(s.sent, s.base, s.queue, from, till);
    StretchIsWindow(Flow(s), s.sent[s.base..from], s.sent[from..till], s.start);
  }

  lemma OwedIsDue(s: State, from: nat, till: nat, e: Event)
    requires StreamOk(s) && Complete(s) && s.base <= from <= till <= |s.sent|
    ensures Owed(s, from, till, e) <==> e in Flow(s) && CursorAt(s, from) < e.seqNo <= CursorAt(s, till)
  {
    assert e in Flow(s) <==> Due(s, e);
    StartIsLeast(s, from);
    SentIsRead(s, till);
  }

  lemma SpanIsOwed(s: State, from: nat, till: nat)
    requires StreamOk(s) && Complete(s) && s.base <= from <= till <= |s.sent|
    ensures Ascending(s.sent[from..till]) && forall e :: e in s.sent[from..till] <==> Owed(s, from, till, e)
  {
    SpanIsWindow(s, from, till);
    forall e
      ensures e in s.sent[from..till] <==> Owed(s, from, till, e)
    {
      OwedIsDue(s, from, till, e);
    }
  }

  /**
    A subscriber that came after the last seek is called, in order, with exactly the rows ever appended
    whose numbers went by meanwhile, apart from those that had been deleted before they were read.
   */
  lemma DeliveryIsExact(log: seq<Event>, startSeq: int, acts: seq<Action>, batch: nat, id: nat)
    requires Ascending(log) && AllConform(Beginning(log, startSeq), acts, batch)
    requires var s := Run(Beginning(log, startSeq), acts); id in s.subs && s.subs[id].from >= s.base
    ensures var s := Run(Beginning(log, startSeq), acts);
      var sub := s.subs[id];
      s.lost <= s.dropped && s.base <= sub.from <= Till(s, sub) <= |s.sent| &&
      Ascending(sub.got) && forall e :: e in sub.got <==> Owed(s, sub.from, Till(s, sub), e)
  {
    var s := Run(Beginning(log, startSeq), acts);
    RunsStayOk(log, startSeq, acts, batch);
    RunsStayComplete(log, startSeq, acts, batch);
    SubscribersGetTheirSpan(log, startSeq, acts, id);
    SpanIsOwed(s, s.subs[id].from, Till(s, s.subs[id]));
  }

  lemma BothEmpty(a: seq<Event>, b: seq<Event>)
    requires forall e :: e in a <==> e in b
    ensures a == [] <==> b == []
  {
    if a != [] {
      assert a[0] in b;
    }
    if b != [] {
      assert b[0] in a;
    }
  }

  lemma {:induction false} SameRows(a: seq<Event>, b: seq<Event>)
    requires Ascending(a) && Ascending(b) && forall e :: e in a <==> e in b
    ensures a == b
    decreases |a|
  {
    BothEmpty(a, b);
    if a != [] {
      var m, n := |a| - 1, |b| - 1;
      LastIsGreatest(a);
      LastIsGreatest(b);
      assert a[m] in b && b[n] in a;
      AscendingPair(a, a[m], b[n]);
      AllButLast(a);
      AllButLast(b);
      assert forall e :: e in a[..m] <==> e in b[..n] by {
        assert forall e :: e in a[..m] ==> e in a && e in b;
        assert forall e :: e in b[..n] ==> e in b && e in a;
      }
      SameRows(a[..m], b[..n]);
      assert a == a[..m] + [a[m]] && b == b[..n] + [b[n]];
    }
  }

  lemma LastIsGreatest(a: seq<Event>)
    requires Ascending(a) && a != []
    ensures forall e :: e in a ==> e.seqNo <= a[|a| - 1].seqNo
  {
    forall e | e in a
      ensures e.seqNo <= a[|a| - 1].seqNo
    {
      NothingPastHead(a, e);
    }
  }

  lemma AllButLast(a: seq<Event>)
    requires Ascending(a) && a != []
    ensures Ascending(a[..|a| - 1]) && forall e :: e in a[..|a| - 1] <==> e in a && e != a[|a| - 1]
  {
    var m := |a| - 1;
    AscendingPart(a, 0, m);
    assert a[0..m] == a[..m];
    forall e | e in a[..m]
      ensures e != a[m]
    {
      var i :| 0 <= i < m && a[..m][i] == e;
      assert Before(a, i, m);
    }
    forall e | e in a && e != a[m]
      ensures e in a[..m]
    {
      var i :| 0 <= i < |a| && a[i] == e;
      assert a[..m][i] == e;
    }
  }

  /** When no row was deleted unread, what the subscriber got is one stretch of the rows ever appended. */
  lemma DeliveryIsContiguous(log: seq<Event>, startSeq: int, acts: seq<Action>, batch: nat, id: nat)
      returns (i: nat, j: nat)
    requires Ascending(log) && AllConform(Beginning(log, startSeq), acts, batch)
    requires var s := Run(Beginning(log, startSeq), acts);
      id in s.subs && s.subs[id].from >= s.base && s.lost == {}
    ensures var s := Run(Beginning(log, startSeq), acts);
      i <= j <= |s.history| && s.subs[id].got == s.history[i..j]
  {
    var s := Run(Beginning(log, startSeq), acts);
    var sub := s.subs[id];
    RunsStayOk(log, startSeq, acts, batch);
    DeliveryIsExact(log, startSeq, acts, batch, id);
    i, j := OwedIsStretch(s, sub.from, Till(s, sub), sub.got);
  }

  lemma OwedIsStretch(s: State, from: nat, till: nat, got: seq<Event>) returns (i: nat, j: nat)
    requires Ascending(s.history) && s.lost == {} && s.base <= from <= till <= |s.sent|
    requires Ascending(got) && forall e :: e in got <==> Owed(s, from, till, e)
    ensures i <= j <= |s.history| && got == s.history[i..j]
  {
    i := CursorParts(s.history, CursorAt(s, from));
    j := CursorParts(s.history, CursorAt(s, till));
    if j < i {
      j := i;
    }
    AscendingPart(s.history, i, j);
    forall e
      ensures e in s.history[i..j] <==> Owed(s, from, till, e)
    {
      if e in s.history[i..j] {
        var k :| 0 <= k < j - i && s.history[i..j][k] == e;
        assert s.history[i + k] == e;
      }
      if Owed(s, from, till, e) {
        var k :| 0 <= k < |s.history| && s.history[k] == e;
        assert s.history[i..j][k - i] == e;
      }
    }
    SameRows(got, s.history[i..j]);
  }
}
