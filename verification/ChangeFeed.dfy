/** Tailing the change log and fanning new events out to subscribers. */
module ChangeFeed {
  import opened Options

  /** A row of change_log; project-level events belong to no session. */
  datatype Event = Event(seqNo: int, session: Option<string>, payload: string)

  const DEFAULT_BATCH := 512

  // ---------- the log ----------

  predicate Before(evs: seq<Event>, i: nat, j: nat)
    requires i < j < |evs|
  {
    evs[i].seqNo < evs[j].seqNo
  }

  ghost predicate Ascending(evs: seq<Event>) {
    forall i: nat, j: nat {:trigger Before(evs, i, j)} :: i < j < |evs| ==> Before(evs, i, j)
  }

  lemma AscendingPart(evs: seq<Event>, from: nat, to: nat)
    requires Ascending(evs) && from <= to <= |evs|
    ensures Ascending(evs[from..to])
  {
    forall i: nat, j: nat | i < j < to - from
      ensures Before(evs[from..to], i, j)
    {
      assert Before(evs, from + i, from + j);
    }
  }

  /** The rows a query for seq > cursor selects. */
  function After(log: seq<Event>, cursor: int): seq<Event>
    decreases |log|
  {
    if log == [] then []
    else
      var last := log[|log| - 1];
      After(log[..|log| - 1], cursor) + if last.seqNo > cursor then [last] else []
  }

  function Limit<T>(s: seq<T>, n: nat): seq<T> {
    if |s| <= n then s else s[..n]
  }

  /** EventsAfter over the change_log table. */
  function EventsAfter(log: seq<Event>, cursor: int, limit: nat): seq<Event> {
    Limit(After(log, cursor), limit)
  }

  /** MAX(seq), or 0 for an empty table. */
  function LatestSeq(log: seq<Event>): int {
    if log == [] then 0 else log[|log| - 1].seqNo
  }

  /** The cursor parts the log at k. */
  predicate Parts(log: seq<Event>, cursor: int, k: nat) {
    k <= |log| && forall i :: 0 <= i < |log| ==> (log[i].seqNo > cursor <==> k <= i)
  }

  lemma CursorParts(log: seq<Event>, cursor: int) returns (k: nat)
    requires Ascending(log)
    ensures Parts(log, cursor, k)
  {
    k := |log|;
    while k > 0 && log[k - 1].seqNo > cursor
      invariant k <= |log|
      invariant forall i :: k <= i < |log| ==> log[i].seqNo > cursor
    {
      k := k - 1;
    }
    forall i | 0 <= i < k
      ensures log[i].seqNo <= cursor
    {
      assert i < k - 1 ==> Before(log, i, k - 1);
    }
  }

  lemma {:induction false} AfterNothing(log: seq<Event>, cursor: int)
    requires forall i :: 0 <= i < |log| ==> log[i].seqNo <= cursor
    ensures After(log, cursor) == []
    decreases |log|
  {
    if log != [] {
      AfterNothing(log[..|log| - 1], cursor);
    }
  }

  lemma LastApart<T>(s: seq<T>, t: seq<T>)
    requires t != []
    ensures t == t[..|t| - 1] + [t[|t| - 1]] && s + t == s + t[..|t| - 1] + [t[|t| - 1]]
  {
  }

  lemma {:induction false} AfterJoin(log: seq<Event>, more: seq<Event>, cursor: int)
    requires forall i :: 0 <= i < |more| ==> more[i].seqNo > cursor
    ensures After(log + more, cursor) == After(log, cursor) + more
    decreases |more|
  {
    if more == [] {
      assert log + more == log;
    } else {
      var n := |more| - 1;
      AfterJoin(log, more[..n], cursor);
      AfterAppend(log + more[..n], more[n], cursor);
      LastApart(log, more);
      LastApart(After(log, cursor), more);
    }
  }

  lemma AfterParted(log: seq<Event>, cursor: int, k: nat)
    requires Parts(log, cursor, k)
    ensures After(log, cursor) == log[k..]
  {
    AfterNothing(log[..k], cursor);
    AfterJoin(log[..k], log[k..], cursor);
    assert log == log[..k] + log[k..];
  }

  /** In a log that ascends, what comes after a cursor is one uninterrupted tail of it. */
  lemma AfterIsTail(log: seq<Event>, cursor: int) returns (k: nat)
    requires Ascending(log)
    ensures Parts(log, cursor, k) && After(log, cursor) == log[k..]
  {
    k := CursorParts(log, cursor);
    AfterParted(log, cursor, k);
  }

  lemma AheadIsLogged(log: seq<Event>, cursor: int)
    requires Ascending(log) && After(log, cursor) != []
    ensures log != [] && After(log, cursor)[0].seqNo <= LatestSeq(log)
  {
    var k := AfterIsTail(log, cursor);
    assert k < |log| - 1 ==> Before(log, k, |log| - 1);
  }

  lemma AfterAppend(log: seq<Event>, e: Event, cursor: int)
    ensures After(log + [e], cursor) == After(log, cursor) + if e.seqNo > cursor then [e] else []
  {
    assert (log + [e])[..|log|] == log;
  }

  lemma AscendingSnoc(evs: seq<Event>, e: Event)
    ensures Ascending(evs + [e]) <==> Ascending(evs) && (evs != [] ==> evs[|evs| - 1].seqNo < e.seqNo)
  {
    var more := evs + [e];
    if Ascending(more) {
      AscendingPart(more, 0, |evs|);
      assert more[0..|evs|] == evs;
      assert evs != [] ==> Before(more, |evs| - 1, |evs|);
    }
    if Ascending(evs) && (evs != [] ==> evs[|evs| - 1].seqNo < e.seqNo) {
      forall i: nat, j: nat | i < j < |more|
        ensures Before(more, i, j)
      {
        assert j < |evs| ==> Before(evs, i, j);
        assert i < |evs| - 1 ==> Before(evs, i, |evs| - 1);
      }
    }
  }

  /** Moving the cursor onto an event leaves what came after that event. */
  lemma AdvanceDropsOne(log: seq<Event>, cursor: int)
    requires Ascending(log) && After(log, cursor) != []
    ensures After(log, cursor)[0].seqNo > cursor
    ensures After(log, After(log, cursor)[0].seqNo) == After(log, cursor)[1..]
  {
    var k := AfterIsTail(log, cursor);
    var j := AfterIsTail(log, log[k].seqNo);
    assert log[k] == After(log, cursor)[0];
    assert j == k + 1 by {
      assert j > k;
      assert k + 1 < |log| ==> Before(log, k, k + 1);
    }
  }

  // ---------- broadcasting ----------

  /** A subscriber's callback, seen as the events it was called with. */
  class Inbox {
    var got: seq<Event>

    constructor ()
      ensures got == []
    {
      got := [];
    }

    /** A callback that panics has still been called; the broadcaster recovers and goes on. */
    method Deliver(e: Event)
      modifies this
      ensures got == old(got) + [e]
    {
      got := got + [e];
    }
  }

  class Broadcaster {
    var nextId: nat
    var subs: map<nat, Inbox>

    ghost predicate Valid()
      reads this
    {
      (forall id :: id in subs ==> id < nextId) &&
      forall i, j :: i in subs && j in subs && subs[i] == subs[j] ==> i == j
    }

    constructor ()
      ensures Valid() && subs == map[]
    {
      nextId := 0;
      subs := map[];
    }

    /** An id is never used twice, so an old unsubscribe cannot remove a newer subscriber. */
    method Subscribe(inbox: Inbox) returns (id: nat)
      requires Valid() && inbox !in subs.Values
      modifies this
      ensures Valid() && id == old(nextId) < nextId && id !in old(subs) && subs == old(subs)[id := inbox]
    {
      id := nextId;
      nextId := nextId + 1;
      subs := subs[id := inbox];
    }

    method Unsubscribe(id: nat)
      requires Valid()
      modifies this`subs
      ensures Valid() && subs == old(subs) - {id}
    {
      subs := subs - {id};
    }

    /** What each subscriber has been called with. */
    ghost function Received(): map<nat, seq<Event>>
      reads this, subs.Values
    {
      map id | id in subs :: subs[id].got
    }

    /** Every current subscriber is called once, whatever the order. */
    method Publish(e: Event)
      requires Valid()
      modifies subs.Values
      ensures Received() == AllGot(old(Received()), [e])
    {
      var rest := subs.Keys;
      while rest != {}
        invariant rest <= subs.Keys
        invariant forall id :: id in subs ==>
          subs[id].got == if id in rest then old(subs[id].got) else old(subs[id].got) + [e]
      {
        var id :| id in rest;
        subs[id].Deliver(e);
        rest := rest - {id};
      }
    }
  }

  function AllGot(received: map<nat, seq<Event>>, evs: seq<Event>): map<nat, seq<Event>> {
    map id | id in received :: received[id] + evs
  }

  lemma GotNothing(received: map<nat, seq<Event>>)
    ensures AllGot(received, []) == received
  {
    assert forall id :: id in received ==> received[id] + [] == received[id];
  }

  lemma GotMore(received: map<nat, seq<Event>>, evs: seq<Event>, e: Event)
    ensures AllGot(AllGot(received, evs), [e]) == AllGot(received, evs + [e])
  {
    forall id | id in received
      ensures received[id] + evs + [e] == received[id] + (evs + [e])
    {
    }
  }

  // ---------- polling ----------

  /** The events a poll broadcasts: each must be past everything broadcast before it. */
  function Fresh(evs: seq<Event>, cursor: int): seq<Event> {
    if evs == [] then []
    else if evs[0].seqNo <= cursor then Fresh(evs[1..], cursor)
    else [evs[0]] + Fresh(evs[1..], evs[0].seqNo)
  }

  lemma FreshStep(evs: seq<Event>, i: nat, cursor: int)
    requires i < |evs|
    ensures Fresh(evs[i..], cursor) ==
      if evs[i].seqNo <= cursor then Fresh(evs[i + 1..], cursor)
      else [evs[i]] + Fresh(evs[i + 1..], evs[i].seqNo)
  {
    assert evs[i..][1..] == evs[i + 1..];
  }

  lemma Regroup<T>(a: seq<T>, x: T, b: seq<T>)
    ensures a + ([x] + b) == a + [x] + b
  {
  }

  function CursorAfter(evs: seq<Event>, cursor: int): int {
    if evs == [] then cursor else evs[|evs| - 1].seqNo
  }

  lemma AscendingCons(e: Event, evs: seq<Event>)
    requires Ascending(evs) && forall f :: f in evs ==> e.seqNo < f.seqNo
    ensures Ascending([e] + evs)
  {
    forall i: nat, j: nat | i < j < |evs| + 1
      ensures Before([e] + evs, i, j)
    {
      assert i > 0 ==> Before(evs, i - 1, j - 1);
      assert evs[j - 1] in evs;
    }
  }

  /** Whatever the source answers, what is broadcast ascends from the cursor. */
  lemma {:induction false} FreshAscends(evs: seq<Event>, cursor: int)
    ensures Ascending(Fresh(evs, cursor))
    ensures forall e :: e in Fresh(evs, cursor) ==> cursor < e.seqNo && e in evs
  {
    if evs != [] {
      if evs[0].seqNo <= cursor {
        FreshAscends(evs[1..], cursor);
      } else {
        FreshAscends(evs[1..], evs[0].seqNo);
        AscendingCons(evs[0], Fresh(evs[1..], evs[0].seqNo));
      }
    }
  }

  /** Every event so far has a smaller number. */
  predicate Tops(evs: seq<Event>, cursor: int, e: Event) {
    e.seqNo > cursor && forall f :: f in evs ==> f.seqNo < e.seqNo
  }

  /** Of any answer, exactly those events are broadcast whose number is past the cursor and all before them. */
  lemma {:induction false} FreshAreRecords(evs: seq<Event>, cursor: int, e: Event)
    ensures Fresh(evs + [e], cursor) == if Tops(evs, cursor, e) then Fresh(evs, cursor) + [e] else Fresh(evs, cursor)
  {
    if evs == [] {
      assert [e][1..] == [];
    } else {
      assert (evs + [e])[1..] == evs[1..] + [e];
      assert evs == [evs[0]] + evs[1..];
      if evs[0].seqNo <= cursor {
        FreshAreRecords(evs[1..], cursor, e);
      } else {
        FreshAreRecords(evs[1..], evs[0].seqNo, e);
      }
    }
  }

  /** An answer that ascends past the cursor is broadcast whole. */
  lemma {:induction false} FreshKeepsAscending(evs: seq<Event>, cursor: int)
    requires Ascending(evs) && (evs != [] ==> cursor < evs[0].seqNo)
    ensures Fresh(evs, cursor) == evs
  {
    if evs != [] {
      AscendingPart(evs, 1, |evs|);
      assert |evs| > 1 ==> Before(evs, 0, 1) && evs[1..][0] == evs[1];
      assert evs[1..|evs|] == evs[1..];
      FreshKeepsAscending(evs[1..], evs[0].seqNo);
    }
  }

  class Poller {
    const bcast: Broadcaster
    const batch: nat
    var lastSeq: int

    constructor (bcast: Broadcaster, batch: int, startSeq: int)
      ensures this.bcast == bcast && lastSeq == startSeq
      ensures this.batch > 0 && this.batch == if batch > 0 then batch else DEFAULT_BATCH
    {
      this.bcast := bcast;
      this.batch := if batch <= 0 then DEFAULT_BATCH else batch;
      lastSeq := startSeq;
    }

    method SeekToHead(latest: Option<int>) returns (ok: bool)
      modifies this
      ensures ok == latest.Some? && lastSeq == if ok then latest.value else old(lastSeq)
    {
      if latest.None? {
        return false;
      }
      lastSeq := latest.value;
      return true;
    }

    /** What a poll does with an event past the cursor. */
    method Broadcast(e: Event)
      requires bcast.Valid()
      modifies this, bcast.subs.Values
      ensures lastSeq == e.seqNo && bcast.Received() == AllGot(old(bcast.Received()), [e])
    {
      bcast.Publish(e);
      lastSeq := e.seqNo;
    }

    /** One poll; `answer` is what the source returned, None for an error. */
    method Poll(answer: Option<seq<Event>>) returns (ok: bool)
      requires bcast.Valid()
      modifies this, bcast.subs.Values
      ensures ok == answer.Some?
      ensures ok ==> lastSeq == CursorAfter(Fresh(answer.value, old(lastSeq)), old(lastSeq))
      ensures ok ==> bcast.Received() == AllGot(old(bcast.Received()), Fresh(answer.value, old(lastSeq)))
      ensures !ok ==> lastSeq == old(lastSeq) && bcast.Received() == old(bcast.Received())
    {
      if answer.None? {
        return false;
      }
      var evs := answer.value;
      ghost var sent: seq<Event> := [];
      var i := 0;
      GotNothing(bcast.Received());
      while i < |evs|
        invariant 0 <= i <= |evs|
        invariant lastSeq == CursorAfter(sent, old(lastSeq))
        invariant Fresh(evs, old(lastSeq)) == sent + Fresh(evs[i..], lastSeq)
        invariant bcast.Received() == AllGot(old(bcast.Received()), sent)
      {
        var e := evs[i];
        FreshStep(evs, i, lastSeq);
        Regroup(sent, e, Fresh(evs[i + 1..], e.seqNo));
        if e.seqNo > lastSeq {
          Broadcast(e);
          GotMore(old(bcast.Received()), sent, e);
          sent := sent + [e];
        }
        i := i + 1;
      }
      assert Fresh(evs, old(lastSeq)) == sent;
      return true;
    }
  }

  // ---------- draining ----------

  /** What `polls` polls broadcast when nothing is appended meanwhile. */
  function Drained(log: seq<Event>, cursor: int, batch: nat, polls: nat): seq<Event>
    decreases polls
  {
    if polls == 0 then []
    else
      var first := Fresh(EventsAfter(log, cursor, batch), cursor);
      first + Drained(log, CursorAfter(first, cursor), batch, polls - 1)
  }

  lemma FirstAreFresh(log: seq<Event>, cursor: int, n: nat)
    requires Ascending(log) && n <= |After(log, cursor)|
    ensures Fresh(After(log, cursor)[..n], cursor) == After(log, cursor)[..n]
  {
    var k := AfterIsTail(log, cursor);
    AscendingPart(log, k, k + n);
    assert log[k..k + n] == After(log, cursor)[..n];
    FreshKeepsAscending(After(log, cursor)[..n], cursor);
  }

  lemma OneFewerAhead(log: seq<Event>, cursor: int, before: int, n: nat)
    requires Ascending(log) && n < |After(log, cursor)| && After(log, before) == After(log, cursor)[n..]
    ensures After(log, After(log, cursor)[n].seqNo) == After(log, cursor)[n + 1..]
  {
    AdvanceDropsOne(log, before);
    assert After(log, cursor)[n..][1..] == After(log, cursor)[n + 1..];
  }

  /** Broadcasting the first n events after the cursor moves the cursor to leave the others. */
  lemma {:induction false} SkipMany(log: seq<Event>, cursor: int, n: nat)
    requires Ascending(log) && n <= |After(log, cursor)|
    ensures After(log, CursorAfter(After(log, cursor)[..n], cursor)) == After(log, cursor)[n..]
    decreases n
  {
    if n > 0 {
      SkipMany(log, cursor, n - 1);
      OneFewerAhead(log, cursor, CursorAfter(After(log, cursor)[..n - 1], cursor), n - 1);
    }
  }

  /** A poll of the log broadcasts the next batch and leaves the others ahead. */
  lemma PollBroadcastsBatch(log: seq<Event>, cursor: int, batch: nat)
    requires Ascending(log)
    ensures var tail := After(log, cursor);
      var first := EventsAfter(log, cursor, batch);
      Fresh(first, cursor) == first && After(log, CursorAfter(first, cursor)) == tail[|first|..]
  {
    var tail := After(log, cursor);
    var first := Limit(tail, batch);
    assert first == tail[..|first|];
    SkipMany(log, cursor, |first|);
    FirstAreFresh(log, cursor, |first|);
  }

  lemma OneBatchMore(polls: nat, batch: nat)
    requires polls > 0
    ensures (polls - 1) * batch >= 0 && polls * batch == batch + (polls - 1) * batch
  {
  }

  lemma LimitSplits<T>(s: seq<T>, a: nat, b: nat)
    ensures Limit(s, a + b) == Limit(s, a) + Limit(s[|Limit(s, a)|..], b)
  {
  }

  /** Each poll broadcasts the next batch, so k polls broadcast the next k batches. */
  lemma {:induction false} PollsDrainBatches(log: seq<Event>, cursor: int, batch: nat, polls: nat)
    requires Ascending(log)
    ensures Drained(log, cursor, batch, polls) == Limit(After(log, cursor), polls * batch)
    decreases polls
  {
    var tail := After(log, cursor);
    if polls > 0 {
      var first := Limit(tail, batch);
      var rest := (polls - 1) * batch;
      OneBatchMore(polls, batch);
      PollBroadcastsBatch(log, cursor, batch);
      PollsDrainBatches(log, CursorAfter(first, cursor), batch, polls - 1);
      LimitSplits(tail, batch, rest);
    }
  }

  /** Nothing is left after exactly ceil(n / batch) polls, and something is left before that. */
  lemma CeilingPollsDrain(log: seq<Event>, cursor: int, batch: nat, polls: nat)
    requires Ascending(log) && batch > 0
    ensures Drained(log, cursor, batch, polls) == After(log, cursor) <==>
      polls >= (|After(log, cursor)| + batch - 1) / batch
  {
    PollsDrainBatches(log, cursor, batch, polls);
    CeilingIsLeast(|After(log, cursor)|, batch, polls);
  }

  lemma MoreTimes(a: nat, b: nat, d: nat)
    requires a <= b
    ensures a * d <= b * d
  {
    assert (b - a) * d >= 0;
  }

  lemma QuotientBounds(x: nat, d: nat)
    requires d > 0
    ensures (x / d) * d <= x < (x / d) * d + d
  {
    assert x == d * (x / d) + x % d;
  }

  lemma CeilingIsLeast(n: nat, batch: nat, polls: nat)
    requires batch > 0
    ensures polls * batch >= n <==> polls >= (n + batch - 1) / batch
  {
    var q := (n + batch - 1) / batch;
    QuotientBounds(n + batch - 1, batch);
    if polls >= q {
      MoreTimes(q, polls, batch);
    } else {
      MoreTimes(polls + 1, q, batch);
    }
  }
}
