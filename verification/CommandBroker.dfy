/** The browser command broker: what its mutex guards, and the sections that run under it. */
module CommandBroker {
  import opened Options

  /** Connections and request ids are fresh each time, so a number names each one. */
  type Conn = nat
  type Req = nat

  datatype Fault = Fault(code: string, message: string)

  datatype Payload = Absent | Null | Decodable(value: string) | Malformed

  datatype Reply = Reply(id: Req, ok: bool, error: Option<Fault>, result: Payload)

  datatype Outcome = Value(value: string) | CommandFailed(fault: Fault) | Undecodable | Unavailable

  const EMPTY_OBJECT := "{}"
  const DEFAULT_FAULT := Fault("BROWSER_COMMAND_FAILED", "Browser command failed")

  function OutcomeOf(m: Reply): Outcome {
    if !m.ok then CommandFailed(if m.error.Some? then m.error.value else DEFAULT_FAULT)
    else
      match m.result
      case Absent | Null => Value(EMPTY_OBJECT)
      case Decodable(value) => Value(value)
      case Malformed => Undecodable
  }

  // ---------- what the mutex guards ----------

  /** The current connection and the requests whose channels are in the pending map. */
  datatype Shared = Shared(conn: Option<Conn>, pending: set<Req>)

  /** No connection, nothing pending. */
  predicate Settled(s: Shared) {
    s.conn.None? ==> s.pending == {}
  }

  function Registered(s: Shared, r: Req): Shared {
    if s.conn.None? then s else s.(pending := s.pending + {r})
  }

  function Replaced(s: Shared, c: Conn): Shared {
    Shared(Some(c), {})
  }

  function Removed(s: Shared, r: Req): Shared {
    s.(pending := s.pending - {r})
  }

  /** Only the current connection can be cleared. */
  function Cleared(s: Shared, c: Conn): Shared {
    if s.conn == Some(c) then Shared(None, {}) else s
  }

  // ---------- the broker as an object ----------

  /** A channel of capacity one; a send to a full one would block. */
  class Channel {
    var content: Option<Outcome>

    constructor ()
      ensures content.None?
    {
      content := None;
    }

    method Send(o: Outcome)
      requires content.None?
      modifies this
      ensures content == Some(o)
    {
      content := Some(o);
    }
  }

  predicate Distinct(pending: map<Req, Channel>) {
    forall r, q :: r in pending && q in pending && pending[r] == pending[q] ==> r == q
  }

  class Broker {
    var conn: Option<Conn>
    var pending: map<Req, Channel>

    ghost function Core(): Shared
      reads this
    {
      Shared(conn, pending.Keys)
    }

    ghost predicate Valid()
      reads this, pending.Values
    {
      Settled(Core()) && Distinct(pending) && forall r :: r in pending ==> pending[r].content.None?
    }

    constructor ()
      ensures Valid() && Core() == Shared(None, {})
    {
      conn := None;
      pending := map[];
    }

    /** Execute's first section: nothing is registered unless a connection is there. */
    method Register(r: Req, ch: Channel) returns (c: Option<Conn>)
      requires Valid() && ch.content.None? && r !in pending && ch !in pending.Values
      modifies this
      ensures Valid() && c == old(conn) == conn && Core() == Registered(old(Core()), r)
      ensures pending == if c.Some? then old(pending)[r := ch] else old(pending)
    {
      c := conn;
      if c.None? {
        return;
      }
      pending := pending[r := ch];
    }

    method TakePending() returns (taken: map<Req, Channel>)
      modifies this`pending
      ensures taken == old(pending) && pending == map[]
    {
      taken := pending;
      pending := map[];
    }

    /** serveConn after a valid hello: the new connection stands and everything pending is taken. */
    method Replace(c: Conn) returns (previous: Option<Conn>, taken: map<Req, Channel>)
      requires Valid()
      modifies this
      ensures Valid() && previous == old(conn) && taken == old(pending) && Core() == Replaced(old(Core()), c)
      ensures conn == Some(c) && pending == map[]
    {
      previous := conn;
      conn := Some(c);
      taken := TakePending();
    }

    /** disconnect's section; a connection that is no longer current changes nothing. */
    method Clear(c: Conn) returns (cleared: bool, taken: map<Req, Channel>)
      requires Valid()
      modifies this
      ensures Valid() && cleared == (old(conn) == Some(c)) && Core() == Cleared(old(Core()), c)
      ensures taken == if cleared then old(pending) else map[]
      ensures if cleared then conn == None && pending == map[] else conn == old(conn) && pending == old(pending)
    {
      if conn != Some(c) {
        return false, map[];
      }
      conn := None;
      taken := TakePending();
      cleared := true;
    }

    method RemovePending(r: Req)
      requires Valid()
      modifies this
      ensures Valid() && Core() == Removed(old(Core()), r) && pending == old(pending) - {r} && conn == old(conn)
    {
      pending := pending - {r};
    }

    /** resolve: the first reply to a pending request answers it; any other reply is dropped. */
    method Resolve(m: Reply)
      requires Valid()
      modifies this, pending.Values
      ensures Valid() && Core() == Removed(old(Core()), m.id) && pending == old(pending) - {m.id} && conn == old(conn)
      ensures forall r :: r in old(pending) && r != m.id ==> old(pending[r]).content == None
      ensures m.id in old(pending) && !m.ok && m.error.Some? ==>
        old(pending[m.id]).content == Some(CommandFailed(m.error.value))
      ensures m.id in old(pending) && !m.ok && m.error.None? ==>
        old(pending[m.id]).content == Some(CommandFailed(Fault("BROWSER_COMMAND_FAILED", "Browser command failed")))
      ensures m.id in old(pending) && m.ok && m.result.Decodable? ==>
        old(pending[m.id]).content == Some(Value(m.result.value))
      ensures m.id in old(pending) && m.ok && (m.result.Absent? || m.result.Null?) ==>
        old(pending[m.id]).content == Some(Value("{}"))
      ensures m.id in old(pending) && m.ok && m.result.Malformed? ==>
        old(pending[m.id]).content == Some(Undecodable)
      ensures m.id in old(pending) ==> old(pending[m.id]).content == Some(OutcomeOf(m))
    {
      if m.id in pending {
        var ch := pending[m.id];
        pending := pending - {m.id};
        if !m.ok {
          ch.Send(CommandFailed(if m.error.Some? then m.error.value else DEFAULT_FAULT));
          return;
        }
        var value := EMPTY_OBJECT;
        if !m.result.Absent? && !m.result.Null? {
          if m.result.Malformed? {
            ch.Send(Undecodable);
            return;
          }
          value := m.result.value;
        }
        ch.Send(Value(value));
      }
    }
  }

  /** failPending: every taken channel is empty, so no send waits, and each gets the error once. */
  method FailPending(taken: map<Req, Channel>, o: Outcome)
    requires Distinct(taken) && forall r :: r in taken ==> taken[r].content.None?
    modifies taken.Values
    ensures forall r :: r in taken ==> taken[r].content == Some(o)
  {
    var rest := taken.Keys;
    while rest != {}
      invariant rest <= taken.Keys
      invariant forall r :: r in taken ==> taken[r].content == if r in rest then None else Some(o)
    {
      var r :| r in rest;
      taken[r].Send(o);
      rest := rest - {r};
    }
  }
}
