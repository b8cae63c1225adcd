/**
 * web.py's WebServer as an event handler: the registry of client
 * descriptors, their last-activity times and their request buffers, updated
 * by accepting clients (handleServer), by reading from one (handleClient), by
 * an error event (handleError) and by the idle sweep at the top of serve's
 * loop. Sockets become descriptor numbers; what a socket yields on a read, the
 * clock, the file system and the Date value are parameters.
 */
module Server {
  import opened Common
  import opened Text
  import opened Framing
  import opened ServerConfig
  import opened Http

  /** What handling a descriptor leads to: nothing yet, a response sent, or an exception that ends serve. */
  datatype Outcome = Waiting | Replied(text: string) | Crashed(fault: Fault)

  /** One event reported by poll: an error or hang-up, or readiness to read. */
  datatype Event = Trouble(fd: int) | Ready(fd: int)

  /** What a complete request (if one was handed over) leads to. */
  function Answered(request: Option<string>, config: Config, fs: FileSystem, date: string, stamp: int -> string): Outcome
    requires WellFormed(config)
  {
    match request
    case None => Waiting
    case Some(text) =>
      match Respond(text, config, fs)
      case Success(r) => Replied(Render(r, date, stamp))
      case Failure(f) => Crashed(f)
  }

  /** The bytes a read on fd returns; a descriptor with nothing pending reads as nothing. */
  function Pending(pending: map<int, string>, fd: int): string {
    if fd in pending then pending[fd] else ""
  }

  /** The descriptors idle for longer than the timeout at time now. */
  function Expired(times: map<int, int>, now: int, timeout: int): set<int> {
    set fd | fd in times && now - times[fd] > timeout
  }

  /**
   * What the sweep's handling of an expired entry leads to: a client still
   * open gets one last read; an entry whose client is already closed gets
   * none.
   */
  function Farewell(clients: set<int>, cache: Cache, pending: map<int, string>, fd: int,
                    config: Config, fs: FileSystem, date: string, stamp: int -> string): Outcome
    requires WellFormed(config)
  {
    if fd in clients then Answered(Receive(cache, fd, Pending(pending, fd)).request, config, fs, date, stamp)
    else Waiting
  }

  class WebServer {
    const config: Config
    const timeout: int
    /** The listening socket's descriptor. */
    const listener: int
    /** The open client descriptors (the keys of self.clients). */
    var clients: set<int>
    /** Last activity per descriptor. */
    var times: map<int, int>
    /** Bytes received and not yet answered, per descriptor. */
    var cache: Cache

    ghost predicate Valid()
      reads this
    {
      && WellFormed(config)
      && listener !in clients && listener !in times
      && clients <= times.Keys
      && NoEmptyEntries(cache)
    }

    constructor(config: Config, timeout: int, listener: int)
      requires WellFormed(config)
      ensures Valid()
      ensures this.config == config && this.timeout == timeout && this.listener == listener
      ensures clients == {} && times == map[] && cache == map[]
    {
      this.config := config;
      this.timeout := timeout;
      this.listener := listener;
      clients := {};
      times := map[];
      cache := map[];
    }

    /** isfullrequest: append the data to fd's buffer and tell whether it now holds a whole request. */
    method IsFullRequest(data: string, fd: int) returns (full: bool)
      modifies this`cache
      ensures cache == old(cache)[fd := Buffer(old(cache), fd) + data]
      ensures full == Complete(cache[fd])
    {
      if fd !in cache {
        assert Buffer(cache, fd) + data == data;
        cache := cache[fd := data];
      } else {
        cache := cache[fd := cache[fd] + data];
      }
      full := EndsWith(cache[fd], Terminator);
    }

    /**
     * handleClient. received is what recv returned, or None when it raised:
     * every socket error is taken for "no data yet". A non-empty read
     * refreshes fd's time and goes through the framer; a complete request is
     * answered and its buffer dropped, unless answering it raises.
     */
    method HandleClient(fd: int, received: Option<string>, now: int, fs: FileSystem, date: string, stamp: int -> string)
      returns (outcome: Outcome)
      requires Valid() && fd in clients
      modifies this`times, this`cache
      ensures Valid()
      ensures var data := if received.Some? then received.value else "";
        var s := Receive(old(cache), fd, data);
        && outcome == Answered(s.request, config, fs, date, stamp)
        && times == (if data == "" then old(times) else old(times)[fd := now])
        && cache == (if outcome.Crashed? then old(cache)[fd := s.request.value] else s.cache)
    {
      if received.None? || received.value == "" {
        return Waiting;
      }
      var data := received.value;
      times := times[fd := now];
      var full := IsFullRequest(data, fd);
      if !full {
        return Waiting;
      }
      var response := HandleRequest(cache[fd], config, fs);
      match response
      case Failure(f) =>
        outcome := Crashed(f);
      case Success(r) =>
        outcome := Replied(Render(r, date, stamp));
        cache := cache - {fd};
    }

    /**
     * handleServer: every accepted client is registered with the current
     * time. The cache is left alone, so a reused descriptor number inherits
     * whatever bytes an earlier connection left behind.
     */
    method HandleServer(accepted: seq<int>, now: int)
      requires Valid()
      requires forall i | 0 <= i < |accepted| :: accepted[i] !in clients && accepted[i] != listener
      requires forall i, j | 0 <= i < j < |accepted| :: accepted[i] != accepted[j]
      modifies this`clients, this`times
      ensures Valid()
      ensures clients == old(clients) + (set i | 0 <= i < |accepted| :: accepted[i])
      ensures times.Keys == old(times).Keys + (set i | 0 <= i < |accepted| :: accepted[i])
      ensures forall fd | fd in times :: times[fd] == if fd in accepted then now else old(times)[fd]
    {
      for k := 0 to |accepted|
        invariant Valid()
        invariant clients == old(clients) + (set i | 0 <= i < k :: accepted[i])
        invariant times.Keys == old(times).Keys + (set i | 0 <= i < k :: accepted[i])
        invariant forall fd | fd in times :: times[fd] == if fd in accepted[..k] then now else old(times)[fd]
      {
        clients := clients + {accepted[k]};
        times := times[accepted[k] := now];
      }
      assert accepted[..|accepted|] == accepted;
    }

    /**
     * handleError: an error on the listener reaches the recreation branch,
     * which raises; an error on a client closes it. Its time and buffer stay.
     */
    method HandleError(fd: int) returns (fault: Option<Fault>)
      requires Valid() && (fd in clients || fd == listener)
      modifies this`clients
      ensures Valid()
      ensures fd == listener ==> fault == Some(ListenerLost) && clients == old(clients)
      ensures fd != listener ==> fault == None && clients == old(clients) - {fd}
    {
      if fd == listener {
        return Some(ListenerLost);
      }
      clients := clients - {fd};
      return None;
    }

    /**
     * One event from poll, routed as serve's loop routes it: an error or
     * hang-up goes to handleError, readiness of the listener to handleServer,
     * readiness of a client to handleClient.
     */
    method Dispatch(event: Event, accepted: seq<int>, received: Option<string>, now: int,
                    fs: FileSystem, date: string, stamp: int -> string) returns (outcome: Outcome)
      requires Valid()
      requires event.fd in clients || event.fd == listener
      requires event.Ready? && event.fd == listener ==>
        && (forall i | 0 <= i < |accepted| :: accepted[i] !in clients && accepted[i] != listener)
        && (forall i, j | 0 <= i < j < |accepted| :: accepted[i] != accepted[j])
      modifies this`clients, this`times, this`cache
      ensures Valid()
      ensures event.Trouble? ==>
        && outcome == (if event.fd == listener then Crashed(ListenerLost) else Waiting)
        && clients == old(clients) - {event.fd}
        && times == old(times) && cache == old(cache)
      ensures event.Ready? && event.fd == listener ==>
        && outcome == Waiting
        && clients == old(clients) + (set i | 0 <= i < |accepted| :: accepted[i])
        && times.Keys == old(times).Keys + (set i | 0 <= i < |accepted| :: accepted[i])
        && (forall fd | fd in times :: times[fd] == if fd in accepted then now else old(times)[fd])
        && cache == old(cache)
      ensures event.Ready? && event.fd != listener ==>
        var data := if received.Some? then received.value else "";
        var s := Receive(old(cache), event.fd, data);
        && outcome == Answered(s.request, config, fs, date, stamp)
        && clients == old(clients)
        && times == (if data == "" then old(times) else old(times)[event.fd := now])
        && cache == (if outcome.Crashed? then old(cache)[event.fd := s.request.value] else s.cache)
    {
      if event.Trouble? {
        var fault := HandleError(event.fd);
        outcome := if fault.Some? then Crashed(fault.value) else Waiting;
      } else if event.fd == listener {
        HandleServer(accepted, now);
        outcome := Waiting;
      } else {
        outcome := HandleClient(event.fd, received, now, fs, date, stamp);
      }
    }

    /**
     * One expired entry of the sweep: a client still open gets one last read
     * and is then unregistered, closed and forgotten, its buffer kept. An
     * entry whose client handleError already closed is only forgotten: epoll's
     * unregister of a closed descriptor returns without error.
     */
    method Retire(fd: int, now: int, pending: map<int, string>, fs: FileSystem, date: string, stamp: int -> string)
      returns (outcome: Outcome)
      requires Valid() && fd in times
      modifies this`clients, this`times, this`cache
      ensures Valid()
      ensures outcome == Farewell(old(clients), old(cache), pending, fd, config, fs, date, stamp)
      ensures !outcome.Crashed? ==>
        && clients == old(clients) - {fd}
        && times == old(times) - {fd}
        && cache == if fd in old(clients) then Receive(old(cache), fd, Pending(pending, fd)).cache else old(cache)
    {
      if fd !in clients {
        times := times - {fd};
        return Waiting;
      }
      var received := if fd in pending then Some(pending[fd]) else None;
      outcome := HandleClient(fd, received, now, fs, date, stamp);
      if !outcome.Crashed? {
        clients := clients - {fd};
        times := times - {fd};
      }
    }

    /**
     * The idle sweep at the top of serve's loop, over the times entries in
     * the order given; the clock reads now throughout. It stops at the first
     * entry that raises.
     */
    method Sweep(now: int, order: seq<int>, pending: map<int, string>, fs: FileSystem, date: string, stamp: int -> string)
      returns (replies: map<int, string>, fault: Option<Fault>)
      requires Valid()
      requires forall fd :: fd in times <==> fd in order
      requires forall i, j | 0 <= i < j < |order| :: order[i] != order[j]
      modifies this`clients, this`times, this`cache
      ensures Valid()
      ensures var expired := Expired(old(times), now, timeout);
        fault.None? ==>
          && clients == old(clients) - expired
          && times == old(times) - expired
          && (forall fd :: Buffer(cache, fd) == SweptBuffer(old(clients), old(cache), pending, expired, fd))
          && replies == RepliesOf(Farewells(old(clients), old(cache), pending, config, fs, date, stamp), expired)
      ensures var expired := Expired(old(times), now, timeout);
        fault.Some? <==> exists fd | fd in expired :: Farewell(old(clients), old(cache), pending, fd, config, fs, date, stamp).Crashed?
      ensures var expired := Expired(old(times), now, timeout);
        fault.Some? ==> exists fd | fd in expired ::
          Farewell(old(clients), old(cache), pending, fd, config, fs, date, stamp) == Crashed(fault.value)
    {
      var snapshot := times;
      ghost var expired := Expired(times, now, timeout);
      ghost var swept: set<int> := {};
      replies := map[];
      for i := 0 to |order|
        invariant Valid() && snapshot == old(times)
        invariant swept <= expired
        invariant forall fd | fd in swept :: fd in order[..i]
        invariant forall fd | fd in expired && fd in order[..i] :: fd in swept
        invariant clients == old(clients) - swept
        invariant times == old(times) - swept
        invariant forall fd :: Buffer(cache, fd) == SweptBuffer(old(clients), old(cache), pending, swept, fd)
        invariant replies == RepliesOf(Farewells(old(clients), old(cache), pending, config, fs, date, stamp), swept)
        invariant forall fd | fd in swept :: !Farewell(old(clients), old(cache), pending, fd, config, fs, date, stamp).Crashed?
      {
        var fd := order[i];
        assert fd !in order[..i];
        assert order[..i + 1] == order[..i] + [fd];
        if now - snapshot[fd] > timeout {
          ghost var before := cache;
          assert fd !in swept;
          assert fd in clients <==> fd in old(clients);
          assert Buffer(before, fd) == Buffer(old(cache), fd);
          var outcome := Retire(fd, now, pending, fs, date, stamp);
          ReceiveLocal(before, old(cache), fd, Pending(pending, fd));
          if outcome.Crashed? {
            assert fd in expired && Farewell(old(clients), old(cache), pending, fd, config, fs, date, stamp).Crashed?;
            return replies, Some(outcome.fault);
          }
          SweepStep(old(clients), old(cache), before, cache, pending, swept, fd);
          RepliesOfStep(Farewells(old(clients), old(cache), pending, config, fs, date, stamp), swept, fd);
          if outcome.Replied? {
            replies := replies[fd := outcome.text];
          }
          swept := swept + {fd};
        }
      }
      assert order[..|order|] == order;
      forall fd | fd in expired ensures fd in swept {
        assert fd in old(times);
      }
      assert swept == expired;
      fault := None;
    }
  }

  /** What the sweep leaves in fd's buffer once the entries in swept are handled; only open clients are read. */
  function SweptBuffer(clients: set<int>, cache: Cache, pending: map<int, string>, swept: set<int>, fd: int): string {
    if fd in swept && fd in clients then Buffer(Receive(cache, fd, Pending(pending, fd)).cache, fd) else Buffer(cache, fd)
  }

  /** The responses a handler gives the descriptors in swept, by descriptor. */
  function RepliesOf(handler: int --> Outcome, swept: set<int>): map<int, string>
    requires forall fd :: handler.requires(fd)
  {
    map fd | fd in swept && handler(fd).Replied? :: handler(fd).text
  }

  lemma RepliesOfStep(handler: int --> Outcome, swept: set<int>, fd: int)
    requires forall g :: handler.requires(g)
    requires fd !in swept
    ensures RepliesOf(handler, swept + {fd}) ==
      if handler(fd).Replied? then RepliesOf(handler, swept)[fd := handler(fd).text] else RepliesOf(handler, swept)
  {
    var grown := RepliesOf(handler, swept + {fd});
    var known := RepliesOf(handler, swept);
    var expected := if handler(fd).Replied? then known[fd := handler(fd).text] else known;
    assert grown.Keys == expected.Keys;
  }

  /** The last read and its outcome, as a function of the descriptor. */
  function Farewells(clients: set<int>, cache: Cache, pending: map<int, string>,
                     config: Config, fs: FileSystem, date: string, stamp: int -> string): int --> Outcome
  {
    fd requires WellFormed(config) => Farewell(clients, cache, pending, fd, config, fs, date, stamp)
  }

  /** Handling fd adds fd to the swept buffers and leaves every other buffer alone. */
  lemma SweepStep(clients: set<int>, initial: Cache, before: Cache, after: Cache, pending: map<int, string>,
                  swept: set<int>, fd: int)
    requires fd !in swept
    requires forall g :: Buffer(before, g) == SweptBuffer(clients, initial, pending, swept, g)
    requires after == if fd in clients then Receive(before, fd, Pending(pending, fd)).cache else before
    ensures forall g :: Buffer(after, g) == SweptBuffer(clients, initial, pending, swept + {fd}, g)
  {
    ReceiveFrame(before, fd, Pending(pending, fd));
    assert Buffer(before, fd) == Buffer(initial, fd);
    ReceiveLocal(before, initial, fd, Pending(pending, fd));
  }

  /** The idle set only grows as the clock advances. */
  lemma ExpiredGrows(times: map<int, int>, t: int, u: int, timeout: int)
    requires t <= u
    ensures Expired(times, t, timeout) <= Expired(times, u, timeout)
  {
  }

  /**
   * After a sweep every remaining entry is recent, and a sweep at t followed
   * by one at a later u leaves what a single sweep at u leaves.
   */
  lemma SweepsCompose(times: map<int, int>, t: int, u: int, timeout: int)
    requires t <= u
    ensures forall fd | fd in times - Expired(times, t, timeout) :: t - times[fd] <= timeout
    ensures var rest := times - Expired(times, t, timeout);
      rest - Expired(rest, u, timeout) == times - Expired(times, u, timeout)
  {
    var rest := times - Expired(times, t, timeout);
    ExpiredGrows(times, t, u, timeout);
    assert Expired(rest, u, timeout) == Expired(times, u, timeout) - Expired(times, t, timeout);
  }

  /**
   * A client that hangs up is closed by handleError, but its time entry
   * stays. Once that entry expires the sweep unregisters the closed
   * descriptor, which returns without error, and drops the entry: nothing is
   * answered, serve goes on, and the bytes the client left stay buffered.
   */
  method HangupThenExpiry(listener: int, fd: int, partial: string, accepted: int, now: int, timeout: int)
    returns (fault: Option<Fault>, replies: map<int, string>, tracked: bool, left: string)
    requires fd != listener && now - accepted > timeout
    requires !Complete(partial)
    ensures fault == None && replies == map[]
    ensures !tracked && left == partial
  {
    var server := new WebServer(Initial(), timeout, listener);
    server.HandleServer([fd], accepted);
    assert [fd][0] == fd;
    assert fd in server.clients;
    var first := server.HandleClient(fd, Some(partial), accepted, map[], "", t => "");
    var lost := server.HandleError(fd);
    assert Expired(server.times, now, timeout) == {fd};
    replies, fault := server.Sweep(now, [fd], map[], map[], "", t => "");
    tracked := fd in server.times || fd in server.clients;
    left := Buffer(server.cache, fd);
  }

  /**
   * The sweep forgets an idle client but keeps its buffer; a new connection
   * that gets the same descriptor number has its first request prefixed
   * with the old connection's unanswered bytes.
   */
  method ReusedDescriptor(config: Config, listener: int, fd: int, stale: string, next: string,
                          fs: FileSystem, date: string, stamp: int -> string) returns (outcome: Outcome)
    requires WellFormed(config) && fd != listener
    requires stale != "" && next != "" && !Complete(stale) && Complete(stale + next)
    ensures outcome == Answered(Some(stale + next), config, fs, date, stamp)
  {
    var server := new WebServer(config, 10, listener);
    server.HandleServer([fd], 0);
    assert [fd][0] == fd;
    assert fd in server.clients;
    var first := server.HandleClient(fd, Some(stale), 1, fs, date, stamp);
    assert Buffer(server.cache, fd) == stale;
    assert Expired(server.times, 100, 10) == {fd};
    assert Farewell(server.clients, server.cache, map[], fd, config, fs, date, stamp) == Waiting;
    var replies, fault := server.Sweep(100, [fd], map[], fs, date, stamp);
    assert Buffer(server.cache, fd) == stale;
    server.HandleServer([fd], 200);
    assert fd in server.clients;
    outcome := server.HandleClient(fd, Some(next), 201, fs, date, stamp);
  }
}
