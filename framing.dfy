/**
 * Request framing (web.py, isfullrequest and the data path of handleClient):
 * every non-empty chunk read from a descriptor is appended to that
 * descriptor's entry in the cache; once the entry ends with the empty line
 * that closes an HTTP header block (section 3 of RFC 7230), the entry is
 * handed to the responder and deleted.
 */
module Framing {
  import opened Common
  import opened Text

  /** The empty line that ends a header block. */
  const Terminator: string := "\r\n\r\n"

  type Cache = map<int, string>

  /** A buffer holds a whole request exactly when it ends with the terminator. */
  predicate Complete(buf: string) {
    EndsWith(buf, Terminator)
  }

  /** The bytes buffered for fd; a descriptor without an entry has buffered nothing. */
  function Buffer(cache: Cache, fd: int): string {
    if fd in cache then cache[fd] else ""
  }

  /** The server never keeps an empty entry, so Buffer determines the cache. */
  predicate NoEmptyEntries(cache: Cache) {
    forall fd | fd in cache :: cache[fd] != ""
  }

  function Flatten(chunks: seq<string>): string {
    if chunks == [] then "" else chunks[0] + Flatten(chunks[1..])
  }

  function Requests(r: Option<string>): seq<string> {
    if r.Some? then [r.value] else []
  }

  datatype Step = Step(cache: Cache, request: Option<string>)

  /**
   * One read of `data` on fd: an empty read changes nothing; otherwise the
   * data is appended, and a buffer that is now complete is handed over and
   * its entry deleted.
   */
  function Receive(cache: Cache, fd: int, data: string): Step {
    if data == "" then Step(cache, None)
    else
      var buf := Buffer(cache, fd) + data;
      if Complete(buf) then Step(cache - {fd}, Some(buf))
      else Step(cache[fd := buf], None)
  }

  /**
   * What one read does: the request handed over (if any) followed by what is
   * still buffered is the old buffer followed by the data; only complete
   * buffers are handed over, after which fd starts again from an empty
   * buffer, and a non-empty read never leaves a complete buffer behind.
   */
  lemma ReceiveConserves(cache: Cache, fd: int, data: string)
    ensures var s := Receive(cache, fd, data);
      && Flatten(Requests(s.request)) + Buffer(s.cache, fd) == Buffer(cache, fd) + data
      && (s.request.Some? ==> Complete(s.request.value) && Buffer(s.cache, fd) == "")
      && (data != "" ==> !Complete(Buffer(s.cache, fd)))
  {
    var s := Receive(cache, fd, data);
    if s.request.Some? {
      assert Flatten(Requests(s.request)) == s.request.value + Flatten([]);
    } else {
      assert Flatten(Requests(s.request)) == "";
    }
  }

  /** One read on fd touches no other descriptor's buffer and keeps every entry non-empty. */
  lemma ReceiveFrame(cache: Cache, fd: int, data: string)
    ensures var s := Receive(cache, fd, data);
      && (forall other | other != fd :: Buffer(s.cache, other) == Buffer(cache, other))
      && s.cache.Keys <= cache.Keys + {fd}
      && (NoEmptyEntries(cache) ==> NoEmptyEntries(s.cache))
  {
  }

  datatype Trace = Trace(requests: seq<string>, cache: Cache)

  /** A series of reads on fd: the requests handed over, in order, and the final cache. */
  function Feed(cache: Cache, fd: int, chunks: seq<string>): Trace
    decreases |chunks|
  {
    if chunks == [] then Trace([], cache)
    else
      var s := Receive(cache, fd, chunks[0]);
      var t := Feed(s.cache, fd, chunks[1..]);
      Trace(Requests(s.request) + t.requests, t.cache)
  }

  /**
   * Nothing is lost or duplicated: the requests handed over, followed by what
   * is still buffered, are the old buffer followed by every chunk read.
   */
  lemma {:induction false} FeedConserves(cache: Cache, fd: int, chunks: seq<string>)
    ensures Flatten(Feed(cache, fd, chunks).requests) + Buffer(Feed(cache, fd, chunks).cache, fd)
         == Buffer(cache, fd) + Flatten(chunks)
    decreases |chunks|
  {
    if chunks != [] {
      var s := Receive(cache, fd, chunks[0]);
      var t := Feed(s.cache, fd, chunks[1..]);
      FeedConserves(s.cache, fd, chunks[1..]);
      ReceiveConserves(cache, fd, chunks[0]);
      var r := Requests(s.request);
      FlattenAppend(r, t.requests);
      var R, F, B := Flatten(r), Flatten(t.requests), Buffer(t.cache, fd);
      var S, T := Buffer(s.cache, fd), Flatten(chunks[1..]);
      assert F + B == S + T;
      assert R + S == Buffer(cache, fd) + chunks[0];
      Assoc(R, F, B);
      Assoc(R, S, T);
      Assoc(Buffer(cache, fd), chunks[0], T);
    }
  }

  /**
   * Regrouping a concatenation. Stated once as a quantifier-free fact: with
   * the many string terms in FeedConserves, the solver does not find these
   * regroupings on its own within its resource limit.
   */
  lemma Assoc(a: string, b: string, c: string)
    ensures (a + b) + c == a + (b + c)
  {
  }

  /** Every request handed over ends with the terminator. */
  lemma {:induction false} FeedHandsOverComplete(cache: Cache, fd: int, chunks: seq<string>)
    ensures forall i | 0 <= i < |Feed(cache, fd, chunks).requests| :: Complete(Feed(cache, fd, chunks).requests[i])
    decreases |chunks|
  {
    if chunks != [] {
      var s := Receive(cache, fd, chunks[0]);
      var t := Feed(s.cache, fd, chunks[1..]);
      FeedHandsOverComplete(s.cache, fd, chunks[1..]);
      ReceiveConserves(cache, fd, chunks[0]);
      var r := Requests(s.request);
      forall i | 0 <= i < |r + t.requests| ensures Complete((r + t.requests)[i]) {
        if i < |r| {
          assert (r + t.requests)[i] == s.request.value;
        } else {
          assert (r + t.requests)[i] == t.requests[i - |r|];
        }
      }
    }
  }

  /** Reads on fd leave the other descriptors' buffers alone, and never leave a complete buffer behind. */
  lemma {:induction false} FeedFrame(cache: Cache, fd: int, chunks: seq<string>)
    ensures forall other | other != fd :: Buffer(Feed(cache, fd, chunks).cache, other) == Buffer(cache, other)
    ensures !Complete(Buffer(cache, fd)) ==> !Complete(Buffer(Feed(cache, fd, chunks).cache, fd))
    decreases |chunks|
  {
    if chunks != [] {
      var s := Receive(cache, fd, chunks[0]);
      FeedFrame(s.cache, fd, chunks[1..]);
      ReceiveFrame(cache, fd, chunks[0]);
      ReceiveConserves(cache, fd, chunks[0]);
    }
  }

  lemma {:induction false} FlattenAppend(a: seq<string>, b: seq<string>)
    ensures Flatten(a + b) == Flatten(a) + Flatten(b)
    decreases |a|
  {
    if a != [] {
      FlattenAppend(a[1..], b);
      assert (a + b)[1..] == a[1..] + b;
      calc {
        Flatten(a + b);
        a[0] + Flatten(a[1..] + b);
        a[0] + (Flatten(a[1..]) + Flatten(b));
        (a[0] + Flatten(a[1..])) + Flatten(b);
      }
    } else {
      assert a + b == b;
    }
  }

  /**
   * While nothing was handed over, the buffer is exactly what was there
   * before followed by every chunk read since.
   */
  lemma AccumulatedSinceLastRequest(cache: Cache, fd: int, chunks: seq<string>)
    requires Feed(cache, fd, chunks).requests == []
    ensures Buffer(Feed(cache, fd, chunks).cache, fd) == Buffer(cache, fd) + Flatten(chunks)
  {
    FeedConserves(cache, fd, chunks);
    assert Flatten([]) == "";
  }

  /** Two reads whose first leaves the buffer incomplete act as one read of both. */
  lemma MergeReads(cache: Cache, fd: int, a: string, b: string, rest: seq<string>)
    requires !Complete(Buffer(cache, fd) + a)
    ensures Feed(cache, fd, [a, b] + rest) == Feed(cache, fd, [a + b] + rest)
  {
    assert ([a, b] + rest)[1..] == [b] + rest;
    assert ([b] + rest)[1..] == rest;
    assert ([a + b] + rest)[1..] == rest;
    var s := Receive(cache, fd, a);
    if a == "" {
      assert a + b == b;
    } else {
      assert Buffer(s.cache, fd) + b == Buffer(cache, fd) + (a + b);
      if b == "" {
        assert a + b == a;
        assert Feed(s.cache, fd, [b] + rest) == Feed(s.cache, fd, rest);
      } else {
        assert Receive(s.cache, fd, b).cache == Receive(cache, fd, a + b).cache;
      }
    }
  }

  /**
   * Accumulation is associative: when no read before the last one completes
   * the buffer, how the bytes were cut into reads does not change the outcome.
   */
  lemma {:induction false} Regroup(cache: Cache, fd: int, chunks: seq<string>)
    requires forall k | 1 <= k < |chunks| :: !Complete(Buffer(cache, fd) + Flatten(chunks[..k]))
    ensures Feed(cache, fd, chunks) == Feed(cache, fd, [Flatten(chunks)])
    decreases |chunks|
  {
    if |chunks| == 0 {
      var s := Receive(cache, fd, "");
      assert [Flatten(chunks)][1..] == [];
    } else if |chunks| == 1 {
      assert chunks[1..] == [];
      assert chunks[0] + "" == chunks[0];
      assert Flatten(chunks) == chunks[0];
      assert [Flatten(chunks)] == chunks;
    } else {
      var a, b, rest := chunks[0], chunks[1], chunks[2..];
      assert chunks == [a, b] + rest;
      assert chunks[..1] == [a];
      assert Flatten([a]) == a + Flatten([]);
      MergeReads(cache, fd, a, b, rest);
      var merged := [a + b] + rest;
      forall k | 1 <= k < |merged|
        ensures !Complete(Buffer(cache, fd) + Flatten(merged[..k]))
      {
        FlattenPrefix(a, b, rest, k);
      }
      Regroup(cache, fd, merged);
      FlattenPrefix(a, b, rest, |merged|);
      assert merged[..|merged|] == merged;
      assert chunks[..|chunks|] == chunks;
    }
  }

  lemma FlattenPrefix(a: string, b: string, rest: seq<string>, k: nat)
    requires 1 <= k <= |rest| + 1
    ensures Flatten(([a + b] + rest)[..k]) == Flatten(([a, b] + rest)[..k + 1])
  {
    var merged := [a + b] + rest;
    var chunks := [a, b] + rest;
    assert merged[..k] == [a + b] + rest[..k - 1];
    assert chunks[..k + 1] == [a] + ([b] + rest[..k - 1]);
    assert ([a] + ([b] + rest[..k - 1]))[1..] == [b] + rest[..k - 1];
    assert ([b] + rest[..k - 1])[1..] == rest[..k - 1];
    assert ([a + b] + rest[..k - 1])[1..] == rest[..k - 1];
  }

  /** A read on fd depends on nothing but fd's own buffer. */
  lemma ReceiveLocal(cache: Cache, other: Cache, fd: int, data: string)
    requires Buffer(cache, fd) == Buffer(other, fd)
    ensures Receive(cache, fd, data).request == Receive(other, fd, data).request
    ensures Buffer(Receive(cache, fd, data).cache, fd) == Buffer(Receive(other, fd, data).cache, fd)
  {
  }
}
