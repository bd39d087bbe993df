/**
 * The Python client of the monitor server, MonitorClient. It frames read and write requests, checks that each reply
 * echoes the request header, drains the socket after a desynchronised reply,
 * and retries a request up to five times, restarting the server after socket
 * errors when it was given a way to do so.
 *
 * The network is a parameter: every connection is a script of events, the
 * byte chunks the peer delivers, receive timeouts, and the peer closing.
 */
module StemlabClient {
  import opened Common
  import opened Wire

  /** Longest read the client asks for, and longest write it sends. */
  const MAX_READ_WORDS: nat := 65535
  const MAX_WRITE_WORDS: nat := 65533
  /** Attempts made by `try_n_times` and receives made by `emptybuffer`. */
  const TRIES: nat := 5
  const DRAIN_RECEIVES: nat := 100
  const DRAIN_CHUNK: nat := 16384

  type Chunk = s: seq<Byte> | |s| > 0 witness [0]

  /**
   * What the peer does next on a connection: deliver bytes, let one receive
   * time out, or close (after which every receive returns no bytes).
   * A script that has run out behaves as if every receive timed out.
   */
  datatype Event = Data(bytes: Chunk) | Timeout | Closed

  /** One receive: `got` is None when it raised socket.timeout. */
  datatype RecvStep = RecvStep(got: Option<seq<Byte>>, rest: seq<Event>)

  /** Outcome of one call of `_reads` or `_writes`. */
  datatype Attempt<T> = Returned(v: T) | ReturnedNone | Raised

  datatype Request = ReadReq(addr: nat, length: nat) | WriteReq(addr: nat, values: seq<U32>)
  datatype Reply = Words(words: seq<U32>) | Ack

  /** The abstract state of a client: the current connection and the ones a restart opens. */
  datatype Link = Link(
    rx: seq<Event>,             // what the current connection will deliver
    sent: seq<Byte>,            // what has been sent on the current connection
    pending: seq<seq<Event>>,   // scripts of the connections later restarts open
    history: seq<seq<Byte>>,    // what was sent on each earlier connection
    readCounter: nat,
    writeCounter: nat)

  // ---------------------------------------------------------------------------
  // Specification of the socket and of one request

  /** `socket.recv(n)`: at most `n` bytes of the next chunk. */
  function RecvSpec(rx: seq<Event>, n: nat): (s: RecvStep)
    requires n > 0
    ensures s.got.Some? ==> |s.got.value| <= n
    ensures s.got == Some([]) <==> (rx != [] && rx[0] == Closed)
  {
    if rx == [] then RecvStep(None, [])
    else match rx[0]
      case Timeout => RecvStep(None, rx[1..])
      case Closed => RecvStep(Some([]), rx)
      case Data(c) =>
        if |c| <= n then RecvStep(Some(c), rx[1..])
        else RecvStep(Some(c[..n]), [Data(c[n..])] + rx[1..])
  }

  /** The bytes the connection delivers before its next timeout or close. */
  function Avail(rx: seq<Event>): seq<Byte>
  {
    if rx == [] then []
    else match rx[0]
      case Data(c) => c + Avail(rx[1..])
      case _ => []
  }

  datatype Taken = Taken(data: Option<seq<Byte>>, rest: seq<Event>)

  function Prepend(c: seq<Byte>, t: Taken): Taken
  {
    if t.data.None? then t else Taken(Some(c + t.data.value), t.rest)
  }

  /**
   * Receiving until exactly `k` bytes have arrived, each receive asking for
   * the bytes still missing. A timeout raises; so does a receive that returns
   * no bytes (see the Findings: the source loops forever there).
   */
  function Collect(rx: seq<Event>, k: nat): (t: Taken)
    requires k > 0
    ensures t.data.Some? ==> |t.data.value| == k
    decreases |rx|
  {
    if rx == [] then Taken(None, [])
    else match rx[0]
      case Timeout => Taken(None, rx[1..])
      case Closed => Taken(None, rx)
      case Data(c) =>
        if |c| < k then Prepend(c, Collect(rx[1..], k - |c|))
        else if |c| == k then Taken(Some(c), rx[1..])
        else Taken(Some(c[..k]), [Data(c[k..])] + rx[1..])
  }

  /** The state of the receive loop, `data` received so far, as the rest of its run. */
  function Resume(data: seq<Byte>, rx: seq<Event>, need: nat): Taken
    requires |data| <= need
  {
    if |data| == need then Taken(Some(data), rx) else Prepend(data, Collect(rx, need - |data|))
  }

  lemma PrependNothing(t: Taken)
    ensures Prepend([], t) == t
  {
    if t.data.Some? {
      assert [] + t.data.value == t.data.value;
    }
  }

  lemma PrependTwice(a: seq<Byte>, b: seq<Byte>, t: Taken)
    ensures Prepend(a, Prepend(b, t)) == Prepend(a + b, t)
  {
    if t.data.Some? {
      assert a + (b + t.data.value) == (a + b) + t.data.value;
    }
  }

  /** One iteration of the receive loop, stated on `Resume`. */
  lemma ResumeStep(data: seq<Byte>, rx: seq<Event>, need: nat)
    requires |data| < need
    ensures var s := RecvSpec(rx, need - |data|);
      if s.got.None? || s.got.value == [] then Resume(data, rx, need) == Taken(None, s.rest)
      else |data + s.got.value| <= need && Resume(data + s.got.value, s.rest, need) == Resume(data, rx, need)
  {
    var k := need - |data|;
    if rx != [] && rx[0].Data? {
      var c := rx[0].bytes;
      if |c| < k {
        PrependTwice(data, c, Collect(rx[1..], k - |c|));
      }
    }
  }

  datatype Drained = Drained(raised: bool, rest: seq<Event>)

  /**
   * `emptybuffer`: up to `budget` receives of 16384 bytes, stopping at an
   * empty one. A closed connection ends it quietly, a timeout raises, and
   * nothing raises without a receive.
   */
  function Drain(rx: seq<Event>, budget: nat): (d: Drained)
    ensures d.raised ==> budget > 0
    ensures budget > 0 && rx != [] && rx[0] == Closed ==> d == Drained(false, rx)
    ensures budget > 0 && rx != [] && rx[0] == Timeout ==> d.raised
    decreases budget
  {
    if budget == 0 then Drained(false, rx)
    else
      var s := RecvSpec(rx, DRAIN_CHUNK);
      if s.got.None? then Drained(true, s.rest)
      else if |s.got.value| == 0 then Drained(false, s.rest)
      else Drain(s.rest, budget - 1)
  }

  /** The bytes `_reads` sends: a read header for at most 65535 words. */
  function ReadRequest(addr: nat, length: nat): (h: seq<Byte>)
    ensures |h| == HEADER_SIZE
  {
    Header(OP_READ, Min(length, MAX_READ_WORDS), addr)
  }

  /** The values `_writes` sends: the first 65533 of them. */
  function WriteValues(values: seq<U32>): (v: seq<U32>)
    ensures |v| <= MAX_WRITE_WORDS
  {
    if |values| <= MAX_WRITE_WORDS then values else values[..MAX_WRITE_WORDS]
  }

  function WriteHeader(addr: nat, values: seq<U32>): (h: seq<Byte>)
    ensures |h| == HEADER_SIZE
  {
    Header(OP_WRITE, |WriteValues(values)|, addr)
  }

  /** The bytes `_writes` sends: the header, then the values little-endian. */
  function WriteRequest(addr: nat, values: seq<U32>): (b: seq<Byte>)
  {
    WriteHeader(addr, values) + WordsToBytes(WriteValues(values))
  }

  /** A desynchronised reply: drain, then return None, or raise if the drain timed out. */
  function AfterDesync<T>(rx: seq<Event>): (Attempt<T>, seq<Event>)
  {
    var d := Drain(rx, DRAIN_RECEIVES);
    (if d.raised then Raised else ReturnedNone, d.rest)
  }

  /** One `_reads(addr, length)` on the connection `rx` (after its header is sent). */
  function ReadsSpec(rx: seq<Event>, addr: nat, length: nat): (r: (Attempt<seq<U32>>, seq<Event>))
    ensures r.0.Returned? ==> |r.0.v| == Min(length, MAX_READ_WORDS)
  {
    var n := Min(length, MAX_READ_WORDS);
    var t := Collect(rx, 4 * n + 8);
    if t.data.None? then (Raised, t.rest)
    else if t.data.value[..8] == ReadRequest(addr, length) then
      (Returned(BytesToWords(t.data.value[8..])), t.rest)
    else AfterDesync(t.rest)
  }

  /** One `_writes(addr, values)` on the connection `rx` (after the request is sent). */
  function WritesSpec(rx: seq<Event>, addr: nat, values: seq<U32>): (r: (Attempt<bool>, seq<Event>))
    ensures r.0.Returned? ==> r.0.v
    ensures RecvSpec(rx, 8).got.None? ==> r.0 == Raised
  {
    var s := RecvSpec(rx, 8);
    if s.got.None? then (Raised, s.rest)
    else if s.got.value == WriteHeader(addr, values) then (Returned(true), s.rest)
    else AfterDesync(s.rest)
  }

  /**
   * One attempt of a request on the current connection: the request is
   * sent, a read returns the words it asked for and a write an
   * acknowledgement, and nothing but the current connection changes.
   */
  function OnceSpec(l: Link, req: Request): (r: (Attempt<Reply>, Link))
    ensures r.1.sent == l.sent + (if req.ReadReq? then ReadRequest(req.addr, req.length) else WriteRequest(req.addr, req.values))
    ensures r.1.pending == l.pending && r.1.history == l.history
    ensures r.1.readCounter == l.readCounter && r.1.writeCounter == l.writeCounter
    ensures req.ReadReq? && r.0.Returned? ==> r.0.v.Words? && |r.0.v.words| == Min(req.length, MAX_READ_WORDS)
    ensures req.WriteReq? && r.0.Returned? ==> r.0.v == Ack
  {
    match req
    case ReadReq(addr, length) =>
      var (a, rest) := ReadsSpec(l.rx, addr, length);
      (match a
        case Returned(ws) => Returned(Words(ws))
        case ReturnedNone => ReturnedNone
        case Raised => Raised,
       l.(rx := rest, sent := l.sent + ReadRequest(addr, length)))
    case WriteReq(addr, values) =>
      var (a, rest) := WritesSpec(l.rx, addr, values);
      (match a
        case Returned(_) => Returned(Ack)
        case ReturnedNone => ReturnedNone
        case Raised => Raised,
       l.(rx := rest, sent := l.sent + WriteRequest(addr, values)))
  }

  /** The 8-byte frame `close` sends: opcode 'c' and seven zero bytes. */
  function CloseFrame(): (f: seq<Byte>)
    ensures |f| == 8 && f[0] == OP_CLOSE
  {
    [OP_CLOSE, 0, 0, 0, 0, 0, 0, 0]
  }

  /**
   * `restart`: close (sending the close frame), have the server restarted and
   * connect anew; `__init__` runs again, so both counters start from zero.
   */
  function RestartSpec(l: Link): (r: Link)
    ensures r.history == l.history + [l.sent + CloseFrame()]
    ensures r.sent == [] && r.readCounter == 0 && r.writeCounter == 0
    ensures l.pending != [] ==> r.rx == l.pending[0] && r.pending == l.pending[1..]
    ensures l.pending == [] ==> r.rx == [] && r.pending == []
  {
    Link(if l.pending == [] then [] else l.pending[0], [],
         if l.pending == [] then [] else l.pending[1..],
         l.history + [l.sent + CloseFrame()], 0, 0)
  }

  /** The attempt `try_n_times` repeats: `_reads` or `_writes`, as a function of the state. */
  type AttemptFn = (Link, Request) -> (Attempt<Reply>, Link)

  datatype Tried = Tried(result: Option<Reply>, link: Link, attempts: seq<Attempt<Reply>>)

  /**
   * `try_n_times` with the request kept for every attempt: the first
   * attempt that returns a value ends it; a socket error restarts the server
   * first when a restart function was given. At most `n` attempts are
   * made, all but the last without a value, and the result is the last
   * attempt's value; without one, all `n` attempts were made.
   */
  function TrySpec(l: Link, req: Request, n: nat, canRestart: bool, attempt: AttemptFn): (t: Tried)
    ensures |t.attempts| <= n
    ensures forall i :: 0 <= i < |t.attempts| - 1 ==> !t.attempts[i].Returned?
    ensures t.result.Some? ==> t.attempts != [] && t.attempts[|t.attempts| - 1] == Returned(t.result.value)
    ensures t.result.None? ==> |t.attempts| == n && forall i :: 0 <= i < n ==> !t.attempts[i].Returned?
    decreases n
  {
    if n == 0 then Tried(None, l, [])
    else
      var (a, l1) := attempt(l, req);
      match a
      case Returned(v) => Tried(Some(v), l1, [a])
      case ReturnedNone =>
        var t := TrySpec(l1, req, n - 1, canRestart, attempt);
        Tried(t.result, t.link, [a] + t.attempts)
      case Raised =>
        var t := TrySpec(if canRestart then RestartSpec(l1) else l1, req, n - 1, canRestart, attempt);
        Tried(t.result, t.link, [a] + t.attempts)
  }

  /** The result and the final state of `TrySpec`. */
  function TryOutcome(l: Link, req: Request, n: nat, canRestart: bool, attempt: AttemptFn): (Option<Reply>, Link)
  {
    var t := TrySpec(l, req, n, canRestart, attempt);
    (t.result, t.link)
  }

  /** An attempt that returned a value ends `try_n_times`. */
  lemma TryEndsOnValue(l: Link, req: Request, n: nat, canRestart: bool, attempt: AttemptFn, v: Reply, l1: Link)
    requires n > 0 && attempt(l, req) == (Returned(v), l1)
    ensures TryOutcome(l, req, n, canRestart, attempt) == (Some(v), l1)
  {
  }

  /** After an attempt that returned None, the remaining attempts run from the state it left. */
  lemma TryGoesOn(l: Link, req: Request, n: nat, canRestart: bool, attempt: AttemptFn, l1: Link)
    requires n > 0 && attempt(l, req) == (ReturnedNone, l1)
    ensures TryOutcome(l, req, n, canRestart, attempt) == TryOutcome(l1, req, n - 1, canRestart, attempt)
  {
  }

  /** After a socket error, the remaining attempts run after the restart, when there is one. */
  lemma TryRestarts(l: Link, req: Request, n: nat, canRestart: bool, attempt: AttemptFn, l1: Link)
    requires n > 0 && attempt(l, req) == (Raised, l1)
    ensures TryOutcome(l, req, n, canRestart, attempt)
      == TryOutcome(if canRestart then RestartSpec(l1) else l1, req, n - 1, canRestart, attempt)
  {
  }

  function CountRaised(as_: seq<Attempt<Reply>>): nat
  {
    if as_ == [] then 0 else (if as_[0].Raised? then 1 else 0) + CountRaised(as_[1..])
  }

  // ---------------------------------------------------------------------------
  // Properties of the specification

  /** The receive loop yields exactly the first `k` bytes the connection has, or raises. */
  lemma {:induction false} CollectIsPrefix(rx: seq<Event>, k: nat)
    requires k > 0
    ensures Collect(rx, k).data.Some? <==> |Avail(rx)| >= k
    ensures Collect(rx, k).data.Some? ==> Collect(rx, k).data.value == Avail(rx)[..k]
    ensures Collect(rx, k).data.Some? ==> Avail(Collect(rx, k).rest) == Avail(rx)[k..]
    decreases |rx|
  {
    if rx != [] {
      match rx[0]
      case Timeout =>
      case Closed =>
      case Data(c) =>
        var av := Avail(rx);
        assert av == c + Avail(rx[1..]);
        if |c| < k {
          CollectIsPrefix(rx[1..], k - |c|);
        } else if |c| > k {
          var rest := [Data(c[k..])] + rx[1..];
          assert rest[1..] == rx[1..];
          assert Avail(rest) == c[k..] + Avail(rx[1..]);
        }
    }
  }

  /**
   * `try_n_times` makes at most `n` attempts and stops at the first one that
   * returns a value, whose value it returns; without one it makes all `n`.
   */
  lemma {:induction false} TryStops(l: Link, req: Request, n: nat, canRestart: bool, attempt: AttemptFn)
    ensures var t := TrySpec(l, req, n, canRestart, attempt);
      && |t.attempts| <= n
      && (t.result.None? ==> |t.attempts| == n && forall i :: 0 <= i < n ==> !t.attempts[i].Returned?)
      && (t.result.Some? ==> |t.attempts| > 0 && t.attempts[|t.attempts| - 1] == Returned(t.result.value)
                             && forall i :: 0 <= i < |t.attempts| - 1 ==> !t.attempts[i].Returned?)
    decreases n
  {
    if n > 0 {
      var (a, l1) := attempt(l, req);
      if !a.Returned? {
        var l2 := if a.Raised? && canRestart then RestartSpec(l1) else l1;
        TryStops(l2, req, n - 1, canRestart, attempt);
        var t := TrySpec(l2, req, n - 1, canRestart, attempt);
        assert TrySpec(l, req, n, canRestart, attempt).attempts == [a] + t.attempts;
      }
    }
  }

  /** Every attempt makes at most one restart, and only after a socket error. */
  lemma {:induction false} TryRestartCount(l: Link, req: Request, n: nat, canRestart: bool, attempt: AttemptFn)
    requires forall l': Link, r: Request :: attempt(l', r).1.history == l'.history
    ensures var t := TrySpec(l, req, n, canRestart, attempt);
      |t.link.history| == |l.history| + (if canRestart then CountRaised(t.attempts) else 0)
    decreases n
  {
    if n > 0 {
      var (a, l1) := attempt(l, req);
      if !a.Returned? {
        var l2 := if a.Raised? && canRestart then RestartSpec(l1) else l1;
        TryRestartCount(l2, req, n - 1, canRestart, attempt);
        var t := TrySpec(l2, req, n - 1, canRestart, attempt);
        var as_ := [a] + t.attempts;
        assert as_[1..] == t.attempts;
      }
    }
  }

  /** Neither request touches the earlier connections. */
  lemma OnceKeepsHistory(l: Link, req: Request)
    ensures OnceSpec(l, req).1.history == l.history
  {
    match req
    case ReadReq(_, _) =>
    case WriteReq(_, _) =>
  }

  /** What a read that returned words received: the header it sent, then the words. */
  lemma ReadsReturned(rx: seq<Event>, addr: nat, length: nat)
    requires ReadsSpec(rx, addr, length).0.Returned?
    ensures var t := Collect(rx, 4 * Min(length, MAX_READ_WORDS) + 8);
      && t.data.Some? && t.data.value[..8] == ReadRequest(addr, length)
      && ReadsSpec(rx, addr, length).0.v == BytesToWords(t.data.value[8..])
  {
  }

  /**
   * A read returns words exactly when the connection delivers the echoed
   * header followed by that many words, and those are the words returned.
   */
  lemma ReadsInSync(rx: seq<Event>, addr: nat, length: nat, ws: seq<U32>)
    requires |ws| == Min(length, MAX_READ_WORDS)
    ensures ReadsSpec(rx, addr, length).0 == Returned(ws) <==>
      (|Avail(rx)| >= 4 * |ws| + 8 && Avail(rx)[..4 * |ws| + 8] == ReadRequest(addr, length) + WordsToBytes(ws))
  {
    var need := 4 * |ws| + 8;
    CollectIsPrefix(rx, need);
    var t := Collect(rx, need);
    var want := ReadRequest(addr, length) + WordsToBytes(ws);
    if |Avail(rx)| >= need && Avail(rx)[..need] == want {
      assert t.data == Some(want);
      assert want[..8] == ReadRequest(addr, length);
      assert want[8..] == WordsToBytes(ws);
      WordsBytesRoundTrip(ws);
    }
    if ReadsSpec(rx, addr, length).0 == Returned(ws) {
      ReadsReturned(rx, addr, length);
      var d := t.data.value;
      BytesWordsRoundTrip(d[8..]);
      assert d == d[..8] + d[8..];
    }
  }

  /** A chunk of exactly the bytes the receive loop waits for ends it in one receive. */
  lemma CollectOneChunk(c: Chunk, tail: seq<Event>)
    ensures Collect([Data(c)] + tail, |c|) == Taken(Some(c), tail)
  {
    assert ([Data(c)] + tail)[1..] == tail;
  }

  /** The reply a read of `ws` waits for: its own header echoed, then the words. */
  function ReadReply(addr: nat, ws: seq<U32>): (c: Chunk)
    ensures |c| == 4 * |ws| + 8
    ensures c[..8] == ReadRequest(addr, |ws|) && c[8..] == WordsToBytes(ws)
  {
    ReadRequest(addr, |ws|) + WordsToBytes(ws)
  }

  /** A chunk that is exactly the read's reply makes the read return its words. */
  lemma ReadsExactReply(addr: nat, ws: seq<U32>, tail: seq<Event>)
    requires |ws| <= MAX_READ_WORDS
    ensures ReadsSpec([Data(ReadReply(addr, ws))] + tail, addr, |ws|) == (Returned(ws), tail)
  {
    var reply := ReadReply(addr, ws);
    var rx := [Data(reply)] + tail;
    assert ReadsSpec(rx, addr, |ws|) == (Returned(BytesToWords(reply[8..])), tail) by {
      CollectOneChunk(reply, tail);
      assert |reply| == 4 * Min(|ws|, MAX_READ_WORDS) + 8;
      ReadsAfterCollect(rx, addr, |ws|, Taken(Some(reply), tail));
    }
    WordsBytesRoundTrip(ws);
  }

  /** `ReadsSpec` once the receive loop has ended. */
  lemma ReadsAfterCollect(rx: seq<Event>, addr: nat, length: nat, t: Taken)
    requires t == Collect(rx, 4 * Min(length, MAX_READ_WORDS) + 8)
    ensures t.data.None? ==> ReadsSpec(rx, addr, length) == (Raised, t.rest)
    ensures t.data.Some? && t.data.value[..8] == ReadRequest(addr, length) ==>
      ReadsSpec(rx, addr, length) == (Returned(BytesToWords(t.data.value[8..])), t.rest)
    ensures t.data.Some? && t.data.value[..8] != ReadRequest(addr, length) ==>
      ReadsSpec(rx, addr, length) == AfterDesync(t.rest)
  {
  }

  /** A read for which fewer bytes arrive than the reply needs ends in a socket error. */
  lemma ReadsShortRaises(rx: seq<Event>, addr: nat, length: nat)
    requires |Avail(rx)| < 4 * Min(length, MAX_READ_WORDS) + 8
    ensures ReadsSpec(rx, addr, length).0 == Raised
  {
    CollectIsPrefix(rx, 4 * Min(length, MAX_READ_WORDS) + 8);
  }

  /**
   * A write succeeds exactly when the next chunk starts with the echoed
   * header: the one receive of 8 bytes is not repeated, so a header that
   * arrives split over two chunks reads as a desynchronised reply.
   */
  lemma WritesInSync(rx: seq<Event>, addr: nat, values: seq<U32>)
    ensures WritesSpec(rx, addr, values).0 == Returned(true) <==>
      (rx != [] && rx[0].Data? && |rx[0].bytes| >= 8 && rx[0].bytes[..8] == WriteHeader(addr, values))
  {
    if rx != [] && rx[0].Data? {
      var c := rx[0].bytes;
      if |c| > 8 {
        assert RecvSpec(rx, 8).got == Some(c[..8]);
      }
      if WritesSpec(rx, addr, values).0 != Returned(true) {
        var s := RecvSpec(rx, 8);
        if s.got.Some? && s.got.value != WriteHeader(addr, values) {
          assert WritesSpec(rx, addr, values) == AfterDesync(s.rest);
        }
      }
    }
  }

  /** A read attempt that returned words, as an attempt of `try_n_times`. */
  lemma OnceReadReturned(l: Link, addr: nat, length: nat, ws: seq<U32>, rest: seq<Event>)
    requires ReadsSpec(l.rx, addr, length) == (Returned(ws), rest)
    ensures OnceSpec(l, ReadReq(addr, length))
      == (Returned(Words(ws)), l.(rx := rest, sent := l.sent + ReadRequest(addr, length)))
  {
  }

  /** A write attempt that was acknowledged, as an attempt of `try_n_times`. */
  lemma OnceWriteReturned(l: Link, addr: nat, values: seq<U32>, rest: seq<Event>)
    requires WritesSpec(l.rx, addr, values) == (Returned(true), rest)
    ensures OnceSpec(l, WriteReq(addr, values))
      == (Returned(Ack), l.(rx := rest, sent := l.sent + WriteRequest(addr, values)))
  {
  }

  // ---------------------------------------------------------------------------
  // try_n_times as written

  /** What `try_n_times` ends with: a value, None, or an escaping TypeError. */
  datatype Final = Value(reply: Reply) | NoValue | TypeErrorRaised

  /**
   * `try_n_times` as the source writes it: the result of each attempt is
   * assigned back to the argument, so after an attempt that returned None
   * the next attempt is called with None, and `_reads`/`_writes` raise
   * TypeError on their first use of it (`None > 65535`, `None[:65533]`).
   * Called with a request, a reply from the first attempt is returned, a
   * None from it followed by another attempt ends in TypeError, and a
   * TypeError needs an attempt that returned None and one after it.
   */
  function TryAsWritten(l: Link, req: Option<Request>, n: nat, canRestart: bool, attempt: AttemptFn): (f: Final)
    ensures n == 0 ==> f == NoValue
    ensures f == TypeErrorRaised ==> n >= (if req.None? then 1 else 2)
    ensures n >= 1 && req.Some? && attempt(l, req.value).0.Returned? ==> f == Value(attempt(l, req.value).0.v)
    ensures n >= 2 && req.Some? && attempt(l, req.value).0 == ReturnedNone ==> f == TypeErrorRaised
    decreases n
  {
    if n == 0 then NoValue
    else if req.None? then TypeErrorRaised
    else
      var (a, l1) := attempt(l, req.value);
      match a
      case Returned(v) => Value(v)
      case ReturnedNone => TryAsWritten(l1, None, n - 1, canRestart, attempt)
      case Raised => TryAsWritten(if canRestart then RestartSpec(l1) else l1, req, n - 1, canRestart, attempt)
  }

  /** Twelve bytes that are not a reply to any read. */
  function Junk(): (j: Chunk)
    ensures |j| == 12 && j[0] == 0
  {
    [0, 0, 0, 0, 0, 0, 0, 0, 0, 0, 0, 0]
  }

  /** A first connection that sends garbage and closes; a second one that answers correctly. */
  function DesyncThenGood(): Link
  {
    Link([Data(Junk()), Closed], [], [[Data(ReadReply(0, [7]))]], [], 0, 0)
  }

  /** The first attempt of a one-word read on `DesyncThenGood`: a desynchronised reply, drained. */
  lemma FirstAttemptDesyncs()
    ensures OnceSpec(DesyncThenGood(), ReadReq(0, 1))
      == (ReturnedNone, DesyncThenGood().(rx := [Closed], sent := ReadRequest(0, 1)))
  {
    var l := DesyncThenGood();
    assert Collect(l.rx, 12) == Taken(Some(Junk()), [Closed]);
    assert ReadRequest(0, 1)[0] == OP_READ;
    assert Junk()[..8] != ReadRequest(0, 1);
    assert Drain([Closed], DRAIN_RECEIVES) == Drained(false, [Closed]);
    assert ReadsSpec(l.rx, 0, 1) == (ReturnedNone, [Closed]);
    assert l.sent + ReadRequest(0, 1) == ReadRequest(0, 1);
  }

  /** A read on a closed connection raises. */
  lemma ClosedRaises(l: Link, addr: nat, length: nat)
    requires l.rx == [Closed]
    ensures OnceSpec(l, ReadReq(addr, length))
      == (Raised, l.(sent := l.sent + ReadRequest(addr, length)))
  {
    assert Collect([Closed], 4 * Min(length, MAX_READ_WORDS) + 8) == Taken(None, [Closed]);
  }

  /**
   * The retry after a desynchronised reply: the source ends in TypeError
   * where a retry with the original request, after the restart the closed
   * connection provokes, reads the word.
   */
  lemma RetryAfterDesync()
    ensures TryAsWritten(DesyncThenGood(), Some(ReadReq(0, 1)), TRIES, true, OnceSpec) == TypeErrorRaised
    ensures TryOutcome(DesyncThenGood(), ReadReq(0, 1), TRIES, true, OnceSpec).0 == Some(Words([7]))
  {
    var l := DesyncThenGood();
    var req := ReadReq(0, 1);
    FirstAttemptDesyncs();
    var l1 := l.(rx := [Closed], sent := ReadRequest(0, 1));
    // the source passes None to the second attempt
    assert TryAsWritten(l, Some(req), TRIES, true, OnceSpec) == TryAsWritten(l1, None, TRIES - 1, true, OnceSpec);
    // the second attempt with the request kept raises, and the restart reconnects
    ClosedRaises(l1, 0, 1);
    var l2 := l1.(sent := l1.sent + ReadRequest(0, 1));
    var l3 := RestartSpec(l2);
    assert l3.rx == [Data(ReadReply(0, [7]))] + [];
    ReadsExactReply(0, [7], []);
    OnceReadReturned(l3, 0, 1, [7], []);
    TryEndsOnValue(l3, req, TRIES - 2, true, OnceSpec, Words([7]), OnceSpec(l3, req).1);
    TryRestarts(l1, req, TRIES - 1, true, OnceSpec, l2);
    TryGoesOn(l, req, TRIES, true, OnceSpec, l1);
  }

  // ---------------------------------------------------------------------------
  // The receive loop of _reads as written

  /**
   * One pass of the receive loop of `_reads` as written: the bytes a receive
   * returns are appended whatever their number; None when it raised. It
   * keeps what it had and never overshoots, and appends nothing only once
   * the peer has closed.
   */
  function ReadLoopStepAsWritten(data: seq<Byte>, rx: seq<Event>, need: nat): (r: Option<(seq<Byte>, seq<Event>)>)
    requires |data| < need
    ensures r.Some? ==> |data| <= |r.value.0| <= need && r.value.0[..|data|] == data
    ensures r.Some? && |r.value.0| == |data| ==> rx != [] && rx[0] == Closed
  {
    var s := RecvSpec(rx, need - |data|);
    if s.got.None? then None else Some((data + s.got.value, s.rest))
  }

  /**
   * Once the peer has closed, a pass of that loop changes nothing, so its
   * condition stays true and it never ends; `Collect` raises instead.
   */
  lemma ReadLoopSpinsOnClose(data: seq<Byte>, rx: seq<Event>, need: nat)
    requires |data| < need && rx != [] && rx[0] == Closed
    ensures ReadLoopStepAsWritten(data, rx, need) == Some((data, rx))
    ensures Collect(rx, need - |data|) == Taken(None, rx)
  {
    assert data + [] == data;
  }

  // ---------------------------------------------------------------------------
  // The client object

  class MonitorClient {
    var rx: seq<Event>
    var sent: seq<Byte>
    var pending: seq<seq<Event>>
    var history: seq<seq<Byte>>
    var readCounter: nat
    var writeCounter: nat
    /** Whether a `restartserver` function was given. */
    const canRestart: bool

    function State(): Link
      reads this
    {
      Link(rx, sent, pending, history, readCounter, writeCounter)
    }

    /** `__init__` on an established connection; connecting is not modelled. */
    constructor (script: seq<Event>, later: seq<seq<Event>>, restartGiven: bool)
      ensures State() == Link(script, [], later, [], 0, 0)
      ensures canRestart == restartGiven
    {
      rx, sent, pending, history := script, [], later, [];
      readCounter, writeCounter := 0, 0;
      canRestart := restartGiven;
    }

    method Recv(n: nat) returns (got: Option<seq<Byte>>)
      requires n > 0
      modifies this`rx
      ensures RecvStep(got, rx) == RecvSpec(old(rx), n)
    {
      if rx == [] {
        got := None;
      } else {
        match rx[0]
        case Timeout =>
          got := None;
          rx := rx[1..];
        case Closed =>
          got := Some([]);
        case Data(c) =>
          if |c| <= n {
            got := Some(c);
            rx := rx[1..];
          } else {
            got := Some(c[..n]);
            rx := [Data(c[n..])] + rx[1..];
          }
      }
    }

    /** `emptybuffer`; `raised` says that a receive timed out. */
    method EmptyBuffer() returns (raised: bool)
      modifies this`rx
      ensures Drained(raised, rx) == Drain(old(rx), DRAIN_RECEIVES)
    {
      var i := 0;
      while i < DRAIN_RECEIVES
        invariant 0 <= i <= DRAIN_RECEIVES
        invariant Drain(old(rx), DRAIN_RECEIVES) == Drain(rx, DRAIN_RECEIVES - i)
      {
        var got := Recv(DRAIN_CHUNK);
        if got.None? {
          return true;
        }
        if |got.value| <= 0 {
          return false;
        }
        i := i + 1;
      }
      return false;
    }

    /** `_reads`: one framed read, the header echo checked. */
    method ReadsOnce(addr: nat, length: nat) returns (r: Attempt<seq<U32>>)
      modifies this`rx, this`sent
      ensures sent == old(sent) + ReadRequest(addr, length)
      ensures (r, rx) == ReadsSpec(old(rx), addr, length)
    {
      var n := if length > MAX_READ_WORDS then MAX_READ_WORDS else length;
      var header := Header(OP_READ, n, addr);
      assert header == ReadRequest(addr, length);
      sent := sent + header;
      var got := ReceiveReply(4 * n + 8);
      ReadsAfterCollect(old(rx), addr, length, Taken(got, rx));
      if got.None? {
        r := Raised;
      } else if got.value[..8] == header {
        r := Returned(BytesToWords(got.value[8..]));
      } else {
        ghost var after := AfterDesync<seq<U32>>(rx);
        var raised := EmptyBuffer();
        r := if raised then Raised else ReturnedNone;
        assert (r, rx) == after;
      }
    }

    /**
     * The receive loop of `_reads`: receives until `need` bytes have come,
     * and gives up (None) at a timeout or when the peer has closed.
     */
    method ReceiveReply(need: nat) returns (got: Option<seq<Byte>>)
      requires need > 0
      modifies this`rx
      ensures Taken(got, rx) == Collect(old(rx), need)
    {
      // the first receive of the source is the first iteration of this loop
      var data: seq<Byte> := [];
      assert Resume(data, rx, need) == Collect(rx, need) by {
        PrependNothing(Collect(rx, need));
      }
      while |data| < need
        invariant |data| <= need
        invariant Resume(data, rx, need) == Collect(old(rx), need)
        decreases need - |data|
      {
        ResumeStep(data, rx, need);
        var chunk := Recv(need - |data|);
        if chunk.None? || chunk.value == [] {
          return None;
        }
        data := data + chunk.value;
      }
      got := Some(data);
    }

    /** `_writes`: one framed write; the reply must be the header, in one receive. */
    method WritesOnce(addr: nat, values: seq<U32>) returns (r: Attempt<bool>)
      modifies this`rx, this`sent
      ensures sent == old(sent) + WriteRequest(addr, values)
      ensures (r, rx) == WritesSpec(old(rx), addr, values)
    {
      var vals := if |values| <= MAX_WRITE_WORDS then values else values[..MAX_WRITE_WORDS];
      var header := Header(OP_WRITE, |vals|, addr);
      assert vals == WriteValues(values) && header == WriteHeader(addr, values);
      sent := sent + (header + WordsToBytes(vals));
      var got := Recv(8);
      if got.None? {
        r := Raised;
      } else if got.value == header {
        r := Returned(true);
      } else {
        var raised := EmptyBuffer();
        r := if raised then Raised else ReturnedNone;
      }
    }

    method Once(req: Request) returns (a: Attempt<Reply>)
      modifies this`rx, this`sent
      ensures (a, State()) == OnceSpec(old(State()), req)
    {
      match req
      case ReadReq(addr, length) =>
        var r := ReadsOnce(addr, length);
        a := match r
          case Returned(ws) => Returned(Words(ws))
          case ReturnedNone => ReturnedNone
          case Raised => Raised;
      case WriteReq(addr, values) =>
        var r := WritesOnce(addr, values);
        a := match r
          case Returned(_) => Returned(Ack)
          case ReturnedNone => ReturnedNone
          case Raised => Raised;
    }

    /** `close`: sends the close frame (a failed send is not modelled). */
    method Close()
      modifies this`sent
      ensures sent == old(sent) + CloseFrame()
    {
      sent := sent + CloseFrame();
    }

    method Restart()
      modifies this
      ensures State() == RestartSpec(old(State()))
    {
      Close();
      history := history + [sent];
      sent := [];
      if pending == [] {
        rx := [];
      } else {
        rx, pending := pending[0], pending[1..];
      }
      readCounter, writeCounter := 0, 0;
    }

    /**
     * One pass of the loop in `try_n_times`: an attempt, and after a socket
     * error the restart; `n` counts this attempt and the ones still allowed.
     */
    method TryOnce(req: Request, ghost n: nat) returns (a: Attempt<Reply>)
      requires n > 0
      modifies this
      ensures a.Returned? ==> TryOutcome(old(State()), req, n, canRestart, OnceSpec) == (Some(a.v), State())
      ensures !a.Returned? ==> TryOutcome(old(State()), req, n, canRestart, OnceSpec) == TryOutcome(State(), req, n - 1, canRestart, OnceSpec)
    {
      ghost var before := State();
      a := Once(req);
      match a
      case Returned(v) =>
        TryEndsOnValue(before, req, n, canRestart, OnceSpec, v, State());
      case ReturnedNone =>
        TryGoesOn(before, req, n, canRestart, OnceSpec, State());
      case Raised =>
        TryRestarts(before, req, n, canRestart, OnceSpec, State());
        if canRestart {
          Restart();
        }
    }

    /** `try_n_times` with the request kept for every attempt. */
    method TryNTimes(req: Request) returns (r: Option<Reply>)
      modifies this
      ensures (r, State()) == TryOutcome(old(State()), req, TRIES, canRestart, OnceSpec)
    {
      var i := 0;
      ghost var l0 := State();
      while i < TRIES
        invariant 0 <= i <= TRIES
        invariant TryOutcome(l0, req, TRIES, canRestart, OnceSpec) == TryOutcome(State(), req, TRIES - i, canRestart, OnceSpec)
      {
        var a := TryOnce(req, TRIES - i);
        if a.Returned? {
          return Some(a.v);
        }
        i := i + 1;
      }
      r := None;
    }

    /** `reads`: counts the call, then tries up to five times. */
    method Reads(addr: nat, length: nat) returns (r: Option<Reply>)
      modifies this
      ensures var l := old(State()).(readCounter := old(readCounter) + 1);
        (r, State()) == TryOutcome(l, ReadReq(addr, length), TRIES, canRestart, OnceSpec)
    {
      readCounter := readCounter + 1;
      r := TryNTimes(ReadReq(addr, length));
    }

    /** `writes`: counts the call, then tries up to five times. */
    method Writes(addr: nat, values: seq<U32>) returns (r: Option<Reply>)
      modifies this
      ensures var l := old(State()).(writeCounter := old(writeCounter) + 1);
        (r, State()) == TryOutcome(l, WriteReq(addr, values), TRIES, canRestart, OnceSpec)
    {
      writeCounter := writeCounter + 1;
      r := TryNTimes(WriteReq(addr, values));
    }
  }
}
