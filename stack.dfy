/**
 * The client and the server together: the bytes the client sends are the
 * server's input, and the server's output is what the client receives.
 */
module Stack {
  import opened Common
  import opened Wire
  import opened StemlabClient
  import opened MonitorServer

  /**
   * The frame that `close` sends announces zero words, and the server skips
   * zero-length frames before it looks at the opcode, so the close frame
   * never reaches the 'c' branch: the server ends only when the connection
   * does, through the short-header error.
   */
  lemma CloseFrameIsSkipped(mem: Memory, rest: seq<Byte>)
    ensures Run(mem, CloseFrame() + rest) == Run(mem, rest)
    ensures Run(mem, CloseFrame()) == Served(mem, [], ShortHeader)
  {
    ZeroLengthSkipped(mem, CloseFrame(), rest);
    ZeroLengthSkipped(mem, CloseFrame(), []);
    assert CloseFrame() + [] == CloseFrame();
  }

  /** The server's whole answer to a write of `vals` followed by a read of as many words. */
  function WriteReadAnswer(addr: nat, vals: seq<U32>): (c: Chunk)
    ensures |c| == 4 * |vals| + 16
    ensures c[..8] == WriteHeader(addr, vals) && c[8..] == ReadReply(addr, vals)
  {
    WriteHeader(addr, vals) + ReadReply(addr, vals)
  }

  /** A write of `vals` then a read of as many words at the same address, as the server sees them. */
  lemma ServerWriteThenRead(mem: Memory, addr: U32, vals: seq<U32>)
    requires 0 < |vals| <= Fit(addr)
    ensures |vals| <= MAX_WRITE_WORDS
    ensures Run(mem, WriteRequest(addr, vals) + ReadRequest(addr, |vals|))
      == Served(Stored(mem, addr, vals), WriteReadAnswer(addr, vals), ShortHeader)
  {
    var n := |vals|;
    assert n <= MAX_WRITE_WORDS by {
      assert 4 * n <= MAP_SIZE;
    }
    var m := Stored(mem, addr, vals);
    var rd := ReadRequest(addr, n);
    assert WriteValues(vals) == vals;
    WriteAnswered(mem, addr, vals, rd);
    ReadAlone(m, addr, n);
    ReadAfterWrite(mem, addr, vals);
  }

  /** A read request with nothing after it: the reply, then the short-header stop. */
  lemma ReadAlone(mem: Memory, addr: U32, n: nat)
    requires 0 < n <= Fit(addr)
    ensures Run(mem, ReadRequest(addr, n))
      == Served(mem, ReadRequest(addr, n) + WordsToBytes(Loaded(mem, addr, n)), ShortHeader)
  {
    assert n <= MAX_READ_WORDS by {
      assert 4 * n <= MAP_SIZE;
    }
    var rd := ReadRequest(addr, n);
    ReadAnswered(mem, addr, n, []);
    assert rd + [] == rd;
    assert Run(mem, []) == Served(mem, [], ShortHeader);
    assert (rd + WordsToBytes(Loaded(mem, addr, n))) + [] == rd + WordsToBytes(Loaded(mem, addr, n));
  }

  /** A chunk that starts with the write's echo acknowledges the write and keeps the rest. */
  lemma WriteAcknowledged(addr: U32, vals: seq<U32>, more: Chunk, tail: seq<Event>)
    ensures WritesSpec([Data(WriteHeader(addr, vals) + more)] + tail, addr, vals)
      == (Returned(true), [Data(more)] + tail)
  {
    var c := WriteHeader(addr, vals) + more;
    assert c[..8] == WriteHeader(addr, vals) && c[8..] == more;
  }

  /**
   * Round trip through both sides: the client writes `vals`, then reads as
   * many words back. The server receives exactly what the client sent and
   * stores the words; with its whole answer delivered in one chunk the
   * write is acknowledged and the read returns `vals`.
   */
  lemma WriteThenReadRoundTrip(mem: Memory, addr: U32, vals: seq<U32>, tail: seq<Event>)
    requires 0 < |vals| <= Fit(addr)
    ensures Run(mem, WriteRequest(addr, vals) + ReadRequest(addr, |vals|)).mem == Stored(mem, addr, vals)
    ensures Run(mem, WriteRequest(addr, vals) + ReadRequest(addr, |vals|)).output == WriteReadAnswer(addr, vals)
    ensures var l := Link([Data(WriteReadAnswer(addr, vals))] + tail, [], [], [], 0, 0);
      var w := OnceSpec(l, WriteReq(addr, vals));
      var r := OnceSpec(w.1, ReadReq(addr, |vals|));
      && w.0 == Returned(Ack) && r.0 == Returned(Words(vals))
      && r.1.sent == WriteRequest(addr, vals) + ReadRequest(addr, |vals|)
      && r.1.rx == tail
  {
    var n := |vals|;
    ServerWriteThenRead(mem, addr, vals);
    var reply := ReadReply(addr, vals);
    var l := Link([Data(WriteReadAnswer(addr, vals))] + tail, [], [], [], 0, 0);
    assert WriteReadAnswer(addr, vals) == WriteHeader(addr, vals) + reply;
    WriteAcknowledged(addr, vals, reply, tail);
    ReadsExactReply(addr, vals, tail);
    var l1 := l.(rx := [Data(reply)] + tail, sent := WriteRequest(addr, vals));
    assert [] + WriteRequest(addr, vals) == WriteRequest(addr, vals);
    OnceWriteReturned(l, addr, vals, [Data(reply)] + tail);
    OnceReadReturned(l1, addr, n, vals, tail);
  }
}
