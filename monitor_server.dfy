/**
 * The monitor server that runs on the board (monitor_server.c): it reads
 * 8-byte request headers from one client, reads or writes up to 65535
 * consecutive 32-bit words of FPGA memory through a 128 KiB mapping of
 * /dev/mem, echoes the header, and stops on 'c' or on any error.
 *
 * The board is a 32-bit ARM target: `unsigned long` is 4 bytes and `char`
 * is unsigned. Device memory is a map from byte address to word (an address
 * never written reads as 0); words are taken to be word-aligned, so words at
 * different addresses do not overlap. The client's byte stream is a
 * parameter.
 */
module MonitorServer {
  import opened Common
  import opened Wire

  const MAP_SIZE: nat := 131072
  const MAX_LENGTH: nat := 65535

  type Memory = map<nat, U32>

  /** How the server process ends. */
  datatype Exit =
    | CloseRequested        // opcode 'c': the loop breaks, exit status 0
    | ShortHeader           // fewer than 8 header bytes before the stream ended
    | ShortPayload          // fewer payload bytes than a write announced
    | UnknownOpcode(op: Byte)
    | MappingFault          // an access beyond the mapped 128 KiB window

  function Load(mem: Memory, a: nat): U32
  {
    if a in mem then mem[a] else 0
  }

  /**
   * How many whole words fit between `addr` and the end of the window that
   * the server maps at `addr & ~MAP_MASK`.
   */
  function Fit(addr: nat): nat
  {
    (MAP_SIZE - addr % MAP_SIZE) / 4
  }

  /** The `n` words starting at `addr`. */
  function Loaded(mem: Memory, addr: nat, n: nat): (ws: seq<U32>)
    ensures |ws| == n
  {
    if n == 0 then [] else Loaded(mem, addr, n - 1) + [Load(mem, addr + 4 * (n - 1))]
  }

  /** Memory after `vals` is stored word by word from `addr` on. */
  function Stored(mem: Memory, addr: nat, vals: seq<U32>): Memory
  {
    if vals == [] then mem
    else Stored(mem, addr, vals[..|vals| - 1])[addr + 4 * (|vals| - 1) := vals[|vals| - 1]]
  }

  lemma {:induction false} LoadedAt(mem: Memory, addr: nat, n: nat, i: nat)
    requires i < n
    ensures Loaded(mem, addr, n)[i] == Load(mem, addr + 4 * i)
  {
    if i < n - 1 {
      LoadedAt(mem, addr, n - 1, i);
    }
  }

  /** After a store, each address reads its word from `vals` if it was written, else as before. */
  lemma {:induction false} LoadStored(mem: Memory, addr: nat, vals: seq<U32>, x: nat)
    ensures Load(Stored(mem, addr, vals), x) ==
      if addr <= x < addr + 4 * |vals| && (x - addr) % 4 == 0 then vals[(x - addr) / 4] else Load(mem, x)
  {
    if vals != [] {
      var k := |vals| - 1;
      LoadStored(mem, addr, vals[..k], x);
      if x != addr + 4 * k && addr <= x < addr + 4 * |vals| && (x - addr) % 4 == 0 {
        assert (x - addr) / 4 < k;
        assert vals[..k][(x - addr) / 4] == vals[(x - addr) / 4];
      }
    }
  }

  /** Reading back what was just written gives the written words. */
  lemma ReadAfterWrite(mem: Memory, addr: nat, vals: seq<U32>)
    ensures Loaded(Stored(mem, addr, vals), addr, |vals|) == vals
  {
    var m := Stored(mem, addr, vals);
    forall i | 0 <= i < |vals|
      ensures Loaded(m, addr, |vals|)[i] == vals[i]
    {
      LoadedAt(m, addr, |vals|, i);
      LoadStored(mem, addr, vals, addr + 4 * i);
    }
  }

  /** The word count of a header: the 16-bit length field, clamped to MAX_LENGTH. */
  function FrameLength(b2: Byte, b3: Byte): (n: nat)
    ensures n <= MAX_LENGTH
  {
    var raw := b2 as int + 256 * b3 as int;
    if raw > MAX_LENGTH then MAX_LENGTH else raw
  }

  /** On the board the length read is the length field, for every header. */
  lemma FrameLengthOfHeader(op: Byte, length: nat, addr: nat)
    requires length <= MAX_LENGTH
    ensures var h := Header(op, length, addr); FrameLength(h[2], h[3]) == length
  {
  }

  /**
   * The same computation where `char` is signed (x86 builds): each byte is
   * sign-extended in `buffer[2]+(buffer[3]<<8)` and the sum is converted to
   * `unsigned int`.
   */
  function FrameLengthSignedChar(b2: Byte, b3: Byte): (n: nat)
    ensures n <= MAX_LENGTH
  {
    var s2 := if b2 >= 128 then b2 as int - 256 else b2 as int;
    var s3 := if b3 >= 128 then b3 as int - 256 else b3 as int;
    var u := (s2 + 256 * s3) % TWO32;
    if u > MAX_LENGTH then MAX_LENGTH else u
  }

  /** Lengths 200 and 456 are read as 65535 and 200 where `char` is signed. */
  lemma SignedCharMisreadsLength()
    ensures FrameLengthSignedChar(200, 0) == 65535 && FrameLength(200, 0) == 200
    ensures FrameLengthSignedChar(200, 1) == 200 && FrameLength(200, 1) == 456
  {
  }

  /** Where no byte has its top bit set, both computations agree. */
  lemma SignedCharAgreesBelow128(b2: Byte, b3: Byte)
    requires b2 < 128 && b3 < 128
    ensures FrameLengthSignedChar(b2, b3) == FrameLength(b2, b3)
  {
  }

  /** What one pass of the service loop does. */
  datatype Step =
    | Next(mem: Memory, rest: seq<Byte>, sent: seq<Byte>)
    | Stop(mem: Memory, exit: Exit)

  /** One pass of the service loop on the bytes still to be received. */
  function StepSpec(mem: Memory, input: seq<Byte>): (s: Step)
    ensures s.Next? ==> |s.rest| < |input|
    ensures s.Next? ==> |s.sent| % 4 == 0
  {
    if |input| < 8 then Stop(mem, ShortHeader)
    else
      var h := input[..8];
      var rest := input[8..];
      var addr := WordOf(h[4..8]);
      var n := FrameLength(h[2], h[3]);
      if n == 0 then Next(mem, rest, [])
      else if h[0] == OP_READ then
        if n <= Fit(addr) then Next(mem, rest, h + WordsToBytes(Loaded(mem, addr, n)))
        else Stop(mem, MappingFault)
      else if h[0] == OP_WRITE then
        if |rest| < 4 * n then Stop(mem, ShortPayload)
        else
          var vals := BytesToWords(rest[..4 * n]);
          if n <= Fit(addr) then Next(Stored(mem, addr, vals), rest[4 * n..], h)
          else Stop(Stored(mem, addr, vals[..Fit(addr)]), MappingFault)
      else if h[0] == OP_CLOSE then Stop(mem, CloseRequested)
      else Stop(mem, UnknownOpcode(h[0]))
  }

  /** Final memory, everything sent, and the exit of a whole session. */
  datatype Served = Served(mem: Memory, output: seq<Byte>, exit: Exit)

  function Then(prefix: seq<Byte>, r: Served): Served
  {
    Served(r.mem, prefix + r.output, r.exit)
  }

  /**
   * The whole session: passes of the loop until it stops. Everything the
   * server sends is made of whole 32-bit words.
   */
  function Run(mem: Memory, input: seq<Byte>): (r: Served)
    ensures |r.output| % 4 == 0
    decreases |input|
  {
    match StepSpec(mem, input)
    case Next(m, rest, sent) =>
      var r := Run(m, rest);
      WholeWords(sent, r.output);
      Then(sent, r)
    case Stop(m, e) => Served(m, [], e)
  }

  lemma WholeWords(a: seq<Byte>, b: seq<Byte>)
    requires |a| % 4 == 0 && |b| % 4 == 0
    ensures |a + b| % 4 == 0
  {
    assert |a + b| == 4 * (|a| / 4 + |b| / 4);
  }

  /** One pass of the loop, then the rest of the session. */
  lemma RunStep(mem: Memory, input: seq<Byte>)
    ensures var s := StepSpec(mem, input);
      Run(mem, input) == if s.Next? then Then(s.sent, Run(s.mem, s.rest)) else Served(s.mem, [], s.exit)
  {
  }

  lemma ThenThen(a: seq<Byte>, b: seq<Byte>, r: Served)
    ensures Then(a, Then(b, r)) == Then(a + b, r)
  {
    assert a + (b + r.output) == (a + b) + r.output;
  }

  // ---------------------------------------------------------------------------
  // Properties of the protocol

  /** A frame announcing zero words is skipped without a reply. */
  lemma ZeroLengthSkipped(mem: Memory, h: seq<Byte>, rest: seq<Byte>)
    requires |h| == 8 && h[2] == 0 && h[3] == 0
    ensures Run(mem, h + rest) == Run(mem, rest)
  {
    var input := h + rest;
    assert input[..8] == h && input[8..] == rest;
    assert [] + Run(mem, rest).output == Run(mem, rest).output;
  }

  /** A read frame is answered with its own header followed by the words read. */
  lemma ReadAnswered(mem: Memory, addr: U32, n: nat, rest: seq<Byte>)
    requires 0 < n <= Fit(addr)
    ensures Run(mem, Header(OP_READ, n, addr) + rest)
      == Then(Header(OP_READ, n, addr) + WordsToBytes(Loaded(mem, addr, n)), Run(mem, rest))
  {
    var h := Header(OP_READ, n, addr);
    var input := h + rest;
    assert input[..8] == h && input[8..] == rest;
    assert n <= MAX_LENGTH by {
      assert 4 * n <= MAP_SIZE;
    }
    HeaderFields(OP_READ, n, addr);
  }

  /** A write frame stores its words and is answered with its own header. */
  lemma WriteAnswered(mem: Memory, addr: U32, vals: seq<U32>, rest: seq<Byte>)
    requires 0 < |vals| <= Fit(addr)
    ensures Run(mem, Header(OP_WRITE, |vals|, addr) + WordsToBytes(vals) + rest)
      == Then(Header(OP_WRITE, |vals|, addr), Run(Stored(mem, addr, vals), rest))
  {
    var n := |vals|;
    var h := Header(OP_WRITE, n, addr);
    var input := h + WordsToBytes(vals) + rest;
    assert n <= MAX_LENGTH by {
      assert 4 * n <= MAP_SIZE;
    }
    HeaderFields(OP_WRITE, n, addr);
    assert input[..8] == h;
    assert input[8..][..4 * n] == WordsToBytes(vals);
    assert input[8..][4 * n..] == rest;
    WordsBytesRoundTrip(vals);
  }

  /** Bytes that are not a known opcode stop the server after the header is read. */
  lemma UnknownOpcodeStops(mem: Memory, h: seq<Byte>, rest: seq<Byte>)
    requires |h| == 8 && FrameLength(h[2], h[3]) > 0
    requires h[0] != OP_READ && h[0] != OP_WRITE && h[0] != OP_CLOSE
    ensures Run(mem, h + rest) == Served(mem, [], UnknownOpcode(h[0]))
  {
    var input := h + rest;
    assert input[..8] == h;
  }

  // ---------------------------------------------------------------------------
  // The server process

  class Server {
    var mem: Memory
    /** The bytes the client will still send. */
    var input: seq<Byte>
    /** The bytes sent to the client. */
    var output: seq<Byte>

    constructor (memory: Memory, stream: seq<Byte>)
      ensures mem == memory && input == stream && output == []
    {
      mem, input, output := memory, stream, [];
    }

    /** `read_values`: `ok` is false when the loop leaves the mapped window. */
    method ReadValues(addr: nat, buf: array<U32>, len: nat) returns (ok: bool)
      requires len <= buf.Length
      modifies buf
      ensures ok <==> len <= Fit(addr)
      ensures ok ==> buf[..len] == Loaded(mem, addr, len)
    {
      var i := 0;
      while i < len
        invariant 0 <= i <= len && i <= Fit(addr)
        invariant buf[..i] == Loaded(mem, addr, i)
      {
        if addr % MAP_SIZE + 4 * i + 4 > MAP_SIZE {
          return false;
        }
        buf[i] := Load(mem, addr + 4 * i);
        assert buf[..i + 1] == buf[..i] + [buf[i]];
        i := i + 1;
      }
      return true;
    }

    /** `write_values`: stores word by word; `ok` is false when it left the window. */
    method WriteValues(addr: nat, buf: array<U32>, len: nat) returns (ok: bool)
      requires len <= buf.Length
      modifies this`mem
      ensures ok <==> len <= Fit(addr)
      ensures mem == Stored(old(mem), addr, buf[..Min(len, Fit(addr))])
    {
      var i := 0;
      while i < len
        invariant 0 <= i <= len && i <= Fit(addr)
        invariant mem == Stored(old(mem), addr, buf[..i])
      {
        if addr % MAP_SIZE + 4 * i + 4 > MAP_SIZE {
          return false;
        }
        mem := mem[addr + 4 * i := buf[i]];
        assert buf[..i + 1][..i] == buf[..i];
        i := i + 1;
      }
      return true;
    }

    /** `recv(..., MSG_WAITALL)` of `len` words into `buf`. */
    method RecvWords(buf: array<U32>, len: nat)
      requires len <= buf.Length && 4 * len <= |input|
      modifies buf, this`input
      ensures buf[..len] == BytesToWords(old(input)[..4 * len])
      ensures input == old(input)[4 * len..]
    {
      var i := 0;
      while i < len
        invariant 0 <= i <= len
        invariant input == old(input)
        invariant forall k :: 0 <= k < i ==> buf[k] == WordOf(input[4 * k..4 * k + 4])
      {
        buf[i] := WordOf(input[4 * i..4 * i + 4]);
        i := i + 1;
      }
      ghost var bytes := input[..4 * len];
      forall k | 0 <= k < len
        ensures buf[..len][k] == BytesToWords(bytes)[k]
      {
        BytesToWordsAt(bytes, k);
        assert bytes[4 * k..4 * k + 4] == input[4 * k..4 * k + 4];
      }
      input := input[4 * len..];
    }

    /** One pass of the service loop: `stop` is the exit when the loop ends. */
    method ServeFrame(head: array<Byte>, rw: array<U32>) returns (stop: Option<Exit>)
      requires head.Length == 8 && rw.Length == MAX_LENGTH
      modifies this, head, rw
      ensures var s := StepSpec(old(mem), old(input));
        && mem == s.mem
        && (s.Next? ==> stop.None? && input == s.rest && output == old(output) + s.sent)
        && (s.Stop? ==> stop == Some(s.exit) && output == old(output))
    {
      if |input| < 8 {
        return Some(ShortHeader);
      }
      ghost var in0 := input;
      forall k | 0 <= k < 8 {
        head[k] := input[k];
      }
      assert head[..] == in0[..8];
      input := input[8..];
      var address := WordOf(head[4..8]);
      var n := FrameLength(head[2], head[3]);
      assert head[4..8] == in0[..8][4..8];
      if n == 0 {
        return None;
      } else if head[0] == OP_READ {
        var ok := ReadValues(address, rw, n);
        if !ok {
          return Some(MappingFault);
        }
        output := output + head[..] + WordsToBytes(rw[..n]);
        return None;
      } else if head[0] == OP_WRITE {
        if |input| < 4 * n {
          return Some(ShortPayload);
        }
        RecvWords(rw, n);
        ghost var vals := rw[..n];
        var ok := WriteValues(address, rw, n);
        if !ok {
          assert rw[..Min(n, Fit(address))] == vals[..Fit(address)];
          return Some(MappingFault);
        }
        assert rw[..Min(n, Fit(address))] == vals;
        output := output + head[..];
        return None;
      } else if head[0] == OP_CLOSE {
        return Some(CloseRequested);
      } else {
        return Some(UnknownOpcode(head[0]));
      }
    }

    /** The service loop of `main` for one accepted client. */
    method Serve() returns (exit: Exit)
      modifies this
      ensures var r := Run(old(mem), old(input));
        mem == r.mem && output == old(output) + r.output && exit == r.exit
    {
      var head := new Byte[8];
      var rw := new U32[MAX_LENGTH];
      ghost var total := Then(output, Run(mem, input));
      while true
        invariant total == Then(output, Run(mem, input))
        decreases |input|
      {
        ghost var out := output;
        var stop, more := ServePass(head, rw);
        if stop.Some? {
          assert output + [] == output;
          return stop.value;
        }
        ThenThen(out, more, Run(mem, input));
      }
    }

    /** One pass of the loop, stated against the rest of the session. */
    method ServePass(head: array<Byte>, rw: array<U32>) returns (stop: Option<Exit>, ghost sent: seq<Byte>)
      requires head.Length == 8 && rw.Length == MAX_LENGTH
      modifies this, head, rw
      ensures stop.Some? ==> output == old(output) && Run(old(mem), old(input)) == Served(mem, [], stop.value)
      ensures stop.None? ==> (output == old(output) + sent && |input| < |old(input)|
        && Run(old(mem), old(input)) == Then(sent, Run(mem, input)))
    {
      ghost var s := StepSpec(mem, input);
      RunStep(mem, input);
      stop := ServeFrame(head, rw);
      sent := if s.Next? then s.sent else [];
    }
  }

  lemma {:induction false} BytesToWordsAt(bs: seq<Byte>, k: nat)
    requires |bs| % 4 == 0 && k < |bs| / 4
    ensures BytesToWords(bs)[k] == WordOf(bs[4 * k..4 * k + 4])
  {
    if k > 0 {
      BytesToWordsAt(bs[4..], k - 1);
      assert bs[4..][4 * (k - 1)..4 * (k - 1) + 4] == bs[4 * k..4 * k + 4];
    }
  }
}
