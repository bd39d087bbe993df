/**
 * The byte format shared by the monitor client and the monitor server:
 * 32-bit words travel least significant byte first, and every request
 * starts with an 8-byte header
 *   [opcode, 0, length low byte, length high byte, address as 4 bytes].
 */
module Wire {
  import opened Common

  /** Opcodes are the ASCII letters 'r', 'w' and 'c'. */
  const OP_READ: Byte := 114
  const OP_WRITE: Byte := 119
  const OP_CLOSE: Byte := 99

  const HEADER_SIZE: nat := 8

  /** The four bytes of a word, least significant first. */
  function WordBytes(w: U32): (b: seq<Byte>)
    ensures |b| == 4
  {
    var q1 := w / 256;
    var q2 := q1 / 256;
    [w % 256, q1 % 256, q2 % 256, q2 / 256]
  }

  /** The word whose little-endian bytes are `b`. */
  function WordOf(b: seq<Byte>): (w: U32)
    requires |b| == 4
  {
    b[0] as int + 256 * (b[1] as int + 256 * (b[2] as int + 256 * b[3] as int))
  }

  lemma WordRoundTrip(w: U32)
    ensures WordOf(WordBytes(w)) == w
  {
    var q1 := w / 256;
    var q2 := q1 / 256;
    assert w == w % 256 + 256 * q1;
    assert q1 == q1 % 256 + 256 * q2;
    assert q2 == q2 % 256 + 256 * (q2 / 256);
  }

  lemma BytesRoundTrip(b: seq<Byte>)
    requires |b| == 4
    ensures WordBytes(WordOf(b)) == b
  {
    var w := WordOf(b);
    var q2 := b[2] as int + 256 * b[3] as int;
    var q1 := b[1] as int + 256 * q2;
    assert w == b[0] as int + 256 * q1;
    assert w % 256 == b[0] && w / 256 == q1;
    assert q1 % 256 == b[1] && q1 / 256 == q2;
    assert q2 % 256 == b[2] && q2 / 256 == b[3];
  }

  /** Concatenated little-endian encoding, as numpy's `uint32` `tobytes()` lays words out on a little-endian client. */
  function WordsToBytes(ws: seq<U32>): (bs: seq<Byte>)
    ensures |bs| == 4 * |ws|
  {
    if ws == [] then [] else WordBytes(ws[0]) + WordsToBytes(ws[1..])
  }

  /** Decoding of a byte string of whole words, as `np.frombuffer(..., dtype=np.uint32)`. */
  function BytesToWords(bs: seq<Byte>): (ws: seq<U32>)
    requires |bs| % 4 == 0
    ensures |ws| == |bs| / 4
  {
    if bs == [] then [] else [WordOf(bs[..4])] + BytesToWords(bs[4..])
  }

  lemma {:induction false} WordsBytesRoundTrip(ws: seq<U32>)
    ensures BytesToWords(WordsToBytes(ws)) == ws
  {
    if ws != [] {
      var bs := WordsToBytes(ws);
      assert bs[..4] == WordBytes(ws[0]);
      assert bs[4..] == WordsToBytes(ws[1..]);
      WordRoundTrip(ws[0]);
      WordsBytesRoundTrip(ws[1..]);
    }
  }

  lemma {:induction false} BytesWordsRoundTrip(bs: seq<Byte>)
    requires |bs| % 4 == 0
    ensures WordsToBytes(BytesToWords(bs)) == bs
  {
    if bs != [] {
      var ws := BytesToWords(bs);
      assert ws[0] == WordOf(bs[..4]);
      assert ws[1..] == BytesToWords(bs[4..]);
      BytesRoundTrip(bs[..4]);
      BytesWordsRoundTrip(bs[4..]);
      assert bs == bs[..4] + bs[4..];
    }
  }

  lemma {:induction false} WordsToBytesAppend(a: seq<U32>, b: seq<U32>)
    ensures WordsToBytes(a + b) == WordsToBytes(a) + WordsToBytes(b)
  {
    if a != [] {
      assert (a + b)[1..] == a[1..] + b;
      WordsToBytesAppend(a[1..], b);
    } else {
      assert a + b == b;
    }
  }

  /**
   * The request header. The length field keeps the low 16 bits of `length`
   * (`length & 0xFF`, `(length >> 8) & 0xFF`) and the address its low 32 bits.
   */
  function Header(op: Byte, length: nat, addr: nat): (h: seq<Byte>)
    ensures |h| == HEADER_SIZE
    ensures h[0] == op && h[1] == 0
    ensures h[2] as int + 256 * h[3] as int == length % 65536
    ensures WordOf(h[4..]) == addr % TWO32
  {
    var h := [op, 0, length % 256, (length / 256) % 256] + WordBytes(addr % TWO32);
    assert h[4..] == WordBytes(addr % TWO32);
    WordRoundTrip(addr % TWO32);
    h
  }

  /** Reading back the fields of a header gives the values it was built from. */
  lemma HeaderFields(op: Byte, length: nat, addr: nat)
    requires length < 65536 && addr < TWO32
    ensures var h := Header(op, length, addr);
      h[0] == op && h[2] as int + 256 * h[3] as int == length && WordOf(h[4..8]) == addr
  {
    var h := Header(op, length, addr);
    assert h[4..8] == h[4..];
  }

  /** Two headers are equal exactly when all their fields agree in range. */
  lemma {:induction false} HeaderInjective(op1: Byte, l1: nat, a1: nat, op2: Byte, l2: nat, a2: nat)
    requires l1 < 65536 && l2 < 65536 && a1 < TWO32 && a2 < TWO32
    ensures Header(op1, l1, a1) == Header(op2, l2, a2) <==> (op1 == op2 && l1 == l2 && a1 == a2)
  {
    var h1, h2 := Header(op1, l1, a1), Header(op2, l2, a2);
    if h1 == h2 {
      assert h1[4..] == h2[4..];
    }
  }
}
