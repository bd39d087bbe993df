/**
 * A hardware module: a block of FPGA registers at a fixed base address,
 * reached through the monitor client. Offsets are relative to the base,
 * the address on the wire keeps its low 32 bits, and the registers are
 * the board memory seen by the server (word-addressed by byte address).
 * Every transfer is taken to reach the board.
 */
module Hardware {
  import opened Common
  import opened MonitorServer
  import StemlabClient

  /** The absolute register address of `offset` in a module based at `base`. */
  function Absolute(base: int, offset: int): U32
  {
    (base + offset) % TWO32
  }

  /** One `writes` call as it reaches the board. */
  datatype WriteOp = WriteOp(addr: U32, values: seq<U32>)

  class HardwareModule {
    const addrBase: int
    var regs: Memory
    var writeLog: seq<WriteOp>

    constructor (base: int, board: Memory)
      ensures addrBase == base && regs == board && writeLog == []
    {
      addrBase := base;
      regs := board;
      writeLog := [];
    }

    /** `_reads`: the client reads at most 65535 words from base + `addr`. */
    method Reads(addr: int, length: nat) returns (ws: seq<U32>)
      ensures ws == Loaded(regs, Absolute(addrBase, addr), Min(length, StemlabClient.MAX_READ_WORDS))
    {
      ws := Loaded(regs, Absolute(addrBase, addr), Min(length, StemlabClient.MAX_READ_WORDS));
    }

    /** `_writes`: the client writes at most 65533 words from base + `addr`. */
    method Writes(addr: int, values: seq<U32>)
      modifies this
      ensures regs == Stored(old(regs), Absolute(addrBase, addr), StemlabClient.WriteValues(values))
      ensures writeLog == old(writeLog) + [WriteOp(Absolute(addrBase, addr), StemlabClient.WriteValues(values))]
    {
      var vs := StemlabClient.WriteValues(values);
      regs := Stored(regs, Absolute(addrBase, addr), vs);
      writeLog := writeLog + [WriteOp(Absolute(addrBase, addr), vs)];
    }

    /** `_read`: the first word of a one-word read. */
    method Read(addr: int) returns (w: U32)
      ensures w == Load(regs, Absolute(addrBase, addr))
    {
      var ws := Reads(addr, 1);
      w := ws[0];
    }

    /** `_write`: a one-element write. */
    method Write(addr: int, value: U32)
      modifies this
      ensures regs == old(regs)[Absolute(addrBase, addr) := value]
      ensures writeLog == old(writeLog) + [WriteOp(Absolute(addrBase, addr), [value])]
    {
      Writes(addr, [value]);
      assert Stored(old(regs), Absolute(addrBase, addr), [value]) == old(regs)[Absolute(addrBase, addr) := value];
    }
  }

  /**
   * `_from_pyint`: a Python int as a `bitlength`-bit register field, adding
   * 2^bitlength to negative values and keeping the low bits.
   */
  function FromPyInt(v: int, bitlength: nat): (r: U32)
    requires 1 <= bitlength <= 32
    ensures r < Pow2(bitlength)
    ensures 0 <= v < Pow2(bitlength) ==> r == v
    ensures v < 0 <= v + Pow2(bitlength) ==> r == v + Pow2(bitlength)
  {
    Pow2Monotone(bitlength, 32);
    Pow2At32();
    var p := Pow2(bitlength);
    var w := if v < 0 then v + p else v;
    ModBelow(w, p);
    w % p
  }

  /**
   * `_to_pyint`: keeps the low `bitlength` bits and reads them as a two's
   * complement number.
   */
  function ToPyInt(v: int, bitlength: nat): (r: int)
    requires bitlength >= 1
    ensures r + Pow2(bitlength - 1) >= 0 && r < Pow2(bitlength - 1)
    ensures 0 <= v < Pow2(bitlength - 1) ==> r == v
    ensures Pow2(bitlength - 1) <= v < Pow2(bitlength) ==> r == v - Pow2(bitlength)
  {
    var h := Pow2(bitlength - 1);
    var p := Pow2(bitlength);
    assert p == 2 * h;
    var u := v % p;
    ModBelow(v, p);
    TopBit(u, h);
    if u / h != 0 then u - p else u
  }

  /** The two conversions are inverse on the signed range and on the unsigned field range. */
  lemma PyIntRoundTrip(v: int, u: int, bitlength: nat)
    requires 1 <= bitlength <= 32
    ensures v + Pow2(bitlength - 1) >= 0 && v < Pow2(bitlength - 1) ==>
      ToPyInt(FromPyInt(v, bitlength), bitlength) == v
    ensures 0 <= u < Pow2(bitlength) ==> FromPyInt(ToPyInt(u, bitlength), bitlength) == u
  {
  }
}
