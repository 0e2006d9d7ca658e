/**
 * The OpenLASIR pulse-timing encoder of the MicroPython port
 * (micropython/ir_tx/openlasir.py): an (address, data) pair becomes a train of
 * mark and space durations in microseconds, appended to the encoder's pulse
 * buffer; a repeat code replaces the buffer with a three-duration train.
 */
module Transmitter {
  import opened Bits

  /** `_TBURST`: every mark, and the space of a 0 bit. */
  const Burst: int := 563
  /** `_T_ONE`: the space of a 1 bit. */
  const One: int := 1687
  const HeaderMark: int := 9000
  const HeaderSpace: int := 4500
  const RepeatSpace: int := 2250

  /** The `valid` limits: an 8-bit address and 16-bit data. */
  const MaxAddr: int := 0xff
  const MaxData: int := 0xffff

  /** The pulse buffer holds 68 durations (the `asize` the encoder gives its base class). */
  const BufferSize: int := 68

  /** The two durations `_bit(b)` appends: a mark, then a long space when `b` is non-zero. */
  function Cell(b: int): (c: seq<int>)
    ensures |c| == 2 && c[0] == Burst
    ensures c[1] == One <==> b != 0
    ensures c[1] == Burst <==> b == 0
  {
    [Burst, if b != 0 then One else Burst]
  }

  /** The cells a `for _ in range(n)` loop emits for `x`: bit `k` in cell `k`, least significant first. */
  function Cells(x: int, n: nat): (r: seq<int>)
    ensures |r| == 2 * n
    decreases n
  {
    if n == 0 then [] else Cell(x % 2) + Cells(x / 2, n - 1)
  }

  /** Cell `k` is a mark followed by the space for bit `k` of `x`. */
  lemma {:induction false} CellsAt(x: int, n: nat, k: nat)
    requires k < n
    ensures Cells(x, n)[2 * k] == Burst
    ensures Cells(x, n)[2 * k + 1] == if Bit(x, k) == 1 then One else Burst
    decreases n
  {
    if k > 0 {
      CellsAt(x / 2, n - 1, k - 1);
      assert Cells(x, n)[2 * k] == Cells(x / 2, n - 1)[2 * (k - 1)];
      assert Cells(x, n)[2 * k + 1] == Cells(x / 2, n - 1)[2 * (k - 1) + 1];
    }
  }

  /** Only the low `n` bits of `x` reach the cells. */
  lemma {:induction false} CellsLowBits(x: int, n: nat)
    ensures Cells(x, n) == Cells(x % Pow2(n), n)
    decreases n
  {
    if n > 0 {
      ModPow2Half(x, n);
      CellsLowBits(x / 2, n - 1);
    }
  }

  /** The 16 address bits sent: the low byte of `addr`, then its complement. */
  function AddressWord(addr: int): (w: nat)
    ensures w < 0x1_0000
  {
    addr % 0x100 + 0x100 * (0xff - addr % 0x100)
  }

  /** `a | ((a ^ 0xff) << 8)` is that word. */
  lemma WidenValue(a: nat)
    requires a <= 0xff
    ensures Or(a, Xor(a, 0xff) * 0x100) == AddressWord(a)
  {
    var c := Xor(a, 0xff);
    XorByte(a);
    OrAboveByte(c, a);
    assert a % 0x100 == a;
  }

  /** The train `tx` sends for the 16-bit word `w` and the data: header, 32 bit cells, stop mark. */
  function Train(w: int, data: int): (t: seq<int>)
    ensures |t| == 67
    ensures t[0] == HeaderMark && t[1] == HeaderSpace && t[66] == Burst
  {
    [HeaderMark, HeaderSpace] + Cells(w, 16) + Cells(data, 16) + [Burst]
  }

  /** The durations `tx(addr, data)` appends: the train for the widened address and the data. */
  function DataFrame(addr: int, data: int): (f: seq<int>)
    ensures |f| == 67 && |f| <= BufferSize
    ensures f[0] == HeaderMark && f[1] == HeaderSpace && f[66] == Burst
  {
    Train(AddressWord(addr), data)
  }

  /** Position `2 + j` of a train laid out as header, `w`, `c`, stop mark. */
  lemma FrameLayout(w: seq<int>, c: seq<int>, j: nat)
    requires |w| == 32 && |c| == 32 && j < 64
    ensures ([HeaderMark, HeaderSpace] + w + c + [Burst])[2 + j] == if j < 32 then w[j] else c[j - 32]
  {
  }

  /** Bit cell `k < 16` of a train carries bit `k` of the word. */
  lemma TrainWordCell(w: int, data: int, k: nat)
    requires k < 16
    ensures Train(w, data)[2 + 2 * k] == Burst
    ensures Train(w, data)[3 + 2 * k] == if Bit(w, k) == 1 then One else Burst
  {
    var cw, cd := Cells(w, 16), Cells(data, 16);
    FrameLayout(cw, cd, 2 * k);
    FrameLayout(cw, cd, 2 * k + 1);
    CellsAt(w, 16, k);
  }

  /** Bit cell `16 + k` of a train carries bit `k` of the data. */
  lemma TrainDataCell(w: int, data: int, k: nat)
    requires k < 16
    ensures Train(w, data)[34 + 2 * k] == Burst
    ensures Train(w, data)[35 + 2 * k] == if Bit(data, k) == 1 then One else Burst
  {
    var cw, cd := Cells(w, 16), Cells(data, 16);
    FrameLayout(cw, cd, 32 + 2 * k);
    FrameLayout(cw, cd, 33 + 2 * k);
    CellsAt(data, 16, k);
  }

  /** Address cell `k` of the data train carries bit `k` of the widened address, least significant first. */
  lemma DataFrameAddressCell(addr: int, data: int, k: nat)
    requires k < 16
    ensures DataFrame(addr, data)[2 + 2 * k] == Burst
    ensures DataFrame(addr, data)[3 + 2 * k] == if Bit(AddressWord(addr), k) == 1 then One else Burst
  {
    TrainWordCell(AddressWord(addr), data, k);
  }

  /** Data cell `k` of the data train, which follows the 16 address cells, carries bit `k` of the data. */
  lemma DataFrameDataCell(addr: int, data: int, k: nat)
    requires k < 16
    ensures DataFrame(addr, data)[34 + 2 * k] == Burst
    ensures DataFrame(addr, data)[35 + 2 * k] == if Bit(data, k) == 1 then One else Burst
  {
    TrainDataCell(AddressWord(addr), data, k);
  }

  /** Neither an address above 8 bits nor data above 16 bits changes the train. */
  lemma DataFrameLowBits(addr: int, data: int)
    ensures DataFrame(addr, data) == DataFrame(addr % 0x100, data % 0x1_0000)
  {
    CellsLowBits(data, 16);
    Pow2Constants();
    var low := data % 0x1_0000;
    assert data % Pow2(16) == low;
    ModIdempotent(addr, 0x100);
    assert AddressWord(addr % 0x100) == AddressWord(addr);
  }

  /** The three durations `repeat()` leaves in the buffer. */
  function RepeatFrame(): (f: seq<int>)
    ensures |f| == 3 && f[0] == HeaderMark && f[1] == RepeatSpace && f[2] == Burst
  {
    [HeaderMark, RepeatSpace, Burst]
  }

  /** Emitting the next cell leaves the rest of the train to follow. */
  lemma CellsPeel(p: seq<int>, x: int, n: nat)
    requires n > 0
    ensures p + Cell(x % 2) + Cells(x / 2, n - 1) == p + Cells(x, n)
  {
    assert Cells(x, n) == Cell(x % 2) + Cells(x / 2, n - 1);
  }

  lemma Regroup(p: seq<int>, q: seq<int>, r: seq<int>, s: seq<int>, t: seq<int>)
    ensures p + q + r + s + t == p + (q + r + s + t)
  {
  }

  /** The encoder object; `pulses` is the buffer up to its append pointer `aptr`. */
  class Encoder {
    var pulses: seq<int>

    constructor ()
      ensures pulses == []
    {
      pulses := [];
    }

    /** `_bit(b)` */
    method AppendBit(b: int)
      modifies this
      ensures pulses == old(pulses) + Cell(b)
    {
      pulses := pulses + [Burst, if b != 0 then One else Burst];
    }

    /**
     * The `for _ in range(16)` loop both halves of `tx` run: send the low bit
     * of `x`, then shift it out.
     */
    method SendWord(x: int)
      modifies this
      ensures pulses == old(pulses) + Cells(x, 16)
    {
      var v := x;
      for i := 0 to 16
        invariant pulses + Cells(v, 16 - i) == old(pulses) + Cells(x, 16)
      {
        ghost var p, w, n := pulses, v, 16 - i;
        CellsPeel(p, w, n);
        AppendBit(v % 2);
        v := v / 2;
        assert pulses == p + Cell(w % 2) && v == w / 2;
      }
      assert Cells(v, 0) == [];
    }

    /** `tx(addr, data, _)`: the toggle argument is ignored. */
    method Tx(addr: int, data: int)
      modifies this
      ensures pulses == old(pulses) + DataFrame(addr, data)
    {
      pulses := pulses + [HeaderMark, HeaderSpace];
      var a: nat := addr % 0x100;
      WidenValue(a);
      assert AddressWord(a) == AddressWord(addr);
      a := Or(a, Xor(a, 0xff) * 0x100);
      SendWord(a);
      SendWord(data);
      pulses := pulses + [Burst];
      Regroup(old(pulses), [HeaderMark, HeaderSpace], Cells(a, 16), Cells(data, 16), [Burst]);
      assert Train(a, data) == DataFrame(addr, data);
    }

    /** `repeat()`: reset the append pointer, then append the repeat code. */
    method Repeat()
      modifies this
      ensures pulses == RepeatFrame()
    {
      pulses := [];
      pulses := pulses + [HeaderMark, RepeatSpace, Burst];
    }
  }
}
