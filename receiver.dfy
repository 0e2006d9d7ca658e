/**
 * The OpenLASIR pulse-timing decoder of the MicroPython port
 * (micropython/ir_rx/openlasir.py): one captured burst of edge timestamps
 * is classified as a frame (address, command), a repeat code, or an error,
 * and the last good address is remembered to answer repeat codes.
 */
module Receiver {
  import opened Bits

  /** `ticks_us()` counts modulo this period; MicroPython's ticks period on 32-bit ports is 2^30. */
  const TicksPeriod: int := 0x4000_0000

  /** MicroPython's `ticks_diff(end, start)`: the signed difference of two tick values, wrapping at the period. */
  function TicksDiff(end: int, start: int): (d: int)
    ensures -TicksPeriod / 2 <= d < TicksPeriod / 2
    ensures -TicksPeriod / 2 <= end - start < TicksPeriod / 2 ==> d == end - start
  {
    (end - start + TicksPeriod / 2) % TicksPeriod - TicksPeriod / 2
  }

  /** A full data burst has 68 edges (the `nedges` the decoder gives its capture base class). */
  const Edges: int := 68

  /** The error and repeat constants of the capture base class. */
  datatype Code = Repeat | BadStart | BadBlock | BadRep | Overrun | BadAddr

  /** The classification of one burst. */
  datatype Burst = Frame(addr: int, cmd: int) | Signal(code: Code)

  /** The first argument of the user callback: the command, or the error constant that replaces it. */
  datatype CallbackData = Cmd(value: int) | ErrorCode(code: Code)

  /** The time from edge `k` to edge `k + 1`. */
  function Gap(times: seq<int>, k: nat): (g: int)
    requires k + 1 < |times|
    ensures -TicksPeriod / 2 <= g < TicksPeriod / 2
    ensures -TicksPeriod / 2 <= times[k + 1] - times[k] < TicksPeriod / 2 ==> g == times[k + 1] - times[k]
  {
    TicksDiff(times[k + 1], times[k])
  }

  /** Whether the space after edge `3 + 2i` is long (over 1120 us), i.e. data bit `i` is 1. */
  function SpaceBits(times: seq<int>): (bs: seq<bool>)
    requires |times| > 66
    ensures |bs| == 32
    ensures forall i :: 0 <= i < 32 ==> bs[i] == (Gap(times, 3 + 2 * i) > 1120)
  {
    seq(32, i requires 0 <= i < 32 => Gap(times, 3 + 2 * i) > 1120)
  }

  /** The 32-bit value a full burst carries, the first bit read being the least significant. */
  function Value(times: seq<int>): (v: nat)
    requires |times| > 66
    ensures v < 0x1_0000_0000
  {
    WordBound(SpaceBits(times));
    Pow2Constants();
    Pow2Add(16, 16);
    Word(SpaceBits(times))
  }

  /** The complement check on the address: `val & 0xff == ((val >> 8) ^ 0xff) & 0xff`. */
  predicate AddressValid(val: nat): (b: bool)
    ensures b <==> val % 0x100 + (val / 0x100) % 0x100 == 0xff
  {
    XorLowByte(val / 0x100);
    val % 0x100 == Xor(val / 0x100, 0xff) % 0x100
  }

  /** The decoder's classification of a burst of `edge` edges captured in `times`. */
  function Classify(times: seq<int>, edge: int): (r: Burst)
    requires |times| > 66
    ensures r == Signal(Overrun) <==> edge > Edges
    ensures r == Signal(Repeat) <==> edge == 4 && Gap(times, 0) >= 4000 && 1700 < Gap(times, 1) <= 3000
    ensures r == Signal(BadBlock) <==> edge < Edges && Gap(times, 0) >= 4000 && Gap(times, 1) > 3000
    ensures r == Signal(BadStart) <==> edge <= Edges && (Gap(times, 0) < 4000 || Gap(times, 1) <= 1700)
    ensures r == Signal(BadRep) <==> edge <= Edges && edge != 4 && Gap(times, 0) >= 4000 && 1700 < Gap(times, 1) <= 3000
    ensures r == Signal(BadAddr) <==> edge == Edges && Gap(times, 0) >= 4000 && Gap(times, 1) > 3000 && !AddressValid(Value(times))
    ensures r.Frame? <==> edge == Edges && Gap(times, 0) >= 4000 && Gap(times, 1) > 3000 && AddressValid(Value(times))
    ensures r.Frame? ==> 0 <= r.addr < 0x100 && 0 <= r.cmd < 0x1_0000
  {
    if edge > Edges then Signal(Overrun)
    else if Gap(times, 0) < 4000 then Signal(BadStart)
    else if Gap(times, 1) > 3000 then
      if edge < Edges then Signal(BadBlock)
      else
        var val := Value(times);
        if !AddressValid(val) then Signal(BadAddr)
        else Frame(val % 0x100, (val / 0x1_0000) % 0x1_0000)
    else if Gap(times, 1) > 1700 then Signal(if edge == 4 then Repeat else BadRep)
    else Signal(BadStart)
  }

  /** Two words of `n` digits that add up to `2^n - 1` differ in every digit. */
  lemma {:induction false} WordComplement(s: seq<bool>, t: seq<bool>)
    requires |s| == |t| && Word(s) + Word(t) == Pow2(|s|) - 1
    ensures forall i :: 0 <= i < |s| ==> s[i] != t[i]
  {
    if s != [] {
      WordComplement(s[1..], t[1..]);
      forall i | 0 <= i < |s|
        ensures s[i] != t[i]
      {
        if i > 0 {
          assert s[i] == s[1..][i - 1] && t[i] == t[1..][i - 1];
        }
      }
    }
  }

  /** The three bytes of the space bits: address, address check, and the 16-bit command. */
  lemma ValueSplit(times: seq<int>)
    requires |times| > 66
    ensures var bs := SpaceBits(times);
      var val := Value(times);
      && val % 0x100 == Word(bs[..8])
      && (val / 0x100) % 0x100 == Word(bs[8..16])
      && (val / 0x1_0000) % 0x1_0000 == Word(bs[16..])
  {
    Pow2Constants();
    var bs := SpaceBits(times);
    var a, c, d := Word(bs[..8]), Word(bs[8..16]), Word(bs[16..]);
    WordSplit(bs);
    WordBound(bs[..8]);
    WordBound(bs[8..16]);
    WordBound(bs[16..]);
    ByteFields(a, c, d);
  }

  /** What an accepted frame carries: the low byte of the value, whose check passed, and its top 16 bits. */
  lemma FrameFields(times: seq<int>, edge: int)
    requires |times| > 66 && Classify(times, edge).Frame?
    ensures var val := Value(times);
      && AddressValid(val)
      && Classify(times, edge) == Frame(val % 0x100, (val / 0x1_0000) % 0x1_0000)
  {
  }

  /** Digit `i` of the first byte, read as a bit, and its opposite in the second byte when the two complement each other. */
  lemma ComplementBits(bs: seq<bool>, i: nat)
    requires |bs| == 32 && Word(bs[..8]) + Word(bs[8..16]) == 0xff && i < 8
    ensures Bit(Word(bs[..8]), i) == 1 <==> bs[i]
    ensures Bit(Word(bs[..8]), i) == 1 <==> !bs[8 + i]
  {
    Pow2Constants();
    BitOfWord(bs[..8], i);
    WordComplement(bs[..8], bs[8..16]);
    assert bs[..8][i] == bs[i] && bs[8..16][i] == bs[8 + i];
  }

  /** When the check passes, address bit `i` is the space bit after edge `3 + 2i`, and its check bit the opposite. */
  lemma AddressBits(times: seq<int>, i: nat)
    requires |times| > 66 && AddressValid(Value(times)) && i < 8
    ensures Bit(Value(times) % 0x100, i) == 1 <==> Gap(times, 3 + 2 * i) > 1120
    ensures Bit(Value(times) % 0x100, i) == 1 <==> Gap(times, 19 + 2 * i) <= 1120
  {
    var bs := SpaceBits(times);
    ValueSplit(times);
    ComplementBits(bs, i);
    var j := 8 + i;
    assert bs[j] == (Gap(times, 3 + 2 * j) > 1120);
    assert 3 + 2 * j == 19 + 2 * i;
  }

  /** Bit `i` of the top 16 bits of the value is the space bit after edge `35 + 2i`. */
  lemma CommandBits(times: seq<int>, i: nat)
    requires |times| > 66 && i < 16
    ensures Bit((Value(times) / 0x1_0000) % 0x1_0000, i) == 1 <==> Gap(times, 35 + 2 * i) > 1120
  {
    var bs := SpaceBits(times);
    ValueSplit(times);
    BitOfWord(bs[16..], i);
    assert bs[16..][i] == bs[16 + i];
  }

  /**
   * In an accepted frame, address bit `i` is 1 exactly when the space after
   * edge `3 + 2i` is long, and the space after edge `19 + 2i`, its check
   * bit, is then short.
   */
  lemma FrameAddressBits(times: seq<int>, edge: int, i: nat)
    requires |times| > 66 && Classify(times, edge).Frame? && i < 8
    ensures Bit(Classify(times, edge).addr, i) == 1 <==> Gap(times, 3 + 2 * i) > 1120
    ensures Bit(Classify(times, edge).addr, i) == 1 <==> Gap(times, 19 + 2 * i) <= 1120
  {
    FrameFields(times, edge);
    AddressBits(times, i);
  }

  /** In an accepted frame, command bit `i` is 1 exactly when the space after edge `35 + 2i` is long. */
  lemma FrameCommandBits(times: seq<int>, edge: int, i: nat)
    requires |times| > 66 && Classify(times, edge).Frame? && i < 16
    ensures Bit(Classify(times, edge).cmd, i) == 1 <==> Gap(times, 35 + 2 * i) > 1120
  {
    FrameFields(times, edge);
    CommandBits(times, i);
  }

  /** `val |= 0x80000000` sets the top bit of a value below it. */
  lemma OrTopBit(v: nat)
    requires v < 0x8000_0000
    ensures Or(v, 0x8000_0000) == v + 0x8000_0000
  {
    Pow2Constants();
    OrDisjoint(1, v, 31);
    OrComm(v, 0x8000_0000);
  }

  /** The arithmetic of one turn of the bit loop, with `p * q == 2^31` and `w < q`. */
  lemma ShiftArith(w: nat, p: nat, q: nat, b: nat)
    requires w < q && p >= 1 && p * q == 0x8000_0000
    ensures (w * (2 * p)) / 2 == w * p
    ensures w * p < 0x8000_0000
    ensures (w + q * b) * p == w * p + b * 0x8000_0000
  {
    assert w * (2 * p) == 2 * (w * p);
    assert (q - w) * p >= p by { MulAtLeast(q - w, p); }
    assert (w + q * b) * p == w * p + b * (q * p);
  }

  /** One turn of the bit loop: shift the accumulator right and put the new bit on top. */
  lemma AccumulateStep(bs: seq<bool>, j: nat)
    requires j < 32 && |bs| == 32
    ensures (Word(bs[..j]) * Pow2(32 - j)) / 2 == Word(bs[..j]) * Pow2(31 - j)
    ensures Word(bs[..j]) * Pow2(31 - j) < 0x8000_0000
    ensures Word(bs[..j + 1]) * Pow2(31 - j) == Word(bs[..j]) * Pow2(31 - j) + (if bs[j] then 0x8000_0000 else 0)
  {
    Pow2Constants();
    var w, p := Word(bs[..j]), Pow2(31 - j);
    assert Pow2(32 - j) == 2 * p;
    WordBound(bs[..j]);
    Pow2Add(31 - j, j);
    var b := if bs[j] then 1 else 0;
    ShiftArith(w, p, Pow2(j), b);
    assert bs[..j + 1] == bs[..j] + [bs[j]];
    WordAppend(bs[..j], [bs[j]]);
    assert Word([bs[j]]) == b;
  }

  /** The accumulator after `j` turns: the first `j` space bits, shifted up to the top. */
  ghost function Accumulated(times: seq<int>, j: nat): nat
    requires |times| > 66 && j <= 32
  {
    Word(SpaceBits(times)[..j]) * Pow2(32 - j)
  }

  /** After all 32 turns the accumulator holds the value. */
  lemma AccumulatedAll(times: seq<int>)
    requires |times| > 66
    ensures Accumulated(times, 32) == Value(times)
  {
    assert SpaceBits(times)[..32] == SpaceBits(times);
  }

  /** One turn of the bit loop: shift right, then set the top bit when the space is long. */
  lemma ReadStep(times: seq<int>, j: nat, val: nat)
    requires |times| > 66 && j < 32 && val == Accumulated(times, j)
    ensures val / 2 < 0x8000_0000
    ensures var next := if Gap(times, 3 + 2 * j) > 1120 then Or(val / 2, 0x8000_0000) else val / 2;
      next == Accumulated(times, j + 1)
  {
    var bs := SpaceBits(times);
    AccumulateStep(bs, j);
    if bs[j] {
      OrTopBit(val / 2);
    }
  }

  /** The bit loop of `decode`: 32 turns over edges 3, 5, ..., 65. */
  method ReadValue(times: seq<int>) returns (val: nat)
    requires |times| > 66
    ensures val == Value(times)
  {
    val := 0;
    ghost var j := 0;
    var edge := 3;
    while edge < Edges - 2
      invariant 0 <= j <= 32 && edge == 3 + 2 * j
      invariant val == Accumulated(times, j)
    {
      ReadStep(times, j, val);
      val := val / 2;
      if Gap(times, edge) > 1120 {
        val := Or(val, 0x8000_0000);
      }
      edge := edge + 2;
      j := j + 1;
    }
    AccumulatedAll(times);
  }

  /** The decoder object; its one piece of state is the last address it accepted. */
  class Decoder {
    var lastAddr: int

    constructor ()
      ensures lastAddr == 0
    {
      lastAddr := 0;
    }

    /**
     * `decode`: classify the burst and return what the callback receives.
     * A frame reports its command and address and becomes the last address;
     * a repeat code reports the last address; every error reports address 0.
     */
    method Decode(times: seq<int>, edge: int) returns (data: CallbackData, addr: int)
      requires |times| > 66
      modifies this
      ensures var b := Classify(times, edge);
        b.Frame? ==> data == Cmd(b.cmd) && addr == b.addr && lastAddr == b.addr
      ensures var b := Classify(times, edge);
        b.Signal? ==>
          && data == ErrorCode(b.code)
          && addr == (if b.code == Repeat then old(lastAddr) else 0)
          && lastAddr == old(lastAddr)
    {
      var failed := true;
      var code := BadStart;
      var cmd := 0;
      var a := 0;
      if edge > Edges {
        code := Overrun;
      } else if Gap(times, 0) < 4000 {
        code := BadStart;
      } else {
        var width := Gap(times, 1);
        if width > 3000 {
          if edge < Edges {
            code := BadBlock;
          } else {
            var val := ReadValue(times);
            a := val % 0x100;
            if a != Xor(val / 0x100, 0xff) % 0x100 {
              code := BadAddr;
            } else {
              cmd := (val / 0x1_0000) % 0x1_0000;
              lastAddr := a;
              failed := false;
            }
          }
        } else if width > 1700 {
          code := if edge == 4 then Repeat else BadRep;
        } else {
          code := BadStart;
        }
      }
      if failed {
        data := ErrorCode(code);
        addr := if code == Repeat then lastAddr else 0;
      } else {
        data := Cmd(cmd);
        addr := a;
      }
    }
  }
}
