/**
 * The encoder and decoder of the MicroPython port put together: a pulse
 * train played from some tick count produces the edge timestamps the
 * decoder captures, and what the decoder makes of them is what the encoder
 * was given.
 */
module Link {
  import opened Bits
  import opened Receiver
  import opened Transmitter

  /**
   * The `ticks_us()` readings at the edges of a train of durations `ds`
   * whose first edge comes at tick `t`: one more edge than durations.
   */
  function Stamps(t: int, ds: seq<int>): (ts: seq<int>)
    ensures |ts| == |ds| + 1
    decreases |ds|
  {
    [t % TicksPeriod] + (if ds == [] then [] else Stamps(t + ds[0], ds[1..]))
  }

  /** `ticks_diff` recovers a duration under half the period across a wrap of the counter. */
  lemma WrapGap(u: int, d: int)
    requires 0 <= d < TicksPeriod / 2
    ensures TicksDiff((u + d) % TicksPeriod, u % TicksPeriod) == d
  {
    var p, h := TicksPeriod, TicksPeriod / 2;
    var a, b := u % p, (u + d) % p;
    var q := u / p - (u + d) / p;
    assert b - a + h == q * p + (d + h);
    DivModUnique(b - a + h, p, q, d + h);
  }

  /** Between consecutive edges the decoder measures the duration played there. */
  lemma {:induction false} StampsGap(t: int, ds: seq<int>, k: nat)
    requires k < |ds| && 0 <= ds[k] < TicksPeriod / 2
    ensures Gap(Stamps(t, ds), k) == ds[k]
    decreases k
  {
    var ts := Stamps(t, ds);
    var rest := Stamps(t + ds[0], ds[1..]);
    assert ts == [t % TicksPeriod] + rest;
    if k == 0 {
      WrapGap(t, ds[0]);
    } else {
      StampsGap(t + ds[0], ds[1..], k - 1);
      assert ts[k] == rest[k - 1] && ts[k + 1] == rest[k];
    }
  }

  /** Stale entries after the captured edges do not change any gap among them. */
  lemma GapPrefix(ts: seq<int>, stale: seq<int>, k: nat)
    requires k + 1 < |ts|
    ensures Gap(ts + stale, k) == Gap(ts, k)
  {
    assert (ts + stale)[k] == ts[k] && (ts + stale)[k + 1] == ts[k + 1];
  }

  /** The space bits of a received data train are the bits of the widened address, then those of the data. */
  lemma FrameSpaceBits(t: int, addr: int, data: int)
    ensures SpaceBits(Stamps(t, DataFrame(addr, data))) == BitsOf(AddressWord(addr), 16) + BitsOf(data, 16)
  {
    var ts := Stamps(t, DataFrame(addr, data));
    var bs := SpaceBits(ts);
    var want := BitsOf(AddressWord(addr), 16) + BitsOf(data, 16);
    forall i | 0 <= i < 32
      ensures bs[i] == want[i]
    {
      if i < 16 {
        DataFrameAddressCell(addr, data, i);
        BitsOfAt(AddressWord(addr), 16, i);
      } else {
        DataFrameDataCell(addr, data, i - 16);
        BitsOfAt(data, 16, i - 16);
      }
      StampsGap(t, DataFrame(addr, data), 3 + 2 * i);
    }
  }

  /** The value a received data train carries: the widened address in the low half, the data in the high half. */
  lemma FrameValue(t: int, addr: int, data: int)
    ensures Value(Stamps(t, DataFrame(addr, data))) == AddressWord(addr) + 0x1_0000 * (data % 0x1_0000)
  {
    Pow2Constants();
    var w := AddressWord(addr);
    FrameSpaceBits(t, addr, data);
    WordAppend(BitsOf(w, 16), BitsOf(data, 16));
    WordBitsOf(w, 16);
    WordBitsOf(data, 16);
    DivModUnique(w, Pow2(16), 0, w);
    var low := data % 0x1_0000;
    assert data % Pow2(16) == low;
  }

  /**
   * A data train sent by `tx(addr, data)` and captured whole is classified as
   * a frame carrying the low byte of the address and the low 16 bits of the
   * data.
   */
  lemma FrameRoundTrip(t: int, addr: int, data: int)
    ensures |Stamps(t, DataFrame(addr, data))| == Edges
    ensures Classify(Stamps(t, DataFrame(addr, data)), Edges) == Frame(addr % 0x100, data % 0x1_0000)
  {
    var f := DataFrame(addr, data);
    var ts := Stamps(t, f);
    StampsGap(t, f, 0);
    StampsGap(t, f, 1);
    var a, d := addr % 0x100, data % 0x1_0000;
    FrameValue(t, addr, data);
    FrameWordFields(Value(ts), a, d);
  }

  /** The fields of a frame word: the address byte, its complement, the data. */
  lemma FrameWordFields(val: int, a: int, d: int)
    requires 0 <= a < 0x100 && 0 <= d < 0x1_0000 && val == a + 0x100 * (0xff - a) + 0x1_0000 * d
    ensures val % 0x100 == a && (val / 0x100) % 0x100 == 0xff - a && (val / 0x1_0000) % 0x1_0000 == d
  {
    ByteFields(a, 0xff - a, d);
  }

  /**
   * A repeat code captured by the decoder, whatever stale timestamps the
   * capture buffer still holds after its four edges, is classified as a
   * repeat.
   */
  lemma RepeatRoundTrip(t: int, stale: seq<int>)
    requires |stale| >= 63
    ensures Classify(Stamps(t, RepeatFrame()) + stale, |RepeatFrame()| + 1) == Signal(Repeat)
  {
    var ts := Stamps(t, RepeatFrame());
    StampsGap(t, RepeatFrame(), 0);
    StampsGap(t, RepeatFrame(), 1);
    GapPrefix(ts, stale, 0);
    GapPrefix(ts, stale, 1);
  }

  /** The encoder sends a data frame from an empty buffer and the decoder, given its timestamps, receives it. */
  method SendFrame(tx: Encoder, rx: Decoder, addr: int, data: int, t: int) returns (got: CallbackData, gotAddr: int)
    requires tx.pulses == []
    modifies tx, rx
    ensures got == Cmd(data % 0x1_0000) && gotAddr == addr % 0x100
    ensures rx.lastAddr == addr % 0x100
    ensures tx.pulses == DataFrame(addr, data)
  {
    tx.Tx(addr, data);
    assert tx.pulses == DataFrame(addr, data);
    var times := Stamps(t, tx.pulses);
    FrameRoundTrip(t, addr, data);
    assert Classify(times, |times|) == Frame(addr % 0x100, data % 0x1_0000);
    got, gotAddr := rx.Decode(times, |times|);
  }

  /** The encoder sends a repeat code and the decoder answers it with the address it remembers. */
  method SendRepeat(tx: Encoder, rx: Decoder, t: int, stale: seq<int>) returns (got: CallbackData, gotAddr: int)
    requires |stale| >= 63
    modifies tx, rx
    ensures got == ErrorCode(Repeat) && gotAddr == old(rx.lastAddr)
    ensures rx.lastAddr == old(rx.lastAddr)
    ensures tx.pulses == RepeatFrame()
  {
    tx.Repeat();
    var times := Stamps(t, tx.pulses) + stale;
    RepeatRoundTrip(t, stale);
    assert Classify(times, |tx.pulses| + 1) == Signal(Repeat);
    got, gotAddr := rx.Decode(times, |tx.pulses| + 1);
  }

  /**
   * One exchange between a fresh encoder and a fresh decoder: a data frame,
   * then a repeat code. The callback first receives the data and the
   * address, then REPEAT with the remembered address.
   */
  method ExchangeThenRepeat(addr: int, data: int, t1: int, t2: int, stale: seq<int>)
    returns (first: CallbackData, firstAddr: int, second: CallbackData, secondAddr: int)
    requires |stale| >= 63
    ensures first == Cmd(data % 0x1_0000) && firstAddr == addr % 0x100
    ensures second == ErrorCode(Repeat) && secondAddr == addr % 0x100
  {
    var tx := new Encoder();
    var rx := new Decoder();
    first, firstAddr := SendFrame(tx, rx, addr, data, t1);
    second, secondAddr := SendRepeat(tx, rx, t2, stale);
  }
}
