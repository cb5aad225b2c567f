/** The write side of the testbench memory (`write_monitor`, identical in both
    burst-master testbenches). The engine holds `wm_address` at the burst's
    start address for the whole burst and raises `wm_write` once per beat, so
    the slave rebuilds per-beat addresses itself: it latches the address on the
    first beat and stores beat k at that address plus 4*k. */
module BurstWrite {
  import opened Bus

  /** The memory and the monitor's loop state `burst_cnt` / `active_addr`. */
  datatype WriteSide = WriteSide(mem: Memory, burstCnt: nat, activeAddr: nat)

  /** The write-master signals sampled at one rising edge. */
  datatype WriteBeat = WriteBeat(write: Sample, address: Sample, data: Sample, burstCount: Sample)

  predicate Resolved(b: WriteBeat)
  {
    b.address.Bits? && b.data.Bits? && b.burstCount.Bits?
  }

  /** What a raising write edge leaves behind: the error, and the memory as
      it stands when the monitor raises. */
  datatype WriteFault = WriteFault(error: BusError, mem: Memory)

  /** A raising edge has already stored its word exactly when it is a
      mid-burst beat whose address and data converted: only the burst count,
      converted after the store, was unresolved. */
  predicate StoresBeforeRaising(s: WriteSide, b: WriteBeat)
  {
    High(b.write) && s.burstCnt != 0 && b.address.Bits? && b.data.Bits?
  }

  /** One rising edge of `write_monitor`. */
  function WriteCycle(s: WriteSide, b: WriteBeat): (r: Result<WriteSide, WriteFault>)
    // an edge without a write beat changes neither the memory nor the burst tracking
    ensures b.write.Bits? && !High(b.write) ==> r == Ok(s)
    // comparing an X or Z strobe raises before anything is stored
    ensures b.write.Unresolved? ==> r == Err(WriteFault(UnresolvedWriteBeat, s.mem))
    // a write beat fails exactly when one of the signals it converts holds X or Z
    ensures High(b.write) ==> (r.Ok? <==> Resolved(b))
    // the sampled address is latched on the first beat and ignored on later ones
    ensures r.Ok? && High(b.write) && s.burstCnt == 0 ==> r.value.activeAddr == b.address.value
    ensures r.Ok? && High(b.write) && s.burstCnt != 0 ==> r.value.activeAddr == s.activeAddr
    // beat k lands at the latched address plus 4*k; no other entry changes
    ensures r.Ok? && High(b.write) ==>
      r.value.mem == s.mem[BeatAddress(r.value.activeAddr, s.burstCnt) := b.data.value]
    // the beat counter wraps to 0 exactly when it reaches the sampled burst count
    ensures r.Ok? && High(b.write) ==>
      (r.value.burstCnt == 0 <==> s.burstCnt + 1 >= b.burstCount.value) &&
      (r.value.burstCnt != 0 ==> r.value.burstCnt == s.burstCnt + 1)
    ensures r.Ok? && High(b.write) && b.burstCount.value >= 1 ==> r.value.burstCnt < b.burstCount.value
    // a raising mid-burst beat has already stored its word; any other raising edge stores nothing
    ensures r.Err? ==> r.error.error == UnresolvedWriteBeat
    ensures r.Err? && StoresBeforeRaising(s, b) ==>
      r.error.mem == s.mem[BeatAddress(s.activeAddr, s.burstCnt) := b.data.value]
    ensures r.Err? && !StoresBeforeRaising(s, b) ==> r.error.mem == s.mem
  {
    if b.write.Unresolved? then Err(WriteFault(UnresolvedWriteBeat, s.mem))
    else if !High(b.write) then Ok(s)
    else if !(b.address.Bits? && b.data.Bits?) then Err(WriteFault(UnresolvedWriteBeat, s.mem))
    else if s.burstCnt == 0 && !b.burstCount.Bits? then Err(WriteFault(UnresolvedWriteBeat, s.mem))
    else
      var active := if s.burstCnt == 0 then b.address.value else s.activeAddr;
      var stored := s.mem[BeatAddress(active, s.burstCnt) := b.data.value];
      if !b.burstCount.Bits? then Err(WriteFault(UnresolvedWriteBeat, stored))
      else
        var next := s.burstCnt + 1;
        Ok(WriteSide(stored, if next >= b.burstCount.value then 0 else next, active))
  }

  /** Edge after edge; the first failing edge ends the run. */
  function RunWrites(s: WriteSide, beats: seq<WriteBeat>): Result<WriteSide, WriteFault>
    decreases |beats|
  {
    if beats == [] then Ok(s)
    else match WriteCycle(s, beats[0])
      case Err(e) => Err(e)
      case Ok(s') => RunWrites(s', beats[1..])
  }

  lemma {:induction false} RunWritesAppend(s: WriteSide, x: seq<WriteBeat>, y: seq<WriteBeat>)
    ensures RunWrites(s, x + y) ==
      match RunWrites(s, x)
      case Err(e) => Err(e)
      case Ok(s') => RunWrites(s', y)
    decreases |x|
  {
    if x == [] {
      assert x + y == y;
    } else {
      assert (x + y)[0] == x[0];
      assert (x + y)[1..] == x[1..] + y;
      match WriteCycle(s, x[0])
      case Err(e) =>
      case Ok(s') => RunWritesAppend(s', x[1..], y);
    }
  }

  /** Every beat is a resolved write beat (strobe 1) announcing burst count `count`. */
  predicate BurstOf(beats: seq<WriteBeat>, count: nat)
  {
    forall k :: 0 <= k < |beats| ==> High(beats[k].write) && Resolved(beats[k]) && beats[k].burstCount.value == count
  }

  /** The data words the beats carry. */
  function Data(beats: seq<WriteBeat>): seq<nat>
    requires forall k :: 0 <= k < |beats| ==> beats[k].data.Bits?
  {
    seq(|beats|, (k: nat) requires k < |beats| => beats[k].data.value)
  }

  /** With a constant burst count of at least 1 the beat counter never leaves
      [0, count), whatever mix of write and idle edges arrives. */
  lemma {:induction false} CounterStaysInBurst(s: WriteSide, beats: seq<WriteBeat>, count: nat)
    requires 1 <= count && s.burstCnt < count
    requires forall k :: 0 <= k < |beats| ==> beats[k].burstCount == Bits(count)
    ensures RunWrites(s, beats).Ok? ==> RunWrites(s, beats).value.burstCnt < count
    decreases |beats|
  {
    if beats != [] {
      match WriteCycle(s, beats[0])
      case Err(_) =>
      case Ok(s') => CounterStaysInBurst(s', beats[1..], count);
    }
  }

  /** The rest of a burst that is already under way: whatever addresses the
      remaining beats carry, their words go to consecutive words after the
      latched address, and the counter wraps to 0 exactly when the burst is
      complete. */
  lemma {:induction false} ContinueBurst(s: WriteSide, beats: seq<WriteBeat>, count: nat)
    requires 1 <= s.burstCnt < count && s.burstCnt + |beats| <= count
    requires BurstOf(beats, count)
    ensures RunWrites(s, beats) ==
      Ok(WriteSide(StoreWords(s.mem, BeatAddress(s.activeAddr, s.burstCnt), Data(beats)),
                   if s.burstCnt + |beats| == count then 0 else s.burstCnt + |beats|,
                   s.activeAddr))
    decreases |beats|
  {
    if beats != [] {
      var s' := WriteCycle(s, beats[0]).value;
      assert Data(beats)[0] == beats[0].data.value;
      assert Data(beats)[1..] == Data(beats[1..]);
      if |beats| == 1 {
        assert beats[1..] == [];
      } else {
        assert s'.burstCnt == s.burstCnt + 1;
        assert BeatAddress(s.activeAddr, s.burstCnt) + WordBytes == BeatAddress(s.activeAddr, s.burstCnt + 1);
        ContinueBurst(s', beats[1..], count);
      }
    }
  }

  /** A burst written from an idle monitor (counter 0): the first beat's
      address is the base, beat k lands at base + 4*k, later beats' addresses
      are ignored, and after `count` beats the monitor is ready for the next
      burst. A shorter run leaves the counter at the number of beats seen. */
  lemma {:induction false} WholeBurst(s: WriteSide, beats: seq<WriteBeat>, count: nat)
    requires s.burstCnt == 0 && 1 <= |beats| <= count
    requires BurstOf(beats, count)
    ensures RunWrites(s, beats) ==
      Ok(WriteSide(StoreWords(s.mem, beats[0].address.value, Data(beats)),
                   if |beats| == count then 0 else |beats|,
                   beats[0].address.value))
  {
    var base := beats[0].address.value;
    var s' := WriteCycle(s, beats[0]).value;
    assert s'.mem == s.mem[base := beats[0].data.value];
    assert Data(beats)[0] == beats[0].data.value;
    assert Data(beats)[1..] == Data(beats[1..]);
    if |beats| == 1 {
      assert beats[1..] == [];
      assert Data(beats)[1..] == [];
    } else {
      assert s' == WriteSide(s.mem[base := beats[0].data.value], 1, base);
      ContinueBurst(s', beats[1..], count);
    }
  }

  /** The beats of one burst as the engine drives them: `wm_write` high once
      per word, the address held at the burst's start. */
  function BurstBeats(address: nat, count: nat, words: seq<nat>): (r: seq<WriteBeat>)
    ensures |r| == |words| && BurstOf(r, count) && Data(r) == words
    ensures r != [] ==> r[0].address == Bits(address)
  {
    seq(|words|, (k: nat) requires k < |words| => WriteBeat(Bits(1), Bits(address), Bits(words[k]), Bits(count)))
  }

  /** A whole transfer as the engine drives it: `words` cut into bursts of
      `count` words (the last one possibly shorter), burst j addressed at
      `dst + 4*count*j`. */
  function MasterWrites(dst: nat, count: nat, words: seq<nat>): seq<WriteBeat>
    requires count >= 1
    decreases |words|
  {
    if |words| <= count then BurstBeats(dst, count, words)
    else BurstBeats(dst, count, words[..count]) + MasterWrites(BeatAddress(dst, count), count, words[count..])
  }

  /** Burst-start addressing reassembles the transfer: from an idle monitor,
      the engine's bursts leave the words at consecutive destination words. */
  lemma {:induction false} TransferReassembled(mem: Memory, active: nat, dst: nat, count: nat, words: seq<nat>)
    requires count >= 1
    ensures RunWrites(WriteSide(mem, 0, active), MasterWrites(dst, count, words)).Ok?
    ensures RunWrites(WriteSide(mem, 0, active), MasterWrites(dst, count, words)).value.mem == StoreWords(mem, dst, words)
    decreases |words|
  {
    var s := WriteSide(mem, 0, active);
    if |words| <= count {
      if words == [] {
        assert MasterWrites(dst, count, words) == [];
      } else {
        WholeBurst(s, BurstBeats(dst, count, words), count);
      }
    } else {
      var head := BurstBeats(dst, count, words[..count]);
      WholeBurst(s, head, count);
      var s' := RunWrites(s, head).value;
      assert s' == WriteSide(StoreWords(mem, dst, words[..count]), 0, dst);
      RunWritesAppend(s, head, MasterWrites(BeatAddress(dst, count), count, words[count..]));
      TransferReassembled(s'.mem, dst, BeatAddress(dst, count), count, words[count..]);
      StoreWordsAppend(mem, dst, words[..count], words[count..]);
      assert words[..count] + words[count..] == words;
    }
  }
}
