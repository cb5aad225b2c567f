/** The test-level logic of the burst-master testbenches: filling the source
    region, waiting for the engine's done indication under a timeout, and
    comparing the destination region against the expected words. */
module Testbench {
  import opened Bus
  import BurstWrite
  import PipelinedSlave

  /** Why a test fails. */
  datatype TestFailure = Timeout | DataMismatch(address: nat, expected: nat, got: nat)

  /** The basic copy test (both testbenches): 512 words from 0x1000 to 0x5000,
      word i of the source being 0xA000 + i, moved in bursts of 256 words. */
  const CopySource: nat := 0x1000
  const CopyDestination: nat := 0x5000
  const CopyBurst: nat := 256
  const CopyBytes: nat := CopyBurst * WordBytes * 2
  const CopyFirstWord: nat := 0xA000

  /** The processing test of tb_burst_master.py: 256 words from 0x2000 to
      0x6000, word i of the source being 10 + i, each multiplied by 3. */
  const ProcessingSource: nat := 0x2000
  const ProcessingDestination: nat := 0x6000
  const ProcessingBytes: nat := 256 * WordBytes
  const ProcessingFirstWord: nat := 10
  const ProcessingCoefficient: nat := 3

  /** The edge budgets of the done waits: the copy test's (the status
      polling of tb_burst_master.py and the `ctrl_done` wait of
      tb_burst_master_2.py alike) and the processing test's. */
  const CopyTimeout: nat := 10000
  const ProcessingTimeout: nat := 5000

  /** What an unwritten destination word reads as in the check: 0 in
      tb_burst_master.py, 0xFFFFFFFF in tb_burst_master_2.py. */
  const PipelinedUnwritten: nat := 0
  const SingleOutstandingUnwritten: nat := 0xFFFF_FFFF

  /** The source pattern: `n` consecutive values from `first`. */
  function SourcePattern(first: nat, n: nat): seq<nat>
  {
    seq(n, (k: nat) => first + k)
  }

  /** The expected-data setup loop: for each word offset of the transfer,
      write `first + i` to the source and record `(first + i) * coeff` as the
      expected destination word (the copy test records the value itself,
      which is `coeff == 1`). */
  method FillSource(mem: Memory, src: nat, totalBytes: nat, first: nat, coeff: nat)
    returns (filled: Memory, expected: seq<nat>)
    ensures |expected| == (totalBytes + WordBytes - 1) / WordBytes
    ensures filled == StoreWords(mem, src, SourcePattern(first, |expected|))
    ensures forall k :: 0 <= k < |expected| ==> expected[k] == (first + k) * coeff
  {
    filled, expected := mem, [];
    var i := 0;
    while i < totalBytes
      invariant i == WordBytes * |expected| && i < totalBytes + WordBytes
      invariant filled == StoreWords(mem, src, SourcePattern(first, |expected|))
      invariant forall k :: 0 <= k < |expected| ==> expected[k] == (first + k) * coeff
    {
      var value := i / WordBytes + first;
      StoreWordsAppend(mem, src, SourcePattern(first, |expected|), [value]);
      assert SourcePattern(first, |expected| + 1) == SourcePattern(first, |expected|) + [value];
      filled := filled[src + i := value];
      expected := expected + [value * coeff];
      i := i + WordBytes;
    }
  }

  /** The word the check expects: `& 0xFFFFFFFF` when the test truncates. */
  function Expect(v: nat, truncate: bool): (w: nat)
    ensures truncate ==> w < WordModulus && w % WordModulus == v % WordModulus
    ensures !truncate ==> w == v
  {
    if truncate then v % WordModulus else v
  }

  /** Destination word k holds what the check expects, reading an unwritten
      word as `absent`. */
  predicate WordMatches(mem: Memory, dst: nat, expected: seq<nat>, k: nat, absent: nat, truncate: bool)
    requires k < |expected|
  {
    Load(mem, BeatAddress(dst, k), absent) == Expect(expected[k], truncate)
  }

  /** Word k is the first destination word that does not match. */
  predicate FirstMismatch(mem: Memory, dst: nat, expected: seq<nat>, k: nat, absent: nat, truncate: bool)
  {
    k < |expected| && !WordMatches(mem, dst, expected, k, absent, truncate) &&
    forall j :: 0 <= j < k ==> WordMatches(mem, dst, expected, j, absent, truncate)
  }

  /** The verification loop: compare destination word after word and fail on
      the first mismatch, naming its address, the expected and the read word. */
  method VerifyDestination(mem: Memory, dst: nat, expected: seq<nat>, absent: nat, truncate: bool)
    returns (r: Outcome<TestFailure>)
    ensures r.Pass? <==> forall k :: 0 <= k < |expected| ==> WordMatches(mem, dst, expected, k, absent, truncate)
    ensures r.Fail? ==> exists k: nat :: FirstMismatch(mem, dst, expected, k, absent, truncate) &&
                                    r.error == DataMismatch(BeatAddress(dst, k), Expect(expected[k], truncate), Load(mem, BeatAddress(dst, k), absent))
  {
    var i := 0;
    while i < WordBytes * |expected|
      invariant i % WordBytes == 0 && i <= WordBytes * |expected|
      invariant forall j :: 0 <= j < i / WordBytes ==> WordMatches(mem, dst, expected, j, absent, truncate)
    {
      var address := dst + i;
      var want := Expect(expected[i / WordBytes], truncate);
      var got := Load(mem, address, absent);
      if got != want {
        assert !WordMatches(mem, dst, expected, i / WordBytes, absent, truncate);
        return Fail(DataMismatch(address, want, got));
      }
      i := i + WordBytes;
    }
    return Pass;
  }

  /** Loop iteration `n` (from 0) of the status polling reads the status
      register: the decremented timeout is then a multiple of 10. */
  predicate Polls(timeout: nat, n: nat)
  {
    n < timeout && (timeout - 1 - n) % 10 == 0
  }

  /** With a budget that is a multiple of 10, the status register is read
      at every tenth edge, from the tenth through the edge the timeout
      expires on. */
  lemma PollSchedule(timeout: nat, n: nat)
    requires timeout % 10 == 0
    ensures Polls(timeout, n) <==> n < timeout && n % 10 == 9
  {
    if n < timeout {
      var q, a, b := timeout / 10, n / 10, n % 10;
      assert timeout == 10 * q && n == 10 * a + b;
      assert a < q;
      assert timeout - 1 - n == 10 * (q - a - 1) + (9 - b);
    }
  }

  /** Both polling tests have such a budget. */
  lemma TestPollSchedules(n: nat)
    ensures Polls(CopyTimeout, n) <==> n < CopyTimeout && n % 10 == 9
    ensures Polls(ProcessingTimeout, n) <==> n < ProcessingTimeout && n % 10 == 9
  {
    PollSchedule(CopyTimeout, n);
    PollSchedule(ProcessingTimeout, n);
  }

  /** Polling misses a done bit by at most nine edges: when done is set at
      edge `d` before the timeout and stays set for ten edges, a poll within
      those ten edges sees it. */
  lemma PollSeesDone(timeout: nat, status: seq<bool>, d: nat)
    requires timeout % 10 == 0 && d < timeout
    requires forall n :: d <= n < d + 10 ==> DoneAt(status, n)
    ensures exists n :: d <= n < d + 10 && Polls(timeout, n) && DoneAt(status, n)
  {
    var n := 10 * (d / 10) + 9;
    assert d / 10 < timeout / 10;
    PollSchedule(timeout, n);
    assert Polls(timeout, n) && DoneAt(status, n);
  }

  /** The done bit as sampled at iteration or edge `n`; later than the given
      samples it reads 0. */
  function DoneAt(done: seq<bool>, n: nat): bool
  {
    n < |done| && done[n]
  }

  /** The done polling of tb_burst_master.py: decrement the timeout every
      edge, read the status register when it is a multiple of 10, stop when
      its done bit is 1, and fail when the timeout reaches 0. The result is
      the iteration whose poll saw done. */
  method PollForDone(timeout: nat, status: seq<bool>) returns (r: Result<nat, TestFailure>)
    requires timeout >= 1
    ensures r.Ok? <==> exists n :: Polls(timeout, n) && DoneAt(status, n)
    ensures r.Ok? ==> Polls(timeout, r.value) && DoneAt(status, r.value)
    ensures r.Ok? ==> forall n :: 0 <= n < r.value && Polls(timeout, n) ==> !DoneAt(status, n)
    ensures r.Err? ==> r.error == Timeout
  {
    var left: int := timeout;
    var n: nat := 0;
    while true
      invariant 1 <= left == timeout - n
      invariant forall m :: 0 <= m < n && Polls(timeout, m) ==> !DoneAt(status, m)
      decreases left
    {
      left := left - 1;
      if left % 10 == 0 {
        if DoneAt(status, n) {
          return Ok(n);
        }
      }
      if left == 0 {
        return Err(Timeout);
      }
      n := n + 1;
    }
  }

  /** The `ctrl_done` wait of tb_burst_master_2.py: sample done before each
      edge, and fail when the timeout, decremented per edge, reaches 0. The
      result is the number of edges waited. */
  method WaitForCtrlDone(timeout: nat, done: seq<bool>) returns (r: Result<nat, TestFailure>)
    requires timeout >= 1
    ensures r.Ok? <==> exists c :: 0 <= c < timeout && DoneAt(done, c)
    ensures r.Ok? ==> r.value < timeout && DoneAt(done, r.value)
    ensures r.Ok? ==> forall c :: 0 <= c < r.value ==> !DoneAt(done, c)
    ensures r.Err? ==> r.error == Timeout
  {
    var left: int := timeout;
    var c: nat := 0;
    while !DoneAt(done, c)
      invariant 1 <= left == timeout - c
      invariant forall j :: 0 <= j < c ==> !DoneAt(done, j)
      decreases left
    {
      c := c + 1;
      left := left - 1;
      if left == 0 {
        return Err(Timeout);
      }
    }
    return Ok(c);
  }

  /** End to end on the write side: when the engine writes the expected
      words (as the check sees them) in bursts addressed at their start, the
      burst-write monitor leaves a memory on which every destination word
      matches, whatever the memory held before and whatever the check reads
      unwritten words as. */
  lemma TransferPassesCheck(mem: Memory, active: nat, dst: nat, count: nat,
                            written: seq<nat>, expected: seq<nat>, absent: nat, truncate: bool)
    requires count >= 1 && |written| == |expected|
    requires forall k :: 0 <= k < |written| ==> written[k] == Expect(expected[k], truncate)
    ensures var run := BurstWrite.RunWrites(BurstWrite.WriteSide(mem, 0, active), BurstWrite.MasterWrites(dst, count, written));
      run.Ok? && forall k :: 0 <= k < |expected| ==> WordMatches(run.value.mem, dst, expected, k, absent, truncate)
  {
    BurstWrite.TransferReassembled(mem, active, dst, count, written);
    var final := BurstWrite.RunWrites(BurstWrite.WriteSide(mem, 0, active), BurstWrite.MasterWrites(dst, count, written)).value;
    forall k | 0 <= k < |expected|
      ensures WordMatches(final.mem, dst, expected, k, absent, truncate)
    {
      StoreWordsAt(mem, dst, written, k, absent);
    }
  }

  /** A destination word the engine never wrote fails the check in every
      test: no expected word equals what an unwritten word reads as. */
  lemma MissingWriteFails(mem: Memory, k: nat)
    requires k < CopyBytes / WordBytes
    requires BeatAddress(CopyDestination, k) !in mem
    ensures !WordMatches(mem, CopyDestination, SourcePattern(CopyFirstWord, CopyBytes / WordBytes), k, SingleOutstandingUnwritten, false)
    ensures !WordMatches(mem, CopyDestination, SourcePattern(CopyFirstWord, CopyBytes / WordBytes), k, PipelinedUnwritten, false)
  {
  }

  /** The read commands of a transfer of `n` whole bursts of `count` words
      from `src`: burst j starts `4 * count * j` bytes in. */
  function MasterReads(src: nat, count: nat, n: nat): seq<ReadCommand>
    decreases n
  {
    if n == 0 then [] else [ReadCommand(src, count)] + MasterReads(BeatAddress(src, count), count, n - 1)
  }

  /** The engine's read bursts cover the source words in order, one address
      per word. */
  lemma {:induction false} MasterReadsCoverSource(src: nat, count: nat, n: nat)
    ensures |CommandAddresses(MasterReads(src, count, n))| == n * count
    ensures forall k :: 0 <= k < n * count ==> CommandAddresses(MasterReads(src, count, n))[k] == BeatAddress(src, k)
    decreases n
  {
    if n > 0 {
      var tail := MasterReads(BeatAddress(src, count), count, n - 1);
      MasterReadsCoverSource(BeatAddress(src, count), count, n - 1);
      assert MasterReads(src, count, n)[1..] == tail;
      assert CommandAddresses(MasterReads(src, count, n)) == BurstAddresses(ReadCommand(src, count)) + CommandAddresses(tail);
      assert n * count == count + (n - 1) * count;
      forall k | 0 <= k < n * count
        ensures CommandAddresses(MasterReads(src, count, n))[k] == BeatAddress(src, k)
      {
        if k >= count {
          assert CommandAddresses(tail)[k - count] == BeatAddress(BeatAddress(src, count), k - count);
        }
      }
    }
  }

  /** End to end on the read side: served in order, the engine's read bursts
      over the filled source return the fill pattern word for word. */
  lemma SourceReadsReturnPattern(mem: Memory, src: nat, count: nat, n: nat, first: nat)
    ensures var addresses := CommandAddresses(MasterReads(src, count, n));
      |addresses| == n * count &&
      forall k :: 0 <= k < |addresses| ==>
        Load(StoreWords(mem, src, SourcePattern(first, n * count)), addresses[k], 0) == first + k
  {
    MasterReadsCoverSource(src, count, n);
    forall k | 0 <= k < n * count
      ensures Load(StoreWords(mem, src, SourcePattern(first, n * count)), BeatAddress(src, k), 0) == first + k
    {
      StoreWordsAt(mem, src, SourcePattern(first, n * count), k, 0);
    }
  }

  /** The pipelined slave serves the engine the fill pattern: when the
      commands accepted so far are the engine's read bursts over the source,
      and the memory the driver reads still holds the filled word at every
      source word (no write has landed in the source region), a valid beat
      carries the next word of the pattern, `first` plus the number of
      addresses served before it. */
  lemma ServedWordsFollowPattern(mem: Memory, fill: Memory, p: PipelinedSlave.ReadPort, served: seq<nat>,
                                 src: nat, count: nat, n: nat, first: nat)
    requires PipelinedSlave.InOrder(p, MasterReads(src, count, n), served)
    requires forall k :: 0 <= k < n * count ==>
      Load(mem, BeatAddress(src, k), 0) == Load(StoreWords(fill, src, SourcePattern(first, n * count)), BeatAddress(src, k), 0)
    requires PipelinedSlave.DataCycle(mem, p).dataValid
    ensures |served| < n * count
    ensures PipelinedSlave.DataCycle(mem, p).data == first + |served|
  {
    var addresses := CommandAddresses(MasterReads(src, count, n));
    var pending := PipelinedSlave.PendingAddresses(p);
    PipelinedSlave.DataEdgeInOrder(mem, p, MasterReads(src, count, n), served);
    MasterReadsCoverSource(src, count, n);
    assert addresses == served + pending;
    assert addresses[|served|] == pending[0];
    StoreWordsAt(fill, src, SourcePattern(first, n * count), |served|, 0);
  }

  /** Filling `n` words from `src` and then storing any words from a
      destination at or above the end of the source leaves the fill pattern
      in the source. */
  lemma SourceSurvives(mem: Memory, src: nat, first: nat, n: nat, dst: nat, written: seq<nat>)
    requires src + WordBytes * n <= dst
    ensures forall k :: 0 <= k < n ==>
      Load(StoreWords(StoreWords(mem, src, SourcePattern(first, n)), dst, written), BeatAddress(src, k), 0) == first + k
  {
    var filled := StoreWords(mem, src, SourcePattern(first, n));
    forall k | 0 <= k < n
      ensures Load(StoreWords(filled, dst, written), BeatAddress(src, k), 0) == first + k
    {
      StoreWordsLoad(filled, dst, written, BeatAddress(src, k), 0);
      StoreWordsAt(mem, src, SourcePattern(first, n), k, 0);
    }
  }

  /** A test scenario on the memory: fill `|expected|` words of the pattern
      from `src`, let the engine write the expected words (as the check sees
      them) to `dst` in bursts of `count`, below which the source lies. The
      write-back runs without error, every destination word passes the check,
      and the source is still as filled. */
  lemma ScenarioChecksOut(mem: Memory, active: nat, src: nat, first: nat, dst: nat, count: nat,
                          expected: seq<nat>, absent: nat, truncate: bool)
    requires count >= 1 && src + WordBytes * |expected| <= dst
    requires forall k :: 0 <= k < |expected| ==> Expect(expected[k], truncate) == expected[k]
    ensures var filled := StoreWords(mem, src, SourcePattern(first, |expected|));
      var run := BurstWrite.RunWrites(BurstWrite.WriteSide(filled, 0, active), BurstWrite.MasterWrites(dst, count, expected));
      && run.Ok?
      && (forall k :: 0 <= k < |expected| ==>
            && WordMatches(run.value.mem, dst, expected, k, absent, truncate)
            && Load(run.value.mem, BeatAddress(src, k), 0) == first + k)
  {
    var filled := StoreWords(mem, src, SourcePattern(first, |expected|));
    TransferPassesCheck(filled, active, dst, count, expected, expected, absent, truncate);
    BurstWrite.TransferReassembled(filled, active, dst, count, expected);
    SourceSurvives(mem, src, first, |expected|, dst, expected);
  }

  /** The copy test of both testbenches on the memory: after the fill, the
      engine writing the 512 source words to the destination in bursts of 256
      passes the check whichever value unwritten words read as, and the
      source region, which lies below the destination, is still as filled. */
  lemma CopyTestChecksOut(mem: Memory, active: nat)
    ensures var words := SourcePattern(CopyFirstWord, CopyBytes / WordBytes);
      var filled := StoreWords(mem, CopySource, words);
      var run := BurstWrite.RunWrites(BurstWrite.WriteSide(filled, 0, active), BurstWrite.MasterWrites(CopyDestination, CopyBurst, words));
      && run.Ok?
      && (forall k :: 0 <= k < |words| ==>
            && WordMatches(run.value.mem, CopyDestination, words, k, PipelinedUnwritten, false)
            && WordMatches(run.value.mem, CopyDestination, words, k, SingleOutstandingUnwritten, false)
            && Load(run.value.mem, BeatAddress(CopySource, k), 0) == CopyFirstWord + k)
  {
    var words := SourcePattern(CopyFirstWord, CopyBytes / WordBytes);
    ScenarioChecksOut(mem, active, CopySource, CopyFirstWord, CopyDestination, CopyBurst, words, PipelinedUnwritten, false);
    ScenarioChecksOut(mem, active, CopySource, CopyFirstWord, CopyDestination, CopyBurst, words, SingleOutstandingUnwritten, false);
  }

  /** The words the processing test expects: each source word times the
      coefficient. */
  function ProcessingExpected(): (e: seq<nat>)
    ensures |e| == ProcessingBytes / WordBytes
    ensures forall k :: 0 <= k < |e| ==> e[k] == SourcePattern(ProcessingFirstWord, |e|)[k] * ProcessingCoefficient
  {
    seq(ProcessingBytes / WordBytes, (k: nat) => (ProcessingFirstWord + k) * ProcessingCoefficient)
  }

  /** Every word the processing test expects is below 2^32, so the check's
      truncation leaves it as it is. */
  lemma ProcessingWordsFit()
    ensures forall k :: 0 <= k < |ProcessingExpected()| ==>
      ProcessingExpected()[k] < WordModulus && Expect(ProcessingExpected()[k], true) == ProcessingExpected()[k]
  {
    var expected := ProcessingExpected();
    forall k | 0 <= k < |expected|
      ensures expected[k] < WordModulus
    {
      assert expected[k] == (ProcessingFirstWord + k) * ProcessingCoefficient <= 265 * 3;
    }
  }

  /** The processing test of tb_burst_master.py on the memory: every
      expected word fits in 32 bits, so the check's truncation changes none
      of them; the engine writing them in one burst passes the check; and the
      source region below the destination is still as filled. */
  lemma ProcessingTestChecksOut(mem: Memory, active: nat)
    ensures var expected := ProcessingExpected();
      var filled := StoreWords(mem, ProcessingSource, SourcePattern(ProcessingFirstWord, |expected|));
      var run := BurstWrite.RunWrites(BurstWrite.WriteSide(filled, 0, active),
                                      BurstWrite.MasterWrites(ProcessingDestination, |expected|, expected));
      && run.Ok?
      && (forall k :: 0 <= k < |expected| ==>
            && Expect(expected[k], true) == expected[k]
            && WordMatches(run.value.mem, ProcessingDestination, expected, k, PipelinedUnwritten, true)
            && Load(run.value.mem, BeatAddress(ProcessingSource, k), 0) == ProcessingFirstWord + k)
  {
    var expected := ProcessingExpected();
    ProcessingWordsFit();
    ScenarioChecksOut(mem, active, ProcessingSource, ProcessingFirstWord, ProcessingDestination, |expected|,
                      expected, PipelinedUnwritten, true);
  }
}
