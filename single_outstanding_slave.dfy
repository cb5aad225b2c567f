/** The memory model of tests/cocotb/tb_burst_master_2.py: a read slave that
    takes one command at a time. It accepts a command with waitrequest low,
    then holds waitrequest high for the whole data phase, drives the burst's
    beats one per edge, and releases waitrequest after the last one. Its
    write side is the shared burst-write monitor.

    The `read_monitor` loop becomes a step per rising edge over an explicit
    phase. At one edge the read monitor runs before the write monitor, the
    order in which the test starts them. */
module SingleOutstandingSlave {
  import opened Bus
  import BurstWrite

  /** Where `read_monitor` is in its loop: sampling `rm_read` at every edge;
      one edge after accepting `cmd` (the next edge raises waitrequest); or
      returning `cmd` with `beat` the next beat to drive (at
      `beat == cmd.burst` the next edge ends the data phase). */
  datatype MonitorPhase = Listening | Accepted(cmd: ReadCommand) | Returning(cmd: ReadCommand, beat: nat)

  /** The read-side state and the signals the slave drives. */
  datatype ReadPort = ReadPort(phase: MonitorPhase, waitRequest: bool, dataValid: bool, data: nat)

  /** The read-master signals sampled at one edge. */
  datatype ReadInput = ReadInput(read: Sample, address: Sample, burstCount: Sample)

  /** The shape every reachable read port has: waitrequest is low while a
      command is being accepted and high for the whole data phase, and
      readdatavalid is high exactly after a beat of the data phase. */
  predicate WellFormed(p: ReadPort)
  {
    && (p.phase.Accepted? ==> !p.waitRequest)
    && (p.phase.Returning? ==> p.waitRequest && p.phase.beat <= p.phase.cmd.burst)
    && (p.dataValid <==> p.phase.Returning? && p.phase.beat > 0)
  }

  /** One edge of `read_monitor`. */
  function ReadCycle(mem: Memory, p: ReadPort, input: ReadInput): (r: Result<ReadPort, BusError>)
    requires WellFormed(p)
    ensures r.Ok? ==> WellFormed(r.value)
    // an idle edge: no data, readdata 0, waitrequest low
    ensures p.phase.Listening? && input.read.Bits? && !High(input.read) ==> r == Ok(ReadPort(Listening, false, false, 0))
    // an X or Z read strobe raises
    ensures p.phase.Listening? && input.read.Unresolved? ==> r == Err(UnresolvedReadCommand)
    // a request with X or Z on its address or burst count raises instead of being served
    ensures p.phase.Listening? && High(input.read) ==> (r.Ok? <==> input.address.Bits? && input.burstCount.Bits?)
    // a request is captured with waitrequest low for its acceptance edge
    ensures p.phase.Listening? && High(input.read) && r.Ok? ==>
      r.value == ReadPort(Accepted(ReadCommand(input.address.value, input.burstCount.value)), false, false, 0)
    // outside of listening the request lines are not even sampled
    ensures !p.phase.Listening? ==> r.Ok?
    // the edge after acceptance raises waitrequest and starts the data phase
    ensures p.phase.Accepted? ==> r.value == p.(phase := Returning(p.phase.cmd, 0), waitRequest := true)
    // each data-phase edge drives the next word of the burst, 0 if never written
    ensures p.phase.Returning? && p.phase.beat < p.phase.cmd.burst ==>
      r.value.dataValid && r.value.waitRequest &&
      r.value.data == Load(mem, BeatAddress(p.phase.cmd.address, p.phase.beat), 0)
    // after the last beat readdatavalid drops and waitrequest is released
    ensures p.phase.Returning? && p.phase.beat == p.phase.cmd.burst ==>
      r.value.phase.Listening? && !r.value.dataValid && !r.value.waitRequest
  {
    match p.phase
    case Listening =>
      if input.read.Unresolved? then Err(UnresolvedReadCommand)
      else if !High(input.read) then Ok(ReadPort(Listening, false, false, 0))
      else if input.address.Bits? && input.burstCount.Bits? then
        Ok(ReadPort(Accepted(ReadCommand(input.address.value, input.burstCount.value)), false, false, 0))
      else Err(UnresolvedReadCommand)
    case Accepted(cmd) =>
      Ok(p.(phase := Returning(cmd, 0), waitRequest := true))
    case Returning(cmd, i) =>
      if i < cmd.burst then
        Ok(p.(phase := Returning(cmd, i + 1), dataValid := true, data := Load(mem, BeatAddress(cmd.address, i), 0)))
      else
        Ok(p.(phase := Listening, dataValid := false, waitRequest := false))
  }

  /** While a command is outstanding the slave does not look at the request
      lines: whatever the master drives, the edge does the same thing. So at
      most one read command is outstanding at a time. */
  lemma BusyIgnoresRequests(mem: Memory, p: ReadPort, a: ReadInput, b: ReadInput)
    requires WellFormed(p) && !p.phase.Listening?
    ensures ReadCycle(mem, p, a) == ReadCycle(mem, p, b)
  {
  }

  /** Edge after edge: the port after each edge, or the first error. */
  function RunReads(mem: Memory, p: ReadPort, inputs: seq<ReadInput>): Result<seq<ReadPort>, BusError>
    requires WellFormed(p)
    decreases |inputs|
  {
    if inputs == [] then Ok([])
    else match ReadCycle(mem, p, inputs[0])
      case Err(e) => Err(e)
      case Ok(q) =>
        match RunReads(mem, q, inputs[1..])
        case Err(e) => Err(e)
        case Ok(rest) => Ok([q] + rest)
  }

  /** The data phase from beat `i` on: one valid beat per remaining word with
      waitrequest held high, then one edge with readdatavalid and waitrequest
      low, back to listening; the request lines are ignored throughout. */
  lemma {:induction false} DataPhase(mem: Memory, p: ReadPort, inputs: seq<ReadInput>)
    requires WellFormed(p) && p.phase.Returning?
    requires |inputs| == p.phase.cmd.burst - p.phase.beat + 1
    ensures RunReads(mem, p, inputs).Ok?
    ensures var trace := RunReads(mem, p, inputs).value;
      var cmd, i := p.phase.cmd, p.phase.beat;
      && |trace| == |inputs|
      && (forall k :: 0 <= k < cmd.burst - i ==>
            trace[k].waitRequest && trace[k].dataValid && trace[k].data == BurstWords(mem, cmd)[i + k])
      && trace[cmd.burst - i].phase.Listening?
      && !trace[cmd.burst - i].waitRequest && !trace[cmd.burst - i].dataValid
    decreases |inputs|
  {
    var cmd, i := p.phase.cmd, p.phase.beat;
    var q := ReadCycle(mem, p, inputs[0]).value;
    if i < cmd.burst {
      DataPhase(mem, q, inputs[1..]);
      var rest := RunReads(mem, q, inputs[1..]).value;
      assert RunReads(mem, p, inputs).value == [q] + rest;
      forall k | 0 <= k < cmd.burst - i
        ensures var t := ([q] + rest)[k]; t.waitRequest && t.dataValid && t.data == BurstWords(mem, cmd)[i + k]
      {
        if k > 0 {
          assert ([q] + rest)[k] == rest[k - 1];
        }
      }
    } else {
      assert inputs[1..] == [];
    }
  }

  /** A whole read transaction from a listening slave: the request is taken
      on the first edge with waitrequest low; waitrequest is then high from
      the next edge through the last beat; the burst's words come back in
      order, one per edge; and the edge after the last beat lowers
      readdatavalid and releases waitrequest. Whatever the master drives on
      the request lines after the first edge is ignored. */
  lemma ReadTransaction(mem: Memory, p: ReadPort, inputs: seq<ReadInput>)
    requires WellFormed(p) && p.phase.Listening?
    requires |inputs| >= 1 && High(inputs[0].read) && inputs[0].address.Bits? && inputs[0].burstCount.Bits?
    requires |inputs| == inputs[0].burstCount.value + 3
    ensures RunReads(mem, p, inputs).Ok?
    ensures var trace := RunReads(mem, p, inputs).value;
      var cmd := ReadCommand(inputs[0].address.value, inputs[0].burstCount.value);
      && |trace| == cmd.burst + 3
      && trace[0] == ReadPort(Accepted(cmd), false, false, 0)
      && trace[1].waitRequest && !trace[1].dataValid
      && (forall k :: 0 <= k < cmd.burst ==>
            trace[k + 2].waitRequest && trace[k + 2].dataValid && trace[k + 2].data == BurstWords(mem, cmd)[k])
      && trace[cmd.burst + 2].phase.Listening?
      && !trace[cmd.burst + 2].waitRequest && !trace[cmd.burst + 2].dataValid
  {
    var cmd := ReadCommand(inputs[0].address.value, inputs[0].burstCount.value);
    var a := ReadCycle(mem, p, inputs[0]).value;
    var b := ReadCycle(mem, a, inputs[1]).value;
    assert inputs[1..][0] == inputs[1];
    assert inputs[1..][1..] == inputs[2..];
    DataPhase(mem, b, inputs[2..]);
    var rest := RunReads(mem, b, inputs[2..]).value;
    assert RunReads(mem, a, inputs[1..]).value == [b] + rest;
    assert RunReads(mem, p, inputs).value == [a] + ([b] + rest);
  }

  /** The testbench memory of tb_burst_master_2.py. */
  class AvalonMemory {
    var mem: Memory
    var phase: MonitorPhase
    var rmWaitRequest: bool
    var rmReadDataValid: bool
    var rmReadData: nat
    var wmWaitRequest: bool
    var burstCnt: nat
    var activeAddr: nat

    function Port(): ReadPort
      reads this
    {
      ReadPort(phase, rmWaitRequest, rmReadDataValid, rmReadData)
    }

    function WriteState(): BurstWrite.WriteSide
      reads this
    {
      BurstWrite.WriteSide(mem, burstCnt, activeAddr)
    }

    ghost predicate Valid()
      reads this
    {
      WellFormed(Port())
    }

    /** A fresh memory with both monitors started: empty memory, listening;
        the wait-request lines keep the value the test's reset gave them (1).
        Nothing drives readdatavalid and readdata before the read monitor's
        first edge (which drives both to 0), so their 0 here stands for "not
        yet driven". */
    constructor ()
      ensures Valid()
      ensures mem == map[] && phase == Listening
      ensures rmWaitRequest && !rmReadDataValid && rmReadData == 0 && wmWaitRequest
      ensures burstCnt == 0 && activeAddr == 0
    {
      mem := map[];
      phase := Listening;
      rmWaitRequest := true;
      rmReadDataValid := false;
      rmReadData := 0;
      wmWaitRequest := true;
      burstCnt := 0;
      activeAddr := 0;
    }

    /** One edge of `read_monitor`. When the request cannot be converted the
        monitor has already lowered readdatavalid and readdata, and raises. */
    method ReadMonitor(read: Sample, address: Sample, burstCount: Sample) returns (r: Outcome<BusError>)
      requires Valid()
      modifies this
      ensures Valid()
      ensures var c := ReadCycle(old(mem), old(Port()), ReadInput(read, address, burstCount));
        && (r.Pass? <==> c.Ok?)
        && (r.Pass? ==> Port() == c.value)
        && (r.Fail? ==> r.error == c.error && Port() == old(Port()).(dataValid := false, data := 0))
      ensures WriteState() == old(WriteState()) && wmWaitRequest == old(wmWaitRequest)
    {
      r := Pass;
      match phase
      case Listening =>
        rmReadDataValid, rmReadData := false, 0;
        if read.Unresolved? {
          r := Fail(UnresolvedReadCommand);
        } else if High(read) {
          if address.Bits? && burstCount.Bits? {
            rmWaitRequest := false;
            phase := Accepted(ReadCommand(address.value, burstCount.value));
          } else {
            r := Fail(UnresolvedReadCommand);
          }
        } else {
          rmWaitRequest := false;
        }
      case Accepted(cmd) =>
        rmWaitRequest := true;
        phase := Returning(cmd, 0);
      case Returning(cmd, i) =>
        if i < cmd.burst {
          rmReadDataValid, rmReadData := true, Load(mem, BeatAddress(cmd.address, i), 0);
          phase := Returning(cmd, i + 1);
        } else {
          rmReadDataValid, rmWaitRequest := false, false;
          phase := Listening;
        }
    }

    /** One edge of `write_monitor`: drive waitrequest low and take the
        sampled write beat, if any. A beat in the middle of a burst stores its
        word before the burst count is converted, so a failing edge can still
        have stored it. */
    method WriteMonitor(write: Sample, address: Sample, data: Sample, burstCount: Sample) returns (r: Outcome<BusError>)
      requires Valid()
      modifies this
      ensures Valid()
      ensures !wmWaitRequest
      ensures var w := BurstWrite.WriteCycle(old(WriteState()), BurstWrite.WriteBeat(write, address, data, burstCount));
        && (r.Pass? <==> w.Ok?)
        && (r.Fail? ==> r.error == w.error.error && WriteState() == old(WriteState()).(mem := w.error.mem))
        && (r.Pass? ==> WriteState() == w.value)
      ensures Port() == old(Port())
    {
      wmWaitRequest := false;
      r := Pass;
      if write.Unresolved? {
        r := Fail(UnresolvedWriteBeat);
      } else if High(write) {
        if !(address.Bits? && data.Bits?) || (burstCnt == 0 && !burstCount.Bits?) {
          r := Fail(UnresolvedWriteBeat);
        } else {
          if burstCnt == 0 {
            activeAddr := address.value;
          }
          mem := mem[BeatAddress(activeAddr, burstCnt) := data.value];
          if !burstCount.Bits? {
            r := Fail(UnresolvedWriteBeat);
          } else {
            burstCnt := burstCnt + 1;
            if burstCnt >= burstCount.value {
              burstCnt := 0;
            }
          }
        }
      }
    }

    /** One rising edge of the whole memory model: the read monitor, then the
        write monitor. The first monitor that raises ends the edge. */
    method ClockEdge(rmRead: Sample, rmAddress: Sample, rmBurstCount: Sample,
                     wmWrite: Sample, wmAddress: Sample, wmWriteData: Sample, wmBurstCount: Sample)
      returns (r: Outcome<BusError>)
      requires Valid()
      modifies this
      ensures Valid()
      ensures var c := ReadCycle(old(mem), old(Port()), ReadInput(rmRead, rmAddress, rmBurstCount));
        c.Err? ==>
          && r == Fail(c.error) && Port() == old(Port()).(dataValid := false, data := 0)
          && WriteState() == old(WriteState()) && wmWaitRequest == old(wmWaitRequest)
      ensures var c := ReadCycle(old(mem), old(Port()), ReadInput(rmRead, rmAddress, rmBurstCount));
        var w := BurstWrite.WriteCycle(old(WriteState()), BurstWrite.WriteBeat(wmWrite, wmAddress, wmWriteData, wmBurstCount));
        c.Ok? && w.Err? ==>
          && r == Fail(w.error.error) && Port() == c.value
          && WriteState() == old(WriteState()).(mem := w.error.mem) && !wmWaitRequest
      ensures var c := ReadCycle(old(mem), old(Port()), ReadInput(rmRead, rmAddress, rmBurstCount));
        var w := BurstWrite.WriteCycle(old(WriteState()), BurstWrite.WriteBeat(wmWrite, wmAddress, wmWriteData, wmBurstCount));
        c.Ok? && w.Ok? ==>
          && r == Pass && Port() == c.value && WriteState() == w.value && !wmWaitRequest
    {
      r := ReadMonitor(rmRead, rmAddress, rmBurstCount);
      if r.Pass? {
        r := WriteMonitor(wmWrite, wmAddress, wmWriteData, wmBurstCount);
      }
    }
  }
}
