/** The memory model of tests/cocotb/tb_burst_master.py: a pipelined read
    slave (a command monitor that accepts a command on every edge that
    `rm_read` is high and queues it, and a data driver that serves the queue
    in order, one beat per edge) beside the shared burst-write monitor.

    Each coroutine becomes a step taken at one rising edge. At one edge the
    command monitor runs first, then the write monitor, then the data driver:
    once the driver has been woken by a queued command it waits on the edge
    behind the write monitor, so it reads the memory after that edge's write.
    A command queued at this edge is taken by a waiting driver at the same
    edge, and its first beat follows at the next edge. */
module PipelinedSlave {
  import opened Bus
  import BurstWrite

  /** Where `read_data_driver` is in its loop: blocked on the queue, or
      serving a command whose next beat is `beat` (at `beat == cmd.burst` it
      has driven every beat and the next edge lowers `rm_readdatavalid`). */
  datatype DriverPhase = AwaitingCommand | Serving(cmd: ReadCommand, beat: nat)

  /** The read-side state: the command queue, the driver's phase, and the
      `rm_readdatavalid` / `rm_readdata` values it drives. */
  datatype ReadPort = ReadPort(queue: seq<ReadCommand>, phase: DriverPhase, dataValid: bool, data: nat)

  /** The shape every reachable read port has. */
  predicate WellFormed(p: ReadPort)
  {
    && (p.phase.Serving? ==> p.phase.beat <= p.phase.cmd.burst)
    && (p.dataValid <==> p.phase.Serving? && p.phase.beat > 0)
  }

  /** One edge of `read_command_monitor`: a sampled `rm_read` queues exactly
      one command, behind every earlier one. */
  function CommandCycle(queue: seq<ReadCommand>, read: Sample, address: Sample, burstCount: Sample)
    : (r: Result<seq<ReadCommand>, BusError>)
    ensures read.Bits? && !High(read) ==> r == Ok(queue)
    ensures read.Unresolved? ==> r == Err(UnresolvedReadCommand)
    ensures High(read) ==> (r.Ok? <==> address.Bits? && burstCount.Bits?)
    ensures r.Ok? && High(read) ==> r.value == queue + [ReadCommand(address.value, burstCount.value)]
    ensures r.Err? ==> r.error == UnresolvedReadCommand
  {
    if read.Unresolved? then Err(UnresolvedReadCommand)
    else if !High(read) then Ok(queue)
    else if address.Bits? && burstCount.Bits? then Ok(queue + [ReadCommand(address.value, burstCount.value)])
    else Err(UnresolvedReadCommand)
  }

  /** `await read_cmd_queue.get()`: take the oldest command, or wait. */
  function TakeCommand(p: ReadPort): (r: ReadPort)
    ensures r.dataValid == p.dataValid && r.data == p.data
    ensures p.queue == [] ==> r.queue == [] && r.phase == AwaitingCommand
    ensures p.queue != [] ==> r.queue == p.queue[1..] && r.phase == Serving(p.queue[0], 0)
  {
    if p.queue == [] then p.(phase := AwaitingCommand)
    else p.(queue := p.queue[1..], phase := Serving(p.queue[0], 0))
  }

  /** One edge of `read_data_driver`. */
  function DataCycle(mem: Memory, p: ReadPort): (r: ReadPort)
    requires WellFormed(p)
    ensures WellFormed(r)
    // a valid beat carries the word at the current command's next beat address
    ensures r.dataValid ==>
      p.phase.Serving? && p.phase.beat < p.phase.cmd.burst &&
      r.data == Load(mem, BeatAddress(p.phase.cmd.address, p.phase.beat), 0)
    // commands leave the queue only from its front
    ensures r.queue == p.queue || (p.queue != [] && r.queue == p.queue[1..] && r.phase == Serving(p.queue[0], 0))
    // the edge after the last beat lowers readdatavalid
    ensures p.phase.Serving? && p.phase.beat >= p.phase.cmd.burst ==> !r.dataValid
  {
    match p.phase
    case AwaitingCommand => TakeCommand(p)
    case Serving(cmd, i) =>
      if i < cmd.burst then
        p.(phase := Serving(cmd, i + 1), dataValid := true, data := Load(mem, BeatAddress(cmd.address, i), 0))
      else
        TakeCommand(p.(dataValid := false))
  }

  /** The addresses still to be served, oldest first: the rest of the current
      burst, then every queued command's burst. */
  function PendingAddresses(p: ReadPort): seq<nat>
  {
    CurrentAddresses(p.phase) + CommandAddresses(p.queue)
  }

  /** The addresses of the current burst that are still to be served. */
  function CurrentAddresses(phase: DriverPhase): seq<nat>
  {
    match phase
    case AwaitingCommand => []
    case Serving(cmd, i) => if i <= cmd.burst then BurstAddresses(cmd)[i..] else []
  }

  /** The FIFO contract as a relation between the commands accepted so far,
      the addresses already served and the port: every accepted command's
      addresses, in acceptance order, are the served ones followed by the
      pending ones. */
  ghost predicate InOrder(p: ReadPort, accepted: seq<ReadCommand>, served: seq<nat>)
  {
    WellFormed(p) && CommandAddresses(accepted) == served + PendingAddresses(p)
  }

  /** The address a data edge serves: the oldest pending one, when the edge
      drives a valid beat. */
  function ServedBy(mem: Memory, p: ReadPort): seq<nat>
    requires WellFormed(p)
  {
    var pending := PendingAddresses(p);
    if DataCycle(mem, p).dataValid && pending != [] then [pending[0]] else []
  }

  /** A data edge either serves the oldest pending address, with the word
      stored there, or serves nothing and leaves the pending addresses as
      they were. */
  lemma DataCycleServesOldest(mem: Memory, p: ReadPort)
    requires WellFormed(p)
    ensures var r := DataCycle(mem, p);
      if r.dataValid then
        PendingAddresses(p) != [] && r.data == Load(mem, PendingAddresses(p)[0], 0) &&
        PendingAddresses(r) == PendingAddresses(p)[1..]
      else PendingAddresses(r) == PendingAddresses(p)
  {
    match p.phase
    case AwaitingCommand =>
      TakeCommandKeepsPending(p);
      assert PendingAddresses(p) == CommandAddresses(p.queue);
    case Serving(cmd, i) =>
      if i < cmd.burst {
        NextBeatPending(p);
      } else {
        assert BurstAddresses(cmd)[i..] == [];
        TakeCommandKeepsPending(p.(dataValid := false));
        assert PendingAddresses(p) == CommandAddresses(p.queue);
      }
  }

  /** Taking the next command moves its whole burst from the queue to the
      current phase, so the pending addresses stay the same. */
  lemma TakeCommandKeepsPending(p: ReadPort)
    requires CurrentAddresses(p.phase) == []
    ensures PendingAddresses(TakeCommand(p)) == CommandAddresses(p.queue)
  {
    if p.queue != [] {
      assert BurstAddresses(p.queue[0])[0..] == BurstAddresses(p.queue[0]);
    } else {
      assert PendingAddresses(TakeCommand(p)) == [] + [];
    }
  }

  /** A beat in the middle of a burst serves the first pending address. */
  lemma NextBeatPending(p: ReadPort)
    requires p.phase.Serving? && p.phase.beat < p.phase.cmd.burst
    ensures var cmd, i := p.phase.cmd, p.phase.beat;
      && PendingAddresses(p) != []
      && PendingAddresses(p)[0] == BeatAddress(cmd.address, i)
      && PendingAddresses(p)[1..] == PendingAddresses(p.(phase := Serving(cmd, i + 1)))
  {
    var cmd, i := p.phase.cmd, p.phase.beat;
    var rest := BurstAddresses(cmd)[i..];
    var queued := CommandAddresses(p.queue);
    assert rest[0] == BeatAddress(cmd.address, i);
    assert rest[1..] == BurstAddresses(cmd)[i + 1..];
    assert PendingAddresses(p) == rest + queued;
    assert (rest + queued)[1..] == rest[1..] + queued;
  }

  /** The commands a read edge accepts. */
  function Accepted(read: Sample, address: Sample, burstCount: Sample): seq<ReadCommand>
    requires High(read) ==> address.Bits? && burstCount.Bits?
  {
    if High(read) then [ReadCommand(address.value, burstCount.value)] else []
  }

  /** A command edge keeps the FIFO relation: the accepted command's whole
      burst goes behind everything already pending. */
  lemma CommandEdgeInOrder(p: ReadPort, accepted: seq<ReadCommand>, served: seq<nat>,
                           read: Sample, address: Sample, burstCount: Sample)
    requires InOrder(p, accepted, served)
    requires CommandCycle(p.queue, read, address, burstCount).Ok?
    ensures InOrder(p.(queue := CommandCycle(p.queue, read, address, burstCount).value),
                    accepted + Accepted(read, address, burstCount), served)
  {
    if !High(read) {
      assert accepted + [] == accepted;
    } else {
      QueueCommandInOrder(p, accepted, served, ReadCommand(address.value, burstCount.value));
    }
  }

  /** Queueing one command behind the pending ones keeps the FIFO relation. */
  lemma QueueCommandInOrder(p: ReadPort, accepted: seq<ReadCommand>, served: seq<nat>, cmd: ReadCommand)
    requires InOrder(p, accepted, served)
    ensures InOrder(p.(queue := p.queue + [cmd]), accepted + [cmd], served)
  {
    var q := p.(queue := p.queue + [cmd]);
    var current, queued, added := CurrentAddresses(p.phase), CommandAddresses(p.queue), BurstAddresses(cmd);
    assert CommandAddresses([cmd]) == added by {
      assert [cmd][1..] == [];
    }
    CommandAddressesAppend(p.queue, [cmd]);
    CommandAddressesAppend(accepted, [cmd]);
    assert PendingAddresses(q) == current + (queued + added);
    SeqAssoc(served, current, queued, added);
  }

  /** Regrouping a concatenation of four sequences. */
  lemma SeqAssoc<T>(a: seq<T>, b: seq<T>, c: seq<T>, d: seq<T>)
    ensures (a + (b + c)) + d == a + (b + (c + d))
  {
  }

  /** A data edge keeps the FIFO relation, and a valid beat carries the word
      stored at the oldest address not yet served. */
  lemma DataEdgeInOrder(mem: Memory, p: ReadPort, accepted: seq<ReadCommand>, served: seq<nat>)
    requires InOrder(p, accepted, served)
    ensures InOrder(DataCycle(mem, p), accepted, served + ServedBy(mem, p))
    ensures DataCycle(mem, p).dataValid ==>
      PendingAddresses(p) != [] && ServedBy(mem, p) == [PendingAddresses(p)[0]] &&
      DataCycle(mem, p).data == Load(mem, PendingAddresses(p)[0], 0)
    ensures !DataCycle(mem, p).dataValid ==> ServedBy(mem, p) == []
  {
    DataCycleServesOldest(mem, p);
    var r := DataCycle(mem, p);
    var pending := PendingAddresses(p);
    var servedNow := ServedBy(mem, p);
    if r.dataValid {
      assert servedNow == [pending[0]];
      assert pending == servedNow + PendingAddresses(r);
      assert served + pending == (served + servedNow) + PendingAddresses(r);
    } else {
      assert servedNow == [];
      assert served + servedNow == served;
    }
  }

  /** The strict FIFO contract over one full read edge (command monitor, then
      data driver). The driver may read a memory the write monitor has just
      changed: the relation is about addresses, whatever memory is read. */
  lemma {:induction false} ReadEdgeInOrder(mem: Memory, p: ReadPort, accepted: seq<ReadCommand>, served: seq<nat>,
                                           read: Sample, address: Sample, burstCount: Sample)
    requires InOrder(p, accepted, served)
    requires CommandCycle(p.queue, read, address, burstCount).Ok?
    ensures var q := p.(queue := CommandCycle(p.queue, read, address, burstCount).value);
      InOrder(DataCycle(mem, q), accepted + Accepted(read, address, burstCount), served + ServedBy(mem, q))
  {
    var q := p.(queue := CommandCycle(p.queue, read, address, burstCount).value);
    CommandEdgeInOrder(p, accepted, served, read, address, burstCount);
    DataEdgeInOrder(mem, q, accepted + Accepted(read, address, burstCount), served);
  }

  /** The value the master samples on one edge: a word when readdatavalid is
      high, nothing otherwise. */
  function Observed(p: ReadPort): Option<nat>
  {
    if p.dataValid then Some(p.data) else None
  }

  /** `n` data-driver edges with no new command; the final port and what the
      master saw on each edge. */
  function RunDriver(mem: Memory, p: ReadPort, n: nat): (ReadPort, seq<Option<nat>>)
    requires WellFormed(p)
    decreases n
  {
    if n == 0 then (p, [])
    else
      var q := DataCycle(mem, p);
      var (f, seen) := RunDriver(mem, q, n - 1);
      (f, [Observed(q)] + seen)
  }

  /** `n + 1` driver edges are one edge followed by `n` more. */
  lemma RunDriverStep(mem: Memory, p: ReadPort, n: nat)
    requires WellFormed(p)
    ensures var q := DataCycle(mem, p);
      RunDriver(mem, p, n + 1) == (RunDriver(mem, q, n).0, [Observed(q)] + RunDriver(mem, q, n).1)
  {
  }

  /** Valid beats carrying `words`, in order. */
  function ValidBeats(words: seq<nat>): seq<Option<nat>>
  {
    seq(|words|, (k: nat) requires k < |words| => Some(words[k]))
  }

  lemma ValidBeatsCons(words: seq<nat>)
    requires words != []
    ensures ValidBeats(words) == [Some(words[0])] + ValidBeats(words[1..])
  {
  }

  /** Serving a command from beat `i` on: exactly one valid beat per remaining
      word of the burst, in order, then one edge with readdatavalid low, after
      which the driver has moved on to the next queued command (or waits). */
  lemma {:induction false} ServeRestOfBurst(mem: Memory, p: ReadPort)
    requires WellFormed(p) && p.phase.Serving?
    ensures var n := p.phase.cmd.burst - p.phase.beat + 1;
      var (f, seen) := RunDriver(mem, p, n);
      && seen == ValidBeats(BurstWords(mem, p.phase.cmd)[p.phase.beat..]) + [None]
      && !f.dataValid
      && f.queue == TakeCommand(p).queue && f.phase == TakeCommand(p).phase
    decreases p.phase.cmd.burst - p.phase.beat
  {
    var cmd, i := p.phase.cmd, p.phase.beat;
    var words := BurstWords(mem, cmd);
    var q := DataCycle(mem, p);
    if i == cmd.burst {
      assert words[i..] == [];
      RunDriverStep(mem, p, 0);
      assert [Observed(q)] + [] == [Observed(q)];
    } else {
      ServeRestOfBurst(mem, q);
      RunDriverStep(mem, p, cmd.burst - i);
      assert q.queue == p.queue;
      assert Observed(q) == Some(words[i]);
      ValidBeatsCons(words[i..]);
      assert words[i..][1..] == words[i + 1..];
    }
  }

  /** A command taken from the queue yields exactly `burst` valid beats,
      beat i carrying the word at `addr + 4*i` (0 if never written), and then
      readdatavalid drops for one edge. */
  lemma ServeBurst(mem: Memory, queue: seq<ReadCommand>, cmd: ReadCommand, data: nat)
    ensures var (f, seen) := RunDriver(mem, ReadPort(queue, Serving(cmd, 0), false, data), cmd.burst + 1);
      seen == ValidBeats(BurstWords(mem, cmd)) + [None] && !f.dataValid
  {
    ServeRestOfBurst(mem, ReadPort(queue, Serving(cmd, 0), false, data));
    assert BurstWords(mem, cmd)[0..] == BurstWords(mem, cmd);
  }

  /** The testbench memory of the pipelined test (`AvalonMemory` with its
      read monitor started). The ghost fields record every command accepted
      and every address served so far. */
  class AvalonMemory {
    var mem: Memory
    var readCmdQueue: seq<ReadCommand>
    var driver: DriverPhase
    var rmReadDataValid: bool
    var rmReadData: nat
    var rmWaitRequest: bool
    var wmWaitRequest: bool
    var burstCnt: nat
    var activeAddr: nat
    ghost var acceptedCommands: seq<ReadCommand>
    ghost var servedAddresses: seq<nat>

    function Port(): ReadPort
      reads this
    {
      ReadPort(readCmdQueue, driver, rmReadDataValid, rmReadData)
    }

    function WriteState(): BurstWrite.WriteSide
      reads this
    {
      BurstWrite.WriteSide(mem, burstCnt, activeAddr)
    }

    ghost predicate Valid()
      reads this
    {
      InOrder(Port(), acceptedCommands, servedAddresses)
    }

    /** A fresh memory with both monitors started: empty memory and queue,
        readdatavalid and readdata driven to 0, the write monitor idle. The
        wait-request lines keep the value the test's reset gave them (1). */
    constructor ()
      ensures Valid()
      ensures mem == map[] && readCmdQueue == [] && driver == AwaitingCommand
      ensures !rmReadDataValid && rmReadData == 0 && rmWaitRequest && wmWaitRequest
      ensures burstCnt == 0 && activeAddr == 0
      ensures acceptedCommands == [] && servedAddresses == []
    {
      mem := map[];
      readCmdQueue := [];
      driver := AwaitingCommand;
      rmReadDataValid := false;
      rmReadData := 0;
      rmWaitRequest := true;
      wmWaitRequest := true;
      burstCnt := 0;
      activeAddr := 0;
      acceptedCommands := [];
      servedAddresses := [];
    }

    /** One edge of `read_command_monitor`: drive waitrequest low and queue
        the sampled command when `rm_read` is high. */
    method ReadCommandMonitor(read: Sample, address: Sample, burstCount: Sample) returns (r: Outcome<BusError>)
      requires Valid()
      modifies this
      ensures Valid()
      ensures !rmWaitRequest
      ensures var c := CommandCycle(old(readCmdQueue), read, address, burstCount);
        && (r.Pass? <==> c.Ok?)
        && (r.Fail? ==> r.error == c.error && readCmdQueue == old(readCmdQueue) && acceptedCommands == old(acceptedCommands))
        && (r.Pass? ==> readCmdQueue == c.value && acceptedCommands == old(acceptedCommands) + Accepted(read, address, burstCount))
      ensures mem == old(mem) && driver == old(driver) && servedAddresses == old(servedAddresses)
      ensures rmReadDataValid == old(rmReadDataValid) && rmReadData == old(rmReadData)
      ensures wmWaitRequest == old(wmWaitRequest) && burstCnt == old(burstCnt) && activeAddr == old(activeAddr)
    {
      rmWaitRequest := false;
      if read.Unresolved? {
        r := Fail(UnresolvedReadCommand);
      } else if High(read) {
        if address.Bits? && burstCount.Bits? {
          CommandEdgeInOrder(Port(), acceptedCommands, servedAddresses, read, address, burstCount);
          readCmdQueue := readCmdQueue + [ReadCommand(address.value, burstCount.value)];
          acceptedCommands := acceptedCommands + Accepted(read, address, burstCount);
          r := Pass;
        } else {
          r := Fail(UnresolvedReadCommand);
        }
      } else {
        r := Pass;
      }
    }

    /** One edge of `read_data_driver`: drive the next beat of the current
        command, or lower readdatavalid after its last beat and take the next
        queued command. Each valid beat serves the oldest address not yet
        served, with the word stored there. */
    method ReadDataDriver()
      requires Valid()
      modifies this
      ensures Valid()
      ensures Port() == DataCycle(mem, old(Port()))
      ensures servedAddresses == old(servedAddresses) + ServedBy(mem, old(Port()))
      ensures rmReadDataValid ==> |servedAddresses| == |old(servedAddresses)| + 1 &&
                                  rmReadData == Load(mem, servedAddresses[|servedAddresses| - 1], 0)
      ensures mem == old(mem) && acceptedCommands == old(acceptedCommands)
      ensures rmWaitRequest == old(rmWaitRequest) && wmWaitRequest == old(wmWaitRequest)
      ensures burstCnt == old(burstCnt) && activeAddr == old(activeAddr)
    {
      ghost var before := Port();
      DataEdgeInOrder(mem, before, acceptedCommands, servedAddresses);
      DriveReadData();
      servedAddresses := servedAddresses + ServedBy(mem, before);
    }

    /** The signal-driving part of `ReadDataDriver`. */
    method DriveReadData()
      requires WellFormed(Port())
      modifies this`readCmdQueue, this`driver, this`rmReadDataValid, this`rmReadData
      ensures Port() == DataCycle(mem, old(Port()))
    {
      match driver
      case AwaitingCommand =>
        if readCmdQueue != [] {
          driver, readCmdQueue := Serving(readCmdQueue[0], 0), readCmdQueue[1..];
        }
      case Serving(cmd, i) =>
        if i < cmd.burst {
          rmReadDataValid, rmReadData := true, Load(mem, BeatAddress(cmd.address, i), 0);
          driver := Serving(cmd, i + 1);
        } else {
          rmReadDataValid := false;
          if readCmdQueue != [] {
            driver, readCmdQueue := Serving(readCmdQueue[0], 0), readCmdQueue[1..];
          } else {
            driver := AwaitingCommand;
          }
        }
    }

    /** One edge of `write_monitor`: drive waitrequest low and take the
        sampled write beat, if any. A beat in the middle of a burst stores its
        word before the burst count is converted, so a failing edge can still
        have stored it. */
    method WriteMonitor(write: Sample, address: Sample, data: Sample, burstCount: Sample) returns (r: Outcome<BusError>)
      requires Valid()
      modifies this
      ensures Valid()
      ensures !wmWaitRequest
      ensures var w := BurstWrite.WriteCycle(old(WriteState()), BurstWrite.WriteBeat(write, address, data, burstCount));
        && (r.Pass? <==> w.Ok?)
        && (r.Fail? ==> r.error == w.error.error && WriteState() == old(WriteState()).(mem := w.error.mem))
        && (r.Pass? ==> WriteState() == w.value)
      ensures Port() == old(Port()) && rmWaitRequest == old(rmWaitRequest)
      ensures acceptedCommands == old(acceptedCommands) && servedAddresses == old(servedAddresses)
    {
      wmWaitRequest := false;
      r := Pass;
      if write.Unresolved? {
        r := Fail(UnresolvedWriteBeat);
      } else if High(write) {
        if !(address.Bits? && data.Bits?) || (burstCnt == 0 && !burstCount.Bits?) {
          r := Fail(UnresolvedWriteBeat);
        } else {
          if burstCnt == 0 {
            activeAddr := address.value;
          }
          mem := mem[BeatAddress(activeAddr, burstCnt) := data.value];
          if !burstCount.Bits? {
            r := Fail(UnresolvedWriteBeat);
          } else {
            burstCnt := burstCnt + 1;
            if burstCnt >= burstCount.value {
              burstCnt := 0;
            }
          }
        }
      }
    }

    /** One rising edge of the whole memory model: the command monitor, the
        write monitor, then the data driver, which reads the memory after
        this edge's write. The first monitor that raises ends the edge. */
    method ClockEdge(rmRead: Sample, rmAddress: Sample, rmBurstCount: Sample,
                     wmWrite: Sample, wmAddress: Sample, wmWriteData: Sample, wmBurstCount: Sample)
      returns (r: Outcome<BusError>)
      requires Valid()
      modifies this
      ensures Valid()
      ensures var c := CommandCycle(old(readCmdQueue), rmRead, rmAddress, rmBurstCount);
        c.Err? ==>
          && r == Fail(c.error) && Port() == old(Port()) && WriteState() == old(WriteState())
          && acceptedCommands == old(acceptedCommands) && servedAddresses == old(servedAddresses)
          && !rmWaitRequest && wmWaitRequest == old(wmWaitRequest)
      ensures var c := CommandCycle(old(readCmdQueue), rmRead, rmAddress, rmBurstCount);
        var w := BurstWrite.WriteCycle(old(WriteState()), BurstWrite.WriteBeat(wmWrite, wmAddress, wmWriteData, wmBurstCount));
        c.Ok? && w.Err? ==>
          && r == Fail(w.error.error) && Port() == old(Port()).(queue := c.value)
          && WriteState() == old(WriteState()).(mem := w.error.mem)
          && acceptedCommands == old(acceptedCommands) + Accepted(rmRead, rmAddress, rmBurstCount)
          && servedAddresses == old(servedAddresses)
          && !rmWaitRequest && !wmWaitRequest
      ensures var c := CommandCycle(old(readCmdQueue), rmRead, rmAddress, rmBurstCount);
        var w := BurstWrite.WriteCycle(old(WriteState()), BurstWrite.WriteBeat(wmWrite, wmAddress, wmWriteData, wmBurstCount));
        c.Ok? && w.Ok? ==>
          && r == Pass && WriteState() == w.value
          && Port() == DataCycle(w.value.mem, old(Port()).(queue := c.value))
          && acceptedCommands == old(acceptedCommands) + Accepted(rmRead, rmAddress, rmBurstCount)
          && servedAddresses == old(servedAddresses) + ServedBy(w.value.mem, old(Port()).(queue := c.value))
          && !rmWaitRequest && !wmWaitRequest
    {
      r := ReadCommandMonitor(rmRead, rmAddress, rmBurstCount);
      if r.Pass? {
        r := WriteMonitor(wmWrite, wmAddress, wmWriteData, wmBurstCount);
        if r.Pass? {
          ReadDataDriver();
        }
      }
    }
  }
}
