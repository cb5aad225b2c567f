# Burst-master testbench memory models in Dafny

The burst-copy engine is checked by cocotb testbenches. Each one attaches an
`AvalonMemory` object to the engine's two Avalon-MM master ports: a sparse
word memory that acts as an Avalon-MM slave. The engine reads a source
region through its read master and writes a destination region through its
write master. The test fills the source first. It waits for the engine's
done indication under a timeout, then compares the destination word by word
against the expected data.

This project models those slave memories and the test-level checks. Each
cocotb coroutine is modelled as one step per rising clock edge, with the
sampled bus signals passed in as parameters:

- `Bus` (bus.dfy): the shared vocabulary.
  - `Sample` is a sampled signal value; `Unresolved` stands for X/Z bits, on which `int()` raises.
  - `High` is a one-bit strobe compared with 1. The comparison raises on X/Z like `int()` does, so the strobes `rm_read` and `wm_write` are samples too.
  - The sparse memory is a `map<nat, nat>`, where `mem.get(a, d)` becomes `Load`.
  - Read commands are defined here.
  - `StoreWords` stores consecutive words, with its read-back lemmas.
- `BurstWrite` (burst_write.dfy): `write_monitor`, the same in both testbenches. The engine holds `wm_address` at the burst's start for the whole burst. The slave latches that start address and stores beat k at start + 4k. The module proves that this reassembles a transfer cut into bursts.
- `PipelinedSlave` (pipelined_slave.dfy): the memory model of `tests/cocotb/tb_burst_master.py`.
  - A command monitor queues every sampled read command.
  - A data driver serves the queue in order, one beat per edge.
  - The class `AvalonMemory` updates its fields in place. Ghost fields record every command accepted and every address served.
  - Its methods keep the FIFO relation: all accepted commands' addresses, in order, are the served ones followed by the pending ones.
- `SingleOutstandingSlave` (single_outstanding_slave.dfy): the memory model of `tests/cocotb/tb_burst_master_2.py`. It accepts one command with waitrequest low, then holds waitrequest high through the whole data phase, and releases it after the last beat.
- `Testbench` (testbench.dfy): the tests' own loops.
  - The source fill and the recording of the expected data.
  - The destination check, including the 32-bit truncation of the processing test.
  - The status-register polling of `tb_burst_master.py` and the `ctrl_done` wait of `tb_burst_master_2.py`, both under their timeouts.
  - End-to-end lemmas: the engine's bursts read back the fill pattern, a correct write-back passes the check, and a missing write fails it.

Edge ordering:

- Pipelined slave: the command monitor, then the write monitor, then the data driver. Once the driver has been woken by a command put on the queue, it waits for each edge behind the write monitor. So a beat it drives reads the memory after that edge's write. A driver waiting on the queue takes a command queued at the same edge, and the first beat of that command follows at the next edge.
- Single-outstanding slave: the read monitor, then the write monitor, the order in which the test starts them.
- When a monitor raises, that edge ends with the error.

## Model

| member | source | states |
|---|---|---|
| BurstWrite.WriteCycle | tests/cocotb/tb_burst_master.py:90-143 | With `wm_write` sampled as 0, nothing changes: memory, `burst_cnt` and `active_addr` stay as they were. An X/Z `wm_write` raises, because comparing it with 1 converts it. A write beat with the strobe at 1 fails exactly when its address, data or burst count is X/Z. A failure reports the memory as it is when the monitor raises. That is the old memory, with one exception: a beat in the middle of a burst (`burst_cnt != 0`) whose address and data resolve has already stored its word when its X/Z burst count raises. On the first beat (`burst_cnt == 0`) the sampled address is latched; later beats ignore it. The beat's data lands at `active_addr + 4*burst_cnt` and no other entry changes. The counter goes up by one and wraps to 0 exactly when it reaches the sampled burst count, so it stays below a burst count of at least 1. The monitor at tests/cocotb/tb_burst_master_2.py:62-115 is identical. |
| BurstWrite.CounterStaysInBurst | tests/cocotb/tb_burst_master.py:136-138 | With a constant burst count of at least 1, `burst_cnt` stays in [0, count) over any mix of write and idle edges. |
| BurstWrite.ContinueBurst | tests/cocotb/tb_burst_master.py:131-138 | In a burst already under way, the remaining beats store their words at consecutive words after the latched address, whatever address they carry. The counter wraps to 0 exactly when the burst completes. |
| BurstWrite.WholeBurst | tests/cocotb/tb_burst_master.py:125-138 | A burst from an idle monitor stores its words at consecutive words from the first beat's address. After `count` beats the monitor is idle again; a shorter run leaves the counter at the number of beats seen. |
| BurstWrite.BurstBeats | tests/cocotb/tb_burst_master.py:116-119 | The engine's beats for one burst: write high on every beat, the address held at the burst's start, and the words carried in order. |
| BurstWrite.TransferReassembled | tests/cocotb/tb_burst_master.py:121-123 | Burst-start addressing works end to end. A transfer cut into bursts of `count` words, each burst addressed at its start, runs without error. It leaves exactly the memory that storing all its words at consecutive destination words would give. |
| PipelinedSlave.CommandCycle | tests/cocotb/tb_burst_master.py:56-60 | An edge with `rm_read` at 1 appends exactly one `(address, burstcount)` command behind all earlier ones. An edge with `rm_read` at any other resolved value leaves the queue unchanged. An X/Z `rm_read`, address or burst count raises. |
| PipelinedSlave.TakeCommand | tests/cocotb/tb_burst_master.py:74-75 | Takes the oldest queued command and starts serving it at beat 0. With an empty queue the driver waits. readdatavalid and readdata are not touched. |
| PipelinedSlave.DataCycle | tests/cocotb/tb_burst_master.py:68-87 | One data-driver edge. A valid beat carries the word at the current command's next beat address, reading 0 if that word was never written. The queue changes only by losing its front command. The edge after the last beat lowers readdatavalid. The port's shape is preserved. |
| PipelinedSlave.DataCycleServesOldest | tests/cocotb/tb_burst_master.py:73-87 | A data edge either serves the oldest pending address, driving the word stored there and leaving the rest pending, or serves nothing and leaves the pending addresses unchanged. |
| PipelinedSlave.CommandEdgeInOrder | tests/cocotb/tb_burst_master.py:56-60 | A command edge keeps the FIFO relation: the accepted command's whole burst goes behind everything already pending. |
| PipelinedSlave.QueueCommandInOrder | tests/cocotb/tb_burst_master.py:60 | Putting one command at the back of the queue keeps the FIFO relation, with the command recorded as accepted after all earlier ones. |
| PipelinedSlave.DataEdgeInOrder | tests/cocotb/tb_burst_master.py:73-87 | A data edge keeps the FIFO relation. A valid beat serves exactly the oldest address not yet served, with its stored word; an edge without a valid beat serves nothing. |
| PipelinedSlave.ReadEdgeInOrder | tests/cocotb/tb_burst_master.py:16-19 | A whole read edge (command monitor, then data driver) keeps the strict FIFO relation between accepted commands and served addresses, whatever memory the driver reads, so also when the write monitor has just changed it. |
| PipelinedSlave.ServeRestOfBurst | tests/cocotb/tb_burst_master.py:80-87 | From beat i of a command: one valid beat per remaining word, in order, then one edge with readdatavalid low. After that the driver has moved on to the next queued command, or waits. |
| PipelinedSlave.ServeBurst | tests/cocotb/tb_burst_master.py:74-87 | A command taken from the queue yields exactly `burst` valid beats. Beat i carries `mem[addr + 4*i]`, or 0 if unwritten. Then readdatavalid drops. |
| PipelinedSlave.AvalonMemory.constructor | tests/cocotb/tb_burst_master.py:8-19 | A fresh memory with both monitors started: empty memory and queue, and readdatavalid and readdata at 0. The wait-request lines stay at the reset value of 1. No commands have been accepted or served yet. |
| PipelinedSlave.AvalonMemory.ReadCommandMonitor | tests/cocotb/tb_burst_master.py:21-60 | Drives waitrequest low, then queues the command as `CommandCycle` does, raising where it raises. Accepted commands are recorded, the FIFO relation is kept, and nothing else changes. |
| PipelinedSlave.AvalonMemory.ReadDataDriver | tests/cocotb/tb_burst_master.py:68-87 | The port moves as `DataCycle` says and the FIFO relation is kept. A valid beat adds exactly one served address, and readdata is the word stored there. Memory, accepted commands and write state are unchanged. |
| PipelinedSlave.AvalonMemory.DriveReadData | tests/cocotb/tb_burst_master.py:73-87 | The in-place update of queue, driver phase and data signals equals `DataCycle` on the old port. |
| PipelinedSlave.AvalonMemory.WriteMonitor | tests/cocotb/tb_burst_master.py:90-143 | Drives waitrequest low. On success the write state moves as `WriteCycle` says. On a raise, counter and latched address are unchanged and the memory is the one `WriteCycle` reports, which holds the word of a mid-burst beat stored before its burst count raised. The read port and FIFO record are untouched. |
| PipelinedSlave.AvalonMemory.ClockEdge | tests/cocotb/tb_burst_master.py:16-19 | One edge runs the command monitor, the write monitor, then the data driver, and stops at the first raise. If the command raises, only the read waitrequest changes: it is driven low, and the write waitrequest keeps its value. If the write beat raises, the command is queued and recorded, the write state is as `WriteCycle` reports, nothing is served, and both waitrequests are low. A passing edge queues and records the command, applies the write beat, and steps the driver over the new queue, reading the memory after this edge's write. The served addresses grow by what that step serves, both waitrequests end low, and the FIFO relation is kept. |
| SingleOutstandingSlave.ReadCycle | tests/cocotb/tb_burst_master_2.py:16-59 | An idle listening edge (`rm_read` resolved but not 1) drives readdatavalid, readdata and waitrequest to 0. While listening, an X/Z `rm_read` raises, and a request raises exactly when its address or burst count is X/Z. Otherwise the request is captured with waitrequest 0 for that acceptance edge. Away from listening the request lines are not sampled. The edge after acceptance raises waitrequest. Each data edge drives the next word, or 0 if unwritten. The edge after the last beat lowers readdatavalid and releases waitrequest. The port's shape is preserved. |
| SingleOutstandingSlave.BusyIgnoresRequests | tests/cocotb/tb_burst_master_2.py:38-57 | While a command is outstanding, the edge does not depend on the request lines, so at most one command is outstanding at a time. |
| SingleOutstandingSlave.DataPhase | tests/cocotb/tb_burst_master_2.py:46-57 | From beat i: one valid beat per remaining word, in order, with waitrequest high. Then one edge with readdatavalid and waitrequest low, back to listening. |
| SingleOutstandingSlave.ReadTransaction | tests/cocotb/tb_burst_master_2.py:27-57 | A whole transaction takes `burst + 3` edges. The acceptance edge has waitrequest 0. Waitrequest is then high from the next edge through the last beat, and the `burst` words come back in order. The final edge lowers readdatavalid and releases waitrequest. |
| SingleOutstandingSlave.AvalonMemory.constructor | tests/cocotb/tb_burst_master_2.py:8-14 | A fresh memory: empty and listening. The wait-request lines stay at the reset value of 1 (tests/cocotb/tb_burst_master_2.py:126-129). Nothing drives readdatavalid and readdata before the read monitor's first edge, which drives both to 0, so the 0 they hold here stands for "not yet driven". |
| SingleOutstandingSlave.AvalonMemory.ReadMonitor | tests/cocotb/tb_burst_master_2.py:16-59 | The port moves as `ReadCycle` says. On a raise, readdatavalid and readdata have already been lowered and nothing else changes. The write state is untouched. |
| SingleOutstandingSlave.AvalonMemory.WriteMonitor | tests/cocotb/tb_burst_master_2.py:62-115 | Drives waitrequest low. On success the write state moves as `WriteCycle` says. On a raise, counter and latched address are unchanged and the memory is the one `WriteCycle` reports, which holds the word of a mid-burst beat stored before its burst count raised. The read port is untouched. |
| SingleOutstandingSlave.AvalonMemory.ClockEdge | tests/cocotb/tb_burst_master_2.py:151-152 | One edge runs the read monitor, then the write monitor, and stops at the first raise. If the read monitor raises, readdatavalid and readdata are already 0, while the read waitrequest, the write waitrequest and the write state keep their values. If the write beat raises, the read port is as `ReadCycle` says, the write state is as `WriteCycle` reports, and the write waitrequest is low. A passing edge is `ReadCycle` followed by `WriteCycle`, with write waitrequest low. |
| Testbench.FillSource | tests/cocotb/tb_burst_master.py:210-214 | For a transfer of `totalBytes`, records ceil(totalBytes/4) expected words, word k being `(first + k) * coeff`. The source region then holds `first + k` at `src + 4k`, stored in order over the old memory. The copy tests (first 0xA000, coefficient 1, 512 words) are here and at tests/cocotb/tb_burst_master_2.py:144-148. The processing test (tests/cocotb/tb_burst_master.py:332-336) stores `10 + k` and expects `(10 + k) * 3`. |
| Testbench.Expect | tests/cocotb/tb_burst_master.py:369 | With truncation, the expected word is below 2^32 and equal to the value modulo 2^32. Without it, the value itself. |
| Testbench.VerifyDestination | tests/cocotb/tb_burst_master.py:266-272 | The check passes iff every destination word `dst + 4k` equals expected word k, reading unwritten words as 0. Otherwise it fails at the first mismatching word, reporting its address, the expected word and the word read. The processing test (tests/cocotb/tb_burst_master.py:367-373) compares against `expected & 0xFFFFFFFF`. The single-outstanding testbench (tests/cocotb/tb_burst_master_2.py:174-180) reads unwritten words as 0xFFFFFFFF. |
| Testbench.PollForDone | tests/cocotb/tb_burst_master.py:243-256 | The status register is polled only on iterations where the decremented timeout is a multiple of 10. The loop succeeds iff some such iteration sees the done bit, and returns the first one. Otherwise it fails with a timeout once the timeout reaches 0. The processing test (tests/cocotb/tb_burst_master.py:353-362) runs the same loop with a budget of 5000. |
| Testbench.PollSchedule | tests/cocotb/tb_burst_master.py:246-253 | With a budget that is a multiple of 10, iteration n reads the status register iff n is below the budget and n mod 10 is 9: every tenth edge, from the tenth through the edge on which the timeout expires. |
| Testbench.TestPollSchedules | tests/cocotb/tb_burst_master.py:243-249 | The polling schedule holds for the copy test's budget of 10000 and for the processing test's budget of 5000 (tests/cocotb/tb_burst_master.py:353-357). |
| Testbench.PollSeesDone | tests/cocotb/tb_burst_master.py:246-253 | A done bit that is set at some edge before the timeout and stays set for ten edges is seen by a poll within those ten edges. Polling therefore notices done at most nine edges late and never misses it. |
| Testbench.WaitForCtrlDone | tests/cocotb/tb_burst_master_2.py:164-169 | Succeeds iff `ctrl_done` is seen at some edge count below the timeout, and returns the first such count. Otherwise it fails with a timeout. |
| Testbench.TransferPassesCheck | tests/cocotb/tb_burst_master.py:263-272 | If the engine writes the expected words in bursts addressed at their start, the write monitor accepts every beat. Every destination word then matches, whatever the memory held before and however unwritten words read. With truncation this covers the processing test (tests/cocotb/tb_burst_master.py:366-373). |
| Testbench.MissingWriteFails | tests/cocotb/tb_burst_master_2.py:174-180 | A copy-test destination word that was never written fails the check. This holds whether unwritten words read as 0xFFFFFFFF or as 0, because no expected word `0xA000 + k` equals either. |
| Testbench.MasterReadsCoverSource | tests/cocotb/tb_burst_master.py:205-208 | `n` read bursts of `count` words, each starting where the previous one ended, cover exactly the `n * count` source words, in order. |
| Testbench.SourceReadsReturnPattern | tests/cocotb/tb_burst_master.py:211-214 | Over the filled source, the words at the addresses of those read bursts are the fill pattern `first + k`, word for word. `ServedWordsFollowPattern` carries this through the pipelined slave's FIFO relation. |
| Testbench.ServedWordsFollowPattern | tests/cocotb/tb_burst_master.py:80-84 | Suppose the commands the pipelined slave has accepted are the engine's read bursts over the source. Suppose also that the memory the driver reads still holds the filled word at every source word, so no write has landed in the source region. Then a valid beat carries the next word of the fill pattern: `first` plus the number of addresses served before it. That number is below the number of source words. |
| Testbench.SourceSurvives | tests/cocotb/tb_burst_master.py:205-214 | After the source fill, storing any words from a destination at or above the end of the source leaves every source word as filled. |
| Testbench.ScenarioChecksOut | tests/cocotb/tb_burst_master.py:204-272 | A test run on the memory. The source is filled, then the engine writes the expected words (each unchanged by the check's truncation) to a destination above the source, in start-addressed bursts. The write-back runs without error, every destination word passes the check, and the source is still as filled. |
| Testbench.CopyTestChecksOut | tests/cocotb/tb_burst_master.py:204-272 | The copy test on the memory. After the fill of 512 words `0xA000 + k` at 0x1000, the engine writing those words to 0x5000 in bursts of 256 runs without error. Every destination word then passes the check, whether unwritten words read as 0 or as 0xFFFFFFFF (tests/cocotb/tb_burst_master_2.py:174-180). The source words are still as filled, because the source lies below the destination. |
| Testbench.ProcessingExpected | tests/cocotb/tb_burst_master.py:333-336 | The processing test expects 256 words, word k being source word `10 + k` times the coefficient 3. |
| Testbench.ProcessingWordsFit | tests/cocotb/tb_burst_master.py:369 | Every word the processing test expects is below 2^32, so `& 0xFFFFFFFF` leaves it unchanged. |
| Testbench.ProcessingTestChecksOut | tests/cocotb/tb_burst_master.py:326-373 | The processing test on the memory. Every expected word fits in 32 bits, so the check's `& 0xFFFFFFFF` changes none of them. The engine writing them to 0x6000 in one burst runs without error, and every destination word passes the check. The source words at 0x2000 are still as filled. |

## Left out

- cocotb scheduling, coroutines, the clock and the reset sequence are not modelled. Each monitor is a step per rising edge, and the tests' sequencing is replaced by the fixed edge order described above.
- The random waitrequest at tests/cocotb/tb_burst_master.py:29-32 is not modelled, because line 51 unconditionally drives waitrequest to 0 before anything samples it.
- Logging is not modelled.
- The `write_csr` / `read_csr` helpers (tests/cocotb/tb_burst_master.py:170-202) and the CSR register file are not modelled. Status polling takes the done bit the poll reads as an input sequence indexed by loop iteration; later iterations read 0. The CSR read's extra edges are not counted.
- The burst-copy engine's RTL (`burst_master.v`, `simple_fifo.v`, `stream_processor.v`) is not part of this model. Its behaviour on the write port (bursts addressed at their start) and on the read port (whole bursts of `count` words) is assumed in `BurstWrite.MasterWrites`, `Testbench.MasterReads` and the lemmas built on them.
- software/cust_inst_app/main.c, the other cocotb testbenches and the test runners are not part of this model.
- Testbench.PollForDone: requires a timeout of at least 1; the tests use 10000 and 5000. With 0 the source never times out: Python's floored `%` makes the timeout go negative, the status is still polled at every multiple of 10 (-10, -20, ...), and the loop ends only when done is seen. That case is not modelled.
- Testbench.WaitForCtrlDone: requires a timeout of at least 1, like `PollForDone`. `ctrl_done` is taken as a bool, so the X/Z case of the `== 0` comparison is not modelled.
- Testbench.PollForDone: the status read's `int(status) & 1` is taken as the done bit; an X/Z status, which would raise, is not modelled.
- Testbench.FillSource: the copy test records the value itself, which is modelled as a coefficient of 1.
- PipelinedSlave.ServeBurst and the other multi-edge read lemmas keep the memory fixed across the edges they cover. A write landing mid-burst is covered only edge by edge, by `DataCycle` and the FIFO relation, which are stated over addresses.
- When a monitor raises, cocotb fails the running test. The model ends the edge with that error and says nothing about later edges. The failing coroutine's local `burst_cnt` and `active_addr` are lost with it; the class methods leave those two fields unchanged on a raise.
- The memory's `size` attribute is never used by the source and is not modelled.
