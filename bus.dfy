/** Shared vocabulary of the Avalon-MM slave models that the burst-master
    testbenches attach to the engine: signal values sampled at a clock edge,
    the sparse word memory, read commands, and the memory layout of a burst. */
module Bus {

  /** Bytes per bus word: beat k of a burst lives `WordBytes * k` bytes after
      the burst's start address. */
  const WordBytes: nat := 4

  /** 2^32: `x & 0xFFFFFFFF` on a non-negative integer is `x % WordModulus`. */
  const WordModulus: nat := 0x1_0000_0000

  /** The testbench memory: a sparse dictionary from byte address to word. */
  type Memory = map<nat, nat>

  /** A bus signal sampled at a rising edge. Converting it to an integer
      succeeds for `Bits` and fails (a `ValueError`) when the vector holds X
      or Z bits, which is `Unresolved`. */
  datatype Sample = Bits(value: nat) | Unresolved

  /** A one-bit strobe compared with `== 1`: it holds when it samples as 1.
      Comparing an X or Z strobe raises like `int()` does, so the callers
      treat `Unresolved` separately. */
  predicate High(s: Sample)
  {
    s == Bits(1)
  }

  datatype Option<T> = None | Some(value: T)

  datatype Result<T, E> = Ok(value: T) | Err(error: E)

  datatype Outcome<E> = Pass | Fail(error: E)

  /** The slave models raise when a signal they must convert is unresolved. */
  datatype BusError = UnresolvedReadCommand | UnresolvedWriteBeat

  /** One address-phase read request: one command is one burst. */
  datatype ReadCommand = ReadCommand(address: nat, burst: nat)

  /** The byte address of beat `k` of a burst that starts at `base`. */
  function BeatAddress(base: nat, k: nat): nat
  {
    base + WordBytes * k
  }

  /** `mem.get(addr, absent)`. */
  function Load(mem: Memory, addr: nat, absent: nat): nat
  {
    if addr in mem then mem[addr] else absent
  }

  /** The addresses a read command covers, in beat order. */
  function BurstAddresses(cmd: ReadCommand): seq<nat>
  {
    seq(cmd.burst, (k: nat) => BeatAddress(cmd.address, k))
  }

  /** The words a read command returns, in beat order; an address that was
      never written reads as 0. */
  function BurstWords(mem: Memory, cmd: ReadCommand): seq<nat>
  {
    seq(cmd.burst, (k: nat) => Load(mem, BeatAddress(cmd.address, k), 0))
  }

  /** The addresses of a sequence of read commands, command after command. */
  function CommandAddresses(cmds: seq<ReadCommand>): seq<nat>
  {
    if cmds == [] then [] else BurstAddresses(cmds[0]) + CommandAddresses(cmds[1..])
  }

  lemma {:induction false} CommandAddressesAppend(a: seq<ReadCommand>, b: seq<ReadCommand>)
    ensures CommandAddresses(a + b) == CommandAddresses(a) + CommandAddresses(b)
  {
    if a == [] {
      assert a + b == b;
    } else {
      assert (a + b)[0] == a[0];
      assert (a + b)[1..] == a[1..] + b;
      CommandAddressesAppend(a[1..], b);
    }
  }

  /** The memory after storing `words` one after another at consecutive word
      addresses from `base`, in order. */
  function StoreWords(mem: Memory, base: nat, words: seq<nat>): Memory
    decreases |words|
  {
    if words == [] then mem else StoreWords(mem[base := words[0]], base + WordBytes, words[1..])
  }

  /** Reading back after `StoreWords`: a word address inside the stored range
      gives its word, every other address is as it was. */
  lemma {:induction false} StoreWordsLoad(mem: Memory, base: nat, words: seq<nat>, a: nat, absent: nat)
    ensures Load(StoreWords(mem, base, words), a, absent) ==
      if base <= a < base + WordBytes * |words| && (a - base) % WordBytes == 0
      then words[(a - base) / WordBytes]
      else Load(mem, a, absent)
    decreases |words|
  {
    if words != [] {
      StoreWordsLoad(mem[base := words[0]], base + WordBytes, words[1..], a, absent);
      if base + WordBytes <= a < base + WordBytes * |words| && (a - base) % WordBytes == 0 {
        assert (a - (base + WordBytes)) / WordBytes == (a - base) / WordBytes - 1;
      }
    }
  }

  /** Consequence of `StoreWordsLoad` at the stored addresses themselves. */
  lemma StoreWordsAt(mem: Memory, base: nat, words: seq<nat>, k: nat, absent: nat)
    requires k < |words|
    ensures Load(StoreWords(mem, base, words), BeatAddress(base, k), absent) == words[k]
  {
    StoreWordsLoad(mem, base, words, BeatAddress(base, k), absent);
    assert (BeatAddress(base, k) - base) / WordBytes == k;
  }

  /** Storing two runs back to back is storing their concatenation. */
  lemma {:induction false} StoreWordsAppend(mem: Memory, base: nat, x: seq<nat>, y: seq<nat>)
    ensures StoreWords(mem, base, x + y) == StoreWords(StoreWords(mem, base, x), BeatAddress(base, |x|), y)
    decreases |x|
  {
    if x == [] {
      assert x + y == y;
    } else {
      assert (x + y)[0] == x[0];
      assert (x + y)[1..] == x[1..] + y;
      StoreWordsAppend(mem[base := x[0]], base + WordBytes, x[1..], y);
    }
  }
}
