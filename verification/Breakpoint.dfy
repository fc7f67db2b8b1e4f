/**
  The software breakpoint: INT3 over the first byte of the hook, run, rewind, restore. The tracee
  is a deterministic machine over byte memory whose instruction set is a parameter.
 */
module Breakpoint {
  import opened Bytes

  const INT3: byte := 0xCC

  // ------------------------------------------------------------------ the tracee

  datatype Machine<R> = Machine(regs: R, ip: nat, mem: map<nat, byte>)

  /** What one instruction, or the system call it makes, does. */
  datatype Effect<R> = Step(regs: R, ip: nat, unmapped: set<nat>, stores: map<nat, byte>) | Exit

  /** An instruction set: the addresses an instruction is fetched from or loads, and its effect. */
  datatype Cpu<!R> = Cpu(touches: Machine<R> -> set<nat>, execute: Machine<R> -> Effect<R>)

  ghost predicate SameOn(m: map<nat, byte>, n: map<nat, byte>, addresses: set<nat>) {
    forall a :: a in addresses ==> (a in m <==> a in n) && (a in m ==> m[a] == n[a])
  }

  /** An instruction depends on memory only through the addresses it touches. */
  ghost predicate Local<R(!new)>(cpu: Cpu<R>) {
    forall s: Machine<R>, t: Machine<R> ::
      s.regs == t.regs && s.ip == t.ip && SameOn(s.mem, t.mem, cpu.touches(s))
      ==> cpu.execute(s) == cpu.execute(t)
  }

  datatype Status<R> = Running(m: Machine<R>) | Trapped(m: Machine<R>) | Exited

  /** One instruction; INT3 stops the machine with the instruction pointer behind it. */
  function Advance<R>(cpu: Cpu<R>, s: Machine<R>): Status<R> {
    if s.ip in s.mem && s.mem[s.ip] == INT3 then Trapped(s.(ip := s.ip + 1))
    else match cpu.execute(s)
      case Exit => Exited
      case Step(regs, ip, unmapped, stores) => Running(Machine(regs, ip, (s.mem - unmapped) + stores))
  }

  function Run<R>(cpu: Cpu<R>, s: Machine<R>, n: nat): Status<R>
    decreases n
  {
    if n == 0 then Running(s)
    else match Advance(cpu, s)
      case Running(t) => Run(cpu, t, n - 1)
      case Trapped(t) => Trapped(t)
      case Exited => Exited
  }

  lemma {:induction false} TrapIsBehindInt3<R>(cpu: Cpu<R>, s: Machine<R>, n: nat)
    ensures Run(cpu, s, n).Trapped? ==> Run(cpu, s, n).m.ip > 0
    decreases n
  {
    if n > 0 && Advance(cpu, s).Running? {
      TrapIsBehindInt3(cpu, Advance(cpu, s).m, n - 1);
    }
  }

  // ------------------------------------------------------------------ words in memory

  predicate Mapped(mem: map<nat, byte>, a: nat, n: nat) { forall i :: a <= i < a + n ==> i in mem }

  function BytesAt(mem: map<nat, byte>, a: nat, n: nat): (s: seq<byte>)
    requires Mapped(mem, a, n)
    ensures |s| == n
    decreases n
  {
    if n == 0 then [] else [mem[a]] + BytesAt(mem, a + 1, n - 1)
  }

  lemma {:induction false} ByteAt(mem: map<nat, byte>, a: nat, n: nat, i: nat, x: nat)
    requires Mapped(mem, a, n) && i < n && x == a + i
    ensures BytesAt(mem, a, n)[i] == mem[x]
    decreases n
  {
    if i > 0 {
      ByteAt(mem, a + 1, n - 1, i - 1, x);
    }
  }

  function StoreBytes(mem: map<nat, byte>, a: nat, s: seq<byte>): (r: map<nat, byte>)
    decreases |s|
  {
    if s == [] then mem else StoreBytes(mem[a := s[0]], a + 1, s[1..])
  }

  /** One address after a store. */
  lemma {:induction false} StoredAt(mem: map<nat, byte>, a: nat, s: seq<byte>, x: nat)
    ensures x in StoreBytes(mem, a, s) <==> x in mem || a <= x < a + |s|
    ensures x in StoreBytes(mem, a, s) ==> StoreBytes(mem, a, s)[x] == if a <= x < a + |s| then s[x - a] else mem[x]
    decreases |s|
  {
    if s != [] {
      StoredAt(mem[a := s[0]], a + 1, s[1..], x);
    }
  }

  lemma StoredByte(mem: map<nat, byte>, a: nat, s: seq<byte>, i: nat, x: nat)
    requires i < |s| && x == a + i
    ensures x in StoreBytes(mem, a, s) && StoreBytes(mem, a, s)[x] == s[i]
  {
    StoredAt(mem, a, s, x);
  }

  /** Storing the bytes that `target` has in that place turns `mem` into `target`. */
  lemma StoreReaches(mem: map<nat, byte>, a: nat, s: seq<byte>, target: map<nat, byte>)
    requires Mapped(target, a, |s|) && BytesAt(target, a, |s|) == s
    requires forall x :: !(a <= x < a + |s|) ==> (x in mem <==> x in target) && (x in mem ==> mem[x] == target[x])
    ensures StoreBytes(mem, a, s) == target
  {
    forall x: nat
      ensures x in StoreBytes(mem, a, s) <==> x in target
      ensures x in target ==> StoreBytes(mem, a, s)[x] == target[x]
    {
      StoredAt(mem, a, s, x);
      if a <= x < a + |s| {
        ByteAt(target, a, |s|, x - a, x);
      }
    }
  }

  /** `PLACE_INT3_IN_FIRST_BYTE`: the low byte cleared and replaced. */
  function PlaceInt3(word: nat): nat { word - word % 0x100 + INT3 }

  function Arm(mem: map<nat, byte>, hook: nat): map<nat, byte> { mem[hook := INT3] }

  /** Poking the patched word changes exactly one byte of memory. */
  lemma ArmChangesOneByte(mem: map<nat, byte>, hook: nat, width: nat)
    requires width > 0 && Mapped(mem, hook, width)
    ensures StoreBytes(mem, hook, LittleEndian(width, PlaceInt3(Value(BytesAt(mem, hook, width))))) == Arm(mem, hook)
    ensures Arm(mem, hook) == mem[hook := 0xCC]
  {
    var s := BytesAt(mem, hook, width);
    LittleEndianOfValue(s);
    PatchedBytes(s);
    var patched, armed := [INT3] + s[1..], Arm(mem, hook);
    forall i | 0 <= i < width
      ensures BytesAt(armed, hook, width)[i] == patched[i]
    {
      ByteAt(armed, hook, width, i, hook + i);
      ByteAt(mem, hook, width, i, hook + i);
    }
    StoreReaches(mem, hook, patched, armed);
  }

  lemma ArmMapsNothing(mem: map<nat, byte>, hook: nat, width: nat)
    requires hook in mem && Mapped(Arm(mem, hook), hook, width)
    ensures Mapped(mem, hook, width)
  {
    forall i | hook <= i < hook + width ensures i in mem {
      assert i in Arm(mem, hook);
    }
  }

  lemma LowByteFirst(n: nat, v: nat, low: byte, high: nat)
    requires v == 0x100 * high + low
    ensures LittleEndian(n + 1, v) == [low] + LittleEndian(n, high)
  {
    assert v % 0x100 == low && v / 0x100 == high;
  }

  lemma LowByteOf(word: nat, low: byte, high: nat)
    requires word == low + 0x100 * high
    ensures PlaceInt3(word) == 0x100 * high + INT3
  {
    assert word % 0x100 == low;
  }

  lemma TailBytes(s: seq<byte>, n: nat)
    requires |s| == n + 1
    ensures LittleEndian(n, Value(s[1..])) == s[1..]
  {
    LittleEndianOfValue(s[1..]);
  }

  lemma PatchedBytes(s: seq<byte>)
    requires s != []
    ensures LittleEndian(|s|, PlaceInt3(Value(s))) == [INT3] + s[1..]
  {
    var word, high, n := Value(s), Value(s[1..]), |s| - 1;
    TailBytes(s, n);
    var patched := PlaceInt3(word);
    LowByteOf(word, s[0], high);
    LowByteFirst(n, patched, INT3, high);
  }

  lemma SameBytes(m: map<nat, byte>, n: map<nat, byte>, a: nat, width: nat)
    requires Mapped(m, a, width) && Mapped(n, a, width)
    requires forall x :: a <= x < a + width ==> m[x] == n[x]
    ensures BytesAt(m, a, width) == BytesAt(n, a, width)
  {
    forall i | 0 <= i < width
      ensures BytesAt(m, a, width)[i] == BytesAt(n, a, width)[i]
    {
      ByteAt(m, a, width, i, a + i);
      ByteAt(n, a, width, i, a + i);
    }
  }

  /**
    Poking the saved word back, after any writes and unmappings outside the word, gives the
    memory that would have resulted had the breakpoint never been armed.
   */
  lemma RestoreUndoesArm(mem: map<nat, byte>, hook: nat, width: nat, unmapped: set<nat>, stores: map<nat, byte>)
    requires width > 0 && Mapped(mem, hook, width)
    requires forall x :: hook <= x < hook + width ==> x !in stores && x !in unmapped
    ensures var saved := LittleEndian(width, Value(BytesAt(mem, hook, width)));
            StoreBytes((Arm(mem, hook) - unmapped) + stores, hook, saved) == (mem - unmapped) + stores
  {
    var saved, after := BytesAt(mem, hook, width), (mem - unmapped) + stores;
    LittleEndianOfValue(saved);
    SameBytes(mem, after, hook, width);
    StoreReaches((Arm(mem, hook) - unmapped) + stores, hook, saved, after);
  }

  /** What poking a word leaves, compared with memory that was never patched. */
  lemma RestoreIffSameWord(mem: map<nat, byte>, hook: nat, saved: seq<byte>)
    requires |saved| > 0 && Mapped(mem, hook, |saved|)
    ensures StoreBytes(Arm(mem, hook), hook, saved) == mem <==> BytesAt(mem, hook, |saved|) == saved
  {
    var bytes := BytesAt(mem, hook, |saved|);
    if bytes == saved {
      StoreReaches(Arm(mem, hook), hook, saved, mem);
    }
    if StoreBytes(Arm(mem, hook), hook, saved) == mem {
      forall i | 0 <= i < |saved|
        ensures bytes[i] == saved[i]
      {
        var x := hook + i;
        StoredByte(Arm(mem, hook), hook, saved, i, x);
        ByteAt(mem, hook, |saved|, i, x);
      }
    }
  }

  // ------------------------------------------------------------------ transparency

  /**
    The plain run from `s` first arrives at the hook after `n` instructions, and no instruction
    before that is fetched from, loads, stores to or unmaps the hook byte.
   */
  ghost predicate Undisturbed<R>(cpu: Cpu<R>, s: Machine<R>, hook: nat, n: nat)
    decreases n
  {
    if n == 0 then s.ip == hook
    else
      && s.ip != hook
      && hook !in cpu.touches(s)
      && Advance(cpu, s).Running?
      && hook !in cpu.execute(s).stores && hook !in cpu.execute(s).unmapped
      && Undisturbed(cpu, Advance(cpu, s).m, hook, n - 1)
  }

  function Armed<R>(s: Machine<R>, hook: nat): Machine<R> { s.(mem := Arm(s.mem, hook)) }

  lemma ArmedAdvance<R(!new)>(cpu: Cpu<R>, s: Machine<R>, hook: nat)
    requires Local(cpu)
    requires s.ip != hook && hook !in cpu.touches(s) && Advance(cpu, s).Running?
    requires hook !in cpu.execute(s).stores && hook !in cpu.execute(s).unmapped
    ensures Advance(cpu, Armed(s, hook)) == Running(Armed(Advance(cpu, s).m, hook))
  {
    var t := Armed(s, hook);
    assert SameOn(s.mem, t.mem, cpu.touches(s));
    assert cpu.execute(s) == cpu.execute(t);
    var e := cpu.execute(s);
    assert (t.mem - e.unmapped) + e.stores == Arm((s.mem - e.unmapped) + e.stores, hook);
  }

  /** The instrumented run is in lockstep with the plain one up to the hook, and then traps. */
  lemma {:induction false} Lockstep<R(!new)>(cpu: Cpu<R>, s: Machine<R>, hook: nat, n: nat, k: nat)
    requires Local(cpu) && Undisturbed(cpu, s, hook, n) && k <= n
    ensures Run(cpu, s, k).Running?
    ensures Run(cpu, Armed(s, hook), k) == Running(Armed(Run(cpu, s, k).m, hook))
    decreases k
  {
    hide Local;
    if k > 0 {
      var t := Advance(cpu, s).m;
      ArmedAdvance(cpu, s, hook);
      Lockstep(cpu, t, hook, n - 1, k - 1);
      assert Run(cpu, s, k) == Run(cpu, t, k - 1);
      assert Run(cpu, Armed(s, hook), k) == Run(cpu, Armed(t, hook), k - 1);
    }
  }

  /** The plain machine at its first arrival at the hook. */
  ghost function Arrival<R>(cpu: Cpu<R>, s: Machine<R>, hook: nat, n: nat): (t: Machine<R>)
    requires Undisturbed(cpu, s, hook, n)
    ensures t.ip == hook && Run(cpu, s, n) == Running(t)
    decreases n
  {
    if n == 0 then s else Arrival(cpu, Advance(cpu, s).m, hook, n - 1)
  }

  lemma {:induction false} HookStaysMapped<R>(cpu: Cpu<R>, s: Machine<R>, hook: nat, n: nat)
    requires Undisturbed(cpu, s, hook, n) && hook in s.mem
    ensures hook in Arrival(cpu, s, hook, n).mem
    decreases n
  {
    if n > 0 {
      HookStaysMapped(cpu, Advance(cpu, s).m, hook, n - 1);
    }
  }

  lemma {:induction false} TrapsAtHook<R(!new)>(cpu: Cpu<R>, s: Machine<R>, hook: nat, n: nat, steps: nat)
    requires Local(cpu) && Undisturbed(cpu, s, hook, n) && steps > n
    ensures Run(cpu, Armed(s, hook), steps)
         == Trapped(Armed(Arrival(cpu, s, hook, n), hook).(ip := hook + 1))
    decreases n
  {
    hide Local;
    if n > 0 {
      var t := Advance(cpu, s).m;
      ArmedAdvance(cpu, s, hook);
      TrapsAtHook(cpu, t, hook, n - 1, steps - 1);
      assert Run(cpu, Armed(s, hook), steps) == Run(cpu, Armed(t, hook), steps - 1);
    }
  }

  /** One byte behind where the machine is: where a tracee at the hook resumes. */
  function Skipped<R>(s: Machine<R>): Machine<R> { s.(ip := s.ip + 1) }

  /**
    The branch for a tracee that is already at the hook single-steps before it restores the word,
    so it executes the INT3 and not the instruction: the run resumes one byte behind the hook.
   */
  lemma AlreadyAtHookSkipsAByte<R>(cpu: Cpu<R>, s: Machine<R>, hook: nat, width: nat)
    requires width > 0 && s.ip == hook && Mapped(s.mem, hook, width)
    ensures var saved := LittleEndian(width, Value(BytesAt(s.mem, hook, width)));
            var stepped := Advance(cpu, Armed(s, hook));
            && stepped.Trapped?
            && stepped.m.(mem := StoreBytes(stepped.m.mem, hook, saved)) == Skipped(s)
  {
    RestoreUndoesArm(s.mem, hook, width, {}, map[]);
    var saved := LittleEndian(width, Value(BytesAt(s.mem, hook, width)));
    assert (Arm(s.mem, hook) - {}) + map[] == Arm(s.mem, hook);
    assert (s.mem - {}) + map[] == s.mem;
  }

  /** None of the first `n` instructions from `s` stores to the hook byte. */
  ghost predicate Unstored<R>(cpu: Cpu<R>, s: Machine<R>, hook: nat, n: nat)
    decreases n
  {
    n == 0 || !Advance(cpu, s).Running?
    || (hook !in cpu.execute(s).stores && Unstored(cpu, Advance(cpu, s).m, hook, n - 1))
  }

  predicate IsInt3(mem: map<nat, byte>, a: nat) { a in mem && mem[a] == INT3 }

  /** A run that finds no INT3 at the hook, and stores none, does not trap there. */
  lemma {:induction false} NoTrapAtHook<R>(cpu: Cpu<R>, s: Machine<R>, hook: nat, n: nat)
    requires Unstored(cpu, s, hook, n) && !IsInt3(s.mem, hook)
    ensures Run(cpu, s, n).Trapped? ==> Run(cpu, s, n).m.ip != hook + 1
    decreases n
  {
    if n > 0 && Advance(cpu, s).Running? {
      NoTrapAtHook(cpu, Advance(cpu, s).m, hook, n - 1);
    }
  }

  /** Resumed behind the hook, the run stops within `steps` instructions and never puts an INT3 there. */
  ghost predicate Quiet<R>(cpu: Cpu<R>, s: Machine<R>, hook: nat, steps: nat) {
    && !Run(cpu, Skipped(s), steps).Running?
    && Unstored(cpu, Skipped(s), hook, steps) && !IsInt3(s.mem, hook)
  }

  // ------------------------------------------------------------------ concrete tracees

  /** A byte at 0 to start from, and a word of zeros at 16 but for its first byte. */
  function WordAt16(b: byte): map<nat, byte> { StoreBytes(map[0 := 0], 16, [b] + Zeros(7)) }

  lemma WordAt16At(b: byte)
    ensures forall x: nat :: x in WordAt16(b) <==> x == 0 || 16 <= x < 24
    ensures WordAt16(b)[0] == 0 && WordAt16(b)[16] == b && WordAt16(b)[17] == 0
  {
    forall x: nat
      ensures x in WordAt16(b) <==> x == 0 || 16 <= x < 24
    {
      StoredAt(map[0 := 0], 16, [b] + Zeros(7), x);
    }
    StoredAt(map[0 := 0], 16, [b] + Zeros(7), 0);
    StoredAt(map[0 := 0], 16, [b] + Zeros(7), 16);
    StoredAt(map[0 := 0], 16, [b] + Zeros(7), 17);
  }

  /** Every instruction stores a byte right behind the hook at 16, and jumps to the hook. */
  function StoringCpu(): Cpu<()> {
    Cpu((s: Machine<()>) => {s.ip}, (s: Machine<()>) => Step((), 16, {}, map[17 := 1]))
  }

  /**
    The hook byte is never touched, so the tracee stops at the hook; but poking the saved word
    takes back what the run stored in the byte behind it.
   */
  lemma StoreBehindHookIsLost()
    ensures var cpu, s := StoringCpu(), Machine((), 0, WordAt16(0));
            && s.ip != 16 && Mapped(s.mem, 16, 8) && Local(cpu) && Undisturbed(cpu, s, 16, 1)
            && var plain := Arrival(cpu, s, 16, 1);
               && Mapped(plain.mem, 16, 8)
               && BytesAt(plain.mem, 16, 8) != BytesAt(s.mem, 16, 8)
               && StoreBytes(Arm(plain.mem, 16), 16, BytesAt(s.mem, 16, 8)) != plain.mem
  {
    hide WordAt16;
    WordAt16At(0);
    var cpu, s := StoringCpu(), Machine((), 0, WordAt16(0));
    assert Undisturbed(cpu, Advance(cpu, s).m, 16, 0);
    var plain := Arrival(cpu, s, 16, 1);
    assert plain == Advance(cpu, s).m;
    ByteAt(plain.mem, 16, 8, 1, 17);
    ByteAt(s.mem, 16, 8, 1, 17);
    RestoreIffSameWord(plain.mem, 16, BytesAt(s.mem, 16, 8));
  }

  /** Every instruction jumps to 16. */
  function JumpingCpu(): Cpu<()> {
    Cpu((s: Machine<()>) => {s.ip}, (s: Machine<()>) => Step((), 16, {}, map[]))
  }

  /** With an INT3 of its own under the hook, a tracee that starts there may come back to it. */
  lemma Int3UnderHookStops()
    ensures var s := Machine((), 16, WordAt16(INT3));
            IsInt3(s.mem, 16) && Run(JumpingCpu(), Skipped(s), 2) == Trapped(s.(ip := 17))
  {
    hide WordAt16;
    WordAt16At(INT3);
    var cpu, s := JumpingCpu(), Machine((), 16, WordAt16(INT3));
    assert (s.mem - {}) + map[] == s.mem;
    assert Advance(cpu, Skipped(s)) == Running(s);
    assert Run(cpu, s, 1) == Advance(cpu, s);
  }

  // ------------------------------------------------------------------ rewinding

  /** Rewound to the hook and with the saved word poked back, the machine at the trap. */
  lemma RestoredAtArrival<R>(plain: Machine<R>, hook: nat, saved: seq<byte>)
    requires hook in plain.mem && |saved| > 0
    ensures Mapped(Arm(plain.mem, hook), hook, |saved|) <==> Mapped(plain.mem, hook, |saved|)
    ensures Mapped(plain.mem, hook, |saved|) ==>
              (plain.(mem := StoreBytes(Arm(plain.mem, hook), hook, saved)) == plain
               <==> BytesAt(plain.mem, hook, |saved|) == saved)
  {
    if Mapped(Arm(plain.mem, hook), hook, |saved|) {
      ArmMapsNothing(plain.mem, hook, |saved|);
    }
    if Mapped(plain.mem, hook, |saved|) {
      RestoreIffSameWord(plain.mem, hook, saved);
    }
  }

  // ------------------------------------------------------------------ the ptrace calls

  class Tracee<R> {
    const cpu: Cpu<R>
    var m: Machine<R>

    constructor (cpu: Cpu<R>, m: Machine<R>)
      ensures this.cpu == cpu && this.m == m
    {
      this.cpu, this.m := cpu, m;
    }

    /** `PTRACE_PEEKTEXT`: a word of `width` bytes; fails on unmapped memory. */
    method Peek(a: nat, width: nat) returns (word: Option<nat>)
      ensures word == if Mapped(m.mem, a, width) then Some(Value(BytesAt(m.mem, a, width))) else None
    {
      if Mapped(m.mem, a, width) {
        word := Some(Value(BytesAt(m.mem, a, width)));
      } else {
        word := None;
      }
    }

    /** `PTRACE_POKETEXT`. */
    method Poke(a: nat, width: nat, word: nat) returns (ok: bool)
      modifies this
      ensures ok <==> Mapped(old(m.mem), a, width)
      ensures m == if ok then old(m).(mem := StoreBytes(old(m.mem), a, LittleEndian(width, word))) else old(m)
    {
      ok := Mapped(m.mem, a, width);
      if ok {
        m := m.(mem := StoreBytes(m.mem, a, LittleEndian(width, word)));
      }
    }

    /** `PTRACE_SINGLESTEP` and the wait for it. */
    method SingleStep() returns (exited: bool)
      modifies this
      ensures exited <==> Advance(cpu, old(m)).Exited?
      ensures m == if exited then old(m) else Advance(cpu, old(m)).m
    {
      var status := Advance(cpu, m);
      exited := status.Exited?;
      if !exited {
        m := status.m;
      }
    }

    /** `PTRACE_CONT` and the wait; the run has to stop within `steps` instructions. */
    method Cont(ghost steps: nat) returns (exited: bool)
      requires !Run(cpu, m, steps).Running?
      modifies this
      ensures exited <==> Run(cpu, old(m), steps).Exited?
      ensures !exited ==> Run(cpu, old(m), steps) == Trapped(m)
    {
      ghost var left := steps;
      while true
        invariant Run(cpu, m, left) == Run(cpu, old(m), steps)
        decreases left
      {
        var status := Advance(cpu, m);
        match status
        case Exited => return true;
        case Trapped(t) =>
          m := t;
          return false;
        case Running(t) =>
          m := t;
          left := left - 1;
      }
    }
  }

  // ------------------------------------------------------------------ breakpoint.c

  datatype BreakpointOutcome = Reached | TraceeExited | Fatal

  class BreakpointCell<R(!new)> {
    const tracee: Tracee<R>
    const width: nat
    var hook: nat
    var oldWord: nat

    constructor (tracee: Tracee<R>, width: nat)
      ensures this.tracee == tracee && this.width == width
    {
      this.tracee, this.width := tracee, width;
      hook, oldWord := 0, 0;
    }

    /** `create_breakpoint`; false is the fatal exit. `width` is the size of a `long`. */
    method Create(hook: nat) returns (ok: bool)
      requires width > 0
      modifies this, tracee
      ensures ok <==> Mapped(old(tracee.m.mem), hook, width)
      ensures ok ==> this.hook == hook && oldWord == Value(BytesAt(old(tracee.m.mem), hook, width))
      ensures ok ==> tracee.m == Armed(old(tracee.m), hook)
    {
      this.hook := hook;
      var word := tracee.Peek(hook, width);
      if word.None? {
        return false;
      }
      oldWord := word.value;
      ArmChangesOneByte(tracee.m.mem, hook, width);
      ok := tracee.Poke(hook, width, PlaceInt3(word.value));
    }

    /** Where `PTRACE_CONT` starts: a tracee already at the hook is single-stepped first. */
    ghost function ResumePoint(s: Machine<R>): Option<Machine<R>>
      reads this
    {
      if s.ip != hook then Some(s)
      else match Advance(tracee.cpu, s)
        case Exited => None
        case Running(t) => Poked(t)
        case Trapped(t) => Poked(t)
    }

    ghost function Poked(t: Machine<R>): Option<Machine<R>>
      reads this
    {
      if Mapped(t.mem, hook, width)
      then Some(t.(mem := StoreBytes(t.mem, hook, LittleEndian(width, oldWord))))
      else None
    }

    /** `execute_up_to_breakpoint`, given that the run stops within `steps` instructions. */
    method ExecuteUpToBreakpoint(ghost steps: nat) returns (outcome: BreakpointOutcome)
      requires ResumePoint(tracee.m).Some? ==> !Run(tracee.cpu, ResumePoint(tracee.m).value, steps).Running?
      modifies tracee
      ensures outcome == Reached <==>
                && old(ResumePoint(tracee.m)).Some?
                && Run(tracee.cpu, old(ResumePoint(tracee.m)).value, steps).Trapped?
                && Poked(Run(tracee.cpu, old(ResumePoint(tracee.m)).value, steps).m).Some?
      ensures outcome == Reached ==>
                var t := Run(tracee.cpu, old(ResumePoint(tracee.m)).value, steps).m;
                t.ip > 0 && Poked(t.(ip := t.ip - 1)) == Some(tracee.m)
      ensures outcome == TraceeExited <==>
                || (old(tracee.m.ip) == hook && Advance(tracee.cpu, old(tracee.m)).Exited?)
                || (old(ResumePoint(tracee.m)).Some? && Run(tracee.cpu, old(ResumePoint(tracee.m)).value, steps).Exited?)
    {
      if tracee.m.ip == hook {
        var gone := tracee.SingleStep();
        if gone {
          return TraceeExited;
        }
        var poked := tracee.Poke(hook, width, oldWord);
        if !poked {
          return Fatal;
        }
      }
      TrapIsBehindInt3(tracee.cpu, tracee.m, steps);
      var exited := tracee.Cont(steps);
      if exited {
        return TraceeExited;
      }
      tracee.m := tracee.m.(ip := tracee.m.ip - 1);
      var restored := tracee.Poke(hook, width, oldWord);
      return if restored then Reached else Fatal;
    }

    /**
      Arming, running and restoring, as `main` does it. If the run does not start at the hook and
      does not disturb the hook byte, the tracee stops at its first arrival there, in the state
      of the plain run, exactly when the plain run leaves the other bytes of the word alone.
     */
    method StopAtHook(hook: nat, ghost n: nat) returns (outcome: BreakpointOutcome)
      requires width > 0 && tracee.m.ip != hook
      requires Mapped(tracee.m.mem, hook, width)
      requires Local(tracee.cpu) && Undisturbed(tracee.cpu, tracee.m, hook, n)
      modifies this, tracee
      ensures var plain := Arrival(tracee.cpu, old(tracee.m), hook, n);
              && (outcome == Reached <==> Mapped(plain.mem, hook, width))
              && (outcome == Reached ==>
                    && tracee.m.regs == plain.regs && tracee.m.ip == plain.ip == hook
                    && (tracee.m == plain <==>
                          BytesAt(plain.mem, hook, width) == old(BytesAt(tracee.m.mem, hook, width))))
    {
      hide Local, Advance;
      ghost var start, saved := tracee.m, BytesAt(tracee.m.mem, hook, width);
      ghost var plain := Arrival(tracee.cpu, start, hook, n);
      ghost var steps := n + 1;
      HookStaysMapped(tracee.cpu, start, hook, n);
      TrapsAtHook(tracee.cpu, start, hook, n, steps);
      var armed := Create(hook);
      outcome := ExecuteUpToBreakpoint(steps);
      LittleEndianOfValue(saved);
      RestoredAtArrival(plain, hook, saved);
    }

    /**
      The same for a tracee that is at the hook already: what stops is the plain run from one byte
      behind the hook, and unless there is an INT3 at the hook itself it does not stop there.
     */
    method StopFromHook(hook: nat, ghost steps: nat) returns (outcome: BreakpointOutcome)
      requires width > 0 && tracee.m.ip == hook
      requires Mapped(tracee.m.mem, hook, width)
      requires !Run(tracee.cpu, Skipped(tracee.m), steps).Running?
      modifies this, tracee
      ensures var stop := Run(tracee.cpu, Skipped(old(tracee.m)), steps);
              && (outcome == TraceeExited <==> stop.Exited?)
              && (outcome == Reached <==> stop.Trapped? && Mapped(stop.m.mem, hook, width))
              && (outcome == Reached ==>
                    && stop.m.ip > 0
                    && tracee.m == stop.m.(ip := stop.m.ip - 1,
                                           mem := StoreBytes(stop.m.mem, hook, old(BytesAt(tracee.m.mem, hook, width)))))
      ensures Unstored(tracee.cpu, Skipped(old(tracee.m)), hook, steps) && !IsInt3(old(tracee.m.mem), hook) ==>
                outcome == Reached ==> tracee.m.ip != hook
    {
      ghost var start, saved := tracee.m, BytesAt(tracee.m.mem, hook, width);
      AlreadyAtHookSkipsAByte(tracee.cpu, start, hook, width);
      LittleEndianOfValue(saved);
      var armed := Create(hook);
      assert ResumePoint(tracee.m) == Some(Skipped(start));
      outcome := ExecuteUpToBreakpoint(steps);
      if Unstored(tracee.cpu, Skipped(start), hook, steps) && !IsInt3(start.mem, hook) {
        NoTrapAtHook(tracee.cpu, Skipped(start), hook, steps);
      }
    }

    /**
      Both cases. For a hook byte that is no INT3 of its own and is left alone, the tracee stops in
      the state of the plain run's first arrival if and only if it does not start at the hook and
      that run leaves the rest of the word alone too.
     */
    method StopAtHookIff(hook: nat, ghost n: nat, ghost steps: nat) returns (outcome: BreakpointOutcome)
      requires width > 0 && Mapped(tracee.m.mem, hook, width)
      requires Local(tracee.cpu) && Undisturbed(tracee.cpu, tracee.m, hook, n)
      requires tracee.m.ip == hook ==> Quiet(tracee.cpu, tracee.m, hook, steps)
      modifies this, tracee
      ensures var plain := Arrival(tracee.cpu, old(tracee.m), hook, n);
              outcome == Reached && tracee.m == plain <==>
                && old(tracee.m.ip) != hook && Mapped(plain.mem, hook, width)
                && BytesAt(plain.mem, hook, width) == old(BytesAt(tracee.m.mem, hook, width))
    {
      hide Local, Advance;
      if tracee.m.ip == hook {
        outcome := StopFromHook(hook, steps);
      } else {
        outcome := StopAtHook(hook, n);
      }
    }
  }
}
