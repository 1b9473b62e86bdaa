/**
 * The stack machine of `src/lib.rs`: 256 bytes of memory, an 8-bit program
 * counter `pc`, an 8-bit stack pointer `sp` for a stack that grows down from
 * address 255, and a `running` flag.
 *
 * `Machine` and the functions over it say what one instruction does; the
 * class `Emulator` updates its fields in place, as the source does, and each
 * of its methods is proved to agree with those functions.
 *
 * Arithmetic on `pc`, `sp` and the sum of the add instruction is `u8`
 * arithmetic that panics on overflow or underflow. Such a panic is a fault
 * here: `Execute` returns `None`, and `Next` returns `false` at the point
 * where the source would panic.
 */
module Cpu {
  import opened Common

  const MemorySize: nat := 256

  /** The opcodes that `next` decodes; every other byte only advances `pc`. */
  const OpHalt: Byte := 0x00
  const OpPush: Byte := 0x01
  const OpPop: Byte := 0x02
  const OpAdd: Byte := 0x03

  datatype Machine = Machine(memory: seq<Byte>, pc: Byte, sp: Byte, running: bool)

  predicate WellFormed(m: Machine) {
    |m.memory| == MemorySize
  }

  /** What `Emulator::new` builds: zeroed memory, `pc = 0`, an empty stack at 255, running. */
  function Initial(): (m: Machine)
    ensures WellFormed(m)
  {
    Machine(seq(MemorySize, _ => 0), 0, (MemorySize - 1) as Byte, true)
  }

  /** `write(pos, data)`: memory cell `pos` now holds `data`. */
  function Written(m: Machine, pos: nat, data: Byte): (r: Machine)
    requires WellFormed(m) && pos < MemorySize
    ensures WellFormed(r)
  {
    m.(memory := m.memory[pos := data])
  }

  /** `push(data)`: store at `sp`, then move `sp` down; the source panics when `sp` is 0. */
  function Pushed(m: Machine, data: Byte): (r: Machine)
    requires WellFormed(m) && m.sp > 0
    ensures WellFormed(r)
  {
    Written(m, m.sp as nat, data).(sp := m.sp - 1)
  }

  /** `pop()`: move `sp` up, then read there; the source panics when `sp` is 255. */
  function Popped(m: Machine): (r: (Byte, Machine))
    requires WellFormed(m) && m.sp < 255
    ensures WellFormed(r.1)
  {
    var m' := m.(sp := m.sp + 1);
    (m'.memory[m'.sp], m')
  }

  /** The part of `next()` that a `0x01` byte selects: push the byte after it. */
  function PushImmediate(m: Machine): (r: Option<Machine>)
    requires WellFormed(m)
    ensures r.Some? ==> WellFormed(r.value)
  {
    if m.pc == 255 || m.sp == 0 then None
    else Some(Pushed(m.(pc := m.pc + 1), m.memory[m.pc + 1]))
  }

  /** The part of `next()` that a `0x03` byte selects: add the top two bytes. */
  function AddTop(m: Machine): (r: Option<Machine>)
    requires WellFormed(m)
    ensures r.Some? ==> WellFormed(r.value)
  {
    if m.sp >= 254 then None
    else
      var (a, m1) := Popped(m);
      var (b, m2) := Popped(m1);
      if a + b > 255 then None else Some(Pushed(m2, a + b))
  }

  /** The `match` of `next()`, before `pc` moves on. */
  function Perform(m: Machine): (r: Option<Machine>)
    requires WellFormed(m)
    ensures r.Some? ==> WellFormed(r.value)
    ensures r.Some? ==> r.value.running == (m.running && m.memory[m.pc] != OpHalt)
    ensures r.Some? ==> r.value.pc as int == m.pc as int + (if m.memory[m.pc] == OpPush then 1 else 0)
  {
    var op := m.memory[m.pc];
    if op == OpHalt then Some(m.(running := false))
    else if op == OpPush then PushImmediate(m)
    else if op == OpPop then (if m.sp == 255 then None else Some(Popped(m).1))
    else if op == OpAdd then AddTop(m)
    else Some(m)
  }

  /**
   * `next()`: decode the byte at `pc`, carry it out, then advance `pc` by one.
   * `None` is a panic on `u8` overflow or underflow.
   */
  function Execute(m: Machine): (r: Option<Machine>)
    requires WellFormed(m)
    ensures r.Some? ==> WellFormed(r.value)
    ensures r.Some? ==> r.value.running == (m.running && m.memory[m.pc] != OpHalt)
    ensures r.Some? ==> r.value.pc as int == m.pc as int + (if m.memory[m.pc] == OpPush then 2 else 1)
  {
    match Perform(m)
    case None => None
    case Some(m') => if m'.pc == 255 then None else Some(m'.(pc := m'.pc + 1))
  }

  /** `step()`: `next()` when running, nothing otherwise. */
  function StepOnce(m: Machine): (r: Option<Machine>)
    requires WellFormed(m)
    ensures r.Some? ==> WellFormed(r.value)
  {
    if m.running then Execute(m) else Some(m)
  }

  /** `run()` cut off after `fuel` instructions; `None` if one of them faults. */
  function RunFor(m: Machine, fuel: nat): (r: Option<Machine>)
    requires WellFormed(m)
    ensures r.Some? ==> WellFormed(r.value)
    decreases fuel
  {
    if !m.running || fuel == 0 then Some(m)
    else
      match Execute(m)
      case None => None
      case Some(m') => RunFor(m', fuel - 1)
  }

  // ---------------------------------------------------------------------
  // The emulator object

  class Emulator {
    const memory: array<Byte>
    var pc: Byte
    var sp: Byte
    var running: bool

    ghost predicate Valid()
      reads this
    {
      memory.Length == MemorySize
    }

    /** The machine state the fields stand for. */
    function State(): (m: Machine)
      reads this, memory
      requires Valid()
      ensures WellFormed(m)
    {
      Machine(memory[..], pc, sp, running)
    }

    constructor ()
      ensures Valid() && fresh(memory)
      ensures State() == Initial()
    {
      memory := new Byte[MemorySize](_ => 0);
      pc := 0;
      sp := (MemorySize - 1) as Byte;
      running := true;
    }

    function Read(pos: nat): (data: Byte)
      reads this, memory
      requires Valid() && pos < MemorySize
      ensures data == State().memory[pos]
    {
      memory[pos]
    }

    method Write(pos: nat, data: Byte)
      requires Valid() && pos < MemorySize
      modifies memory
      ensures Valid() && State() == Written(old(State()), pos, data)
    {
      memory[pos] := data;
    }

    method Push(data: Byte)
      requires Valid() && sp > 0
      modifies this, memory
      ensures Valid() && State() == Pushed(old(State()), data)
    {
      var pos := sp;
      Write(pos as nat, data);
      sp := pos - 1;
    }

    method Pop() returns (data: Byte)
      requires Valid() && sp < 255
      modifies this
      ensures Valid() && (data, State()) == Popped(old(State()))
    {
      sp := sp + 1;
      data := Read(sp as nat);
    }

    /**
     * One instruction, as `next()` carries it out. Returns `false` where the
     * source panics on `u8` overflow or underflow; the state is then left as
     * it was at that point and is not specified.
     */
    method Next() returns (ok: bool)
      requires Valid()
      modifies this, memory
      ensures Valid()
      ensures ok <==> Execute(old(State())).Some?
      ensures ok ==> State() == Execute(old(State())).value
    {
      ghost var before := State();
      var instruction := Read(pc as nat);
      if instruction == OpHalt {
        running := false;
      } else if instruction == OpPush {
        if pc == 255 {
          return false;  // `self.pc += 1` overflows
        }
        pc := pc + 1;
        var data := memory[pc];
        if sp == 0 {
          return false;  // `pos - 1` in `push` underflows
        }
        Push(data);
      } else if instruction == OpPop {
        if sp == 255 {
          return false;  // `self.sp += 1` in `pop` overflows
        }
        var _ := Pop();
      } else if instruction == OpAdd {
        if sp == 255 {
          return false;
        }
        var a := Pop();
        if sp == 255 {
          return false;
        }
        var b := Pop();
        if a as int + b as int > 255 {
          return false;  // `a + b` overflows
        }
        Push(a + b);
      }
      assert Perform(before) == Some(State());
      if pc == 255 {
        return false;  // the final `self.pc += 1` overflows
      }
      pc := pc + 1;
      return true;
    }

    /** `step()`: one instruction if running. */
    method Step() returns (ok: bool)
      requires Valid()
      modifies this, memory
      ensures Valid()
      ensures ok <==> StepOnce(old(State())).Some?
      ensures ok ==> State() == StepOnce(old(State())).value
    {
      ok := true;
      if running {
        ok := Next();
      }
    }

    /** `run()`, for at most `fuel` instructions. */
    method Run(fuel: nat) returns (ok: bool)
      requires Valid()
      modifies this, memory
      ensures Valid()
      ensures ok <==> RunFor(old(State()), fuel).Some?
      ensures ok ==> State() == RunFor(old(State()), fuel).value
    {
      ghost var start := State();
      var remaining := fuel;
      while running && remaining > 0
        invariant Valid()
        invariant RunFor(State(), remaining) == RunFor(start, fuel)
        decreases remaining
      {
        ok := Next();
        if !ok {
          return;
        }
        remaining := remaining - 1;
      }
      ok := true;
    }
  }

  // ---------------------------------------------------------------------
  // Properties

  /** A fresh emulator has all-zero memory, `pc = 0`, `sp = 255` and is running. */
  lemma InitialState()
    ensures forall k :: 0 <= k < MemorySize ==> Initial().memory[k] == 0
    ensures Initial().pc == 0 && Initial().sp == 255 && Initial().running
  {
  }

  /** A push stores its byte at `sp` and moves `sp` down by one; no other cell changes. */
  lemma PushWritesOnlyTop(m: Machine, data: Byte)
    requires WellFormed(m) && m.sp > 0
    ensures Pushed(m, data).memory[m.sp] == data
    ensures forall k :: 0 <= k < MemorySize && k != m.sp as int ==> Pushed(m, data).memory[k] == m.memory[k]
    ensures Pushed(m, data).sp == m.sp - 1
    ensures Pushed(m, data).pc == m.pc && Pushed(m, data).running == m.running
  {
  }

  /** A pop right after a push gives back the pushed byte and restores `sp`. */
  lemma PopAfterPush(m: Machine, data: Byte)
    requires WellFormed(m) && m.sp > 0
    ensures Popped(Pushed(m, data)).0 == data
    ensures Popped(Pushed(m, data)).1 == Written(m, m.sp as nat, data)
  {
  }

  /** `step` on a halted emulator changes nothing. */
  lemma StepHaltedIsNoop(m: Machine)
    requires WellFormed(m) && !m.running
    ensures StepOnce(m) == Some(m)
  {
  }

  /** Opcode 0x00 stops the machine, and `pc` still moves past it. */
  lemma ExecuteHalt(m: Machine)
    requires WellFormed(m) && m.memory[m.pc] == OpHalt
    ensures Execute(m).None? <==> m.pc == 255
    ensures m.pc < 255 ==> Execute(m) == Some(m.(running := false, pc := m.pc + 1))
  {
  }

  /** Opcode 0x01 pushes the byte that follows it and moves `pc` past both. */
  lemma ExecutePush(m: Machine)
    requires WellFormed(m) && m.memory[m.pc] == OpPush
    ensures Execute(m).None? <==> m.pc >= 254 || m.sp == 0
    ensures m.pc < 254 && m.sp > 0 ==>
      Execute(m) == Some(Machine(m.memory[m.sp := m.memory[m.pc + 1]], m.pc + 2, m.sp - 1, m.running))
  {
  }

  /** Opcode 0x02 discards the top of the stack. */
  lemma ExecutePop(m: Machine)
    requires WellFormed(m) && m.memory[m.pc] == OpPop
    ensures Execute(m).None? <==> m.sp == 255 || m.pc == 255
    ensures m.sp < 255 && m.pc < 255 ==> Execute(m) == Some(m.(sp := m.sp + 1, pc := m.pc + 1))
  {
  }

  /**
   * Opcode 0x03 replaces the top two bytes of the stack by their sum: the sum
   * lands where the lower one was, and `sp` rises by one.
   */
  lemma ExecuteAdd(m: Machine)
    requires WellFormed(m) && m.memory[m.pc] == OpAdd
    ensures Execute(m).None? <==>
      m.sp >= 254 || m.pc == 255 || m.memory[m.sp + 1] as int + m.memory[m.sp + 2] as int > 255
    ensures Execute(m).Some? ==>
      Execute(m) == Some(m.(memory := m.memory[m.sp + 2 := m.memory[m.sp + 1] + m.memory[m.sp + 2]],
                            sp := m.sp + 1, pc := m.pc + 1))
  {
  }

  /** Every other opcode only advances `pc`. */
  lemma ExecuteOther(m: Machine)
    requires WellFormed(m) && m.memory[m.pc] > OpAdd
    ensures Execute(m).None? <==> m.pc == 255
    ensures m.pc < 255 ==> Execute(m) == Some(m.(pc := m.pc + 1))
  {
  }

  /** A halted machine stays as it is, however long it runs. */
  lemma {:induction false} RunForHalted(m: Machine, fuel: nat)
    requires WellFormed(m) && !m.running
    ensures RunFor(m, fuel) == Some(m)
  {
  }

  /** Running for `a + b` instructions is running for `a`, then for `b` more. */
  lemma {:induction false} RunForCompose(m: Machine, a: nat, b: nat)
    requires WellFormed(m)
    ensures RunFor(m, a + b) ==
      match RunFor(m, a)
      case None => None
      case Some(m') => RunFor(m', b)
    decreases a
  {
    if a > 0 && m.running && Execute(m).Some? {
      RunForCompose(Execute(m).value, a - 1, b);
    }
  }

  /** Once a bounded run has halted, more fuel gives the same result. */
  lemma RunForEnoughFuel(m: Machine, fuel: nat, more: nat)
    requires WellFormed(m) && RunFor(m, fuel).Some? && !RunFor(m, fuel).value.running
    ensures RunFor(m, fuel + more) == RunFor(m, fuel)
  {
    RunForCompose(m, fuel, more);
    RunForHalted(RunFor(m, fuel).value, more);
  }

  /** The memory after writing `01 01 01 01 03` at addresses 0 to 4 of a fresh emulator. */
  function AddProgram(): (m: Machine)
    ensures WellFormed(m)
  {
    Initial().(memory := [1, 1, 1, 1, 3] + seq(MemorySize - 5, _ => 0))
  }

  /** Pushing 1 twice and adding halts with 2 on top of the stack. */
  lemma RunAddProgram()
    ensures RunFor(AddProgram(), 4).Some?
    ensures var m := RunFor(AddProgram(), 4).value;
      !m.running && m.sp < 255 && m.memory[m.sp + 1] == 2
  {
    var m0 := AddProgram();
    ExecutePush(m0);
    var m1 := Execute(m0).value;
    assert m1.pc == 2 && m1.sp == 254 && m1.memory[2] == 1 && m1.memory[3] == 1 && m1.memory[255] == 1;
    ExecutePush(m1);
    var m2 := Execute(m1).value;
    assert m2.pc == 4 && m2.sp == 253 && m2.memory[4] == 3 && m2.memory[254] == 1 && m2.memory[255] == 1;
    ExecuteAdd(m2);
    var m3 := Execute(m2).value;
    assert m3.pc == 5 && m3.sp == 254 && m3.memory[5] == 0 && m3.memory[255] == 2;
    ExecuteHalt(m3);
    var m4 := Execute(m3).value;
    assert !m4.running && m4.sp == 254 && m4.memory[255] == 2;
    assert RunFor(m3, 1) == Some(m4);
    assert RunFor(m2, 2) == Some(m4);
    assert RunFor(m1, 3) == Some(m4);
  }
}
