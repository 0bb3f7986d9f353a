/** The keyboard ring buffer: interrupts fill it while getkey empties it in separate steps. */
module Keyboard {
  import opened Bytes

  const SIZE := 256

  // ----- scancodes

  predicate IsShift(code: Byte) { code == 0x2A || code == 0x36 }

  predicate IsCtrl(code: Byte) { code == 0x1D }

  predicate IsAlt(code: Byte) { code == 0x38 }

  predicate IsCaps(code: Byte) { code == 0x3A }

  /** Codes that are put into the buffer: presses of keys that are no modifiers. Prefix codes have the release bit
      set. */
  predicate IsKey(code: Byte)
  {
    code < 0x80 && !IsShift(code) && !IsCtrl(code) && !IsAlt(code) && !IsCaps(code)
  }

  datatype Modifiers = Modifiers(shift: bool, ctrl: bool, alt: bool, caps: bool)

  /** The modifiers after a scancode. */
  function Modified(m: Modifiers, code: Byte): Modifiers
  {
    if code >= 0x80 then
      var key := code - 0x80;
      if IsShift(key) then m.(shift := false)
      else if IsCtrl(key) then m.(ctrl := false)
      else if IsAlt(key) then m.(alt := false)
      else m
    else if IsShift(code) then m.(shift := true)
    else if IsCtrl(code) then m.(ctrl := true)
    else if IsAlt(code) then m.(alt := true)
    else if IsCaps(code) then m.(caps := !m.caps)
    else m
  }

  // ----- the steps

  /** Where getkey is: before its test, after a successful test, or with a scancode loaded but the read position
      not yet advanced. */
  datatype Phase = Testing | Found | Loaded(code: Byte)

  /** The variables of the driver, and where getkey is. */
  datatype State = State(buffer: seq<Byte>, read: Byte, write: Byte, modifiers: Modifiers, phase: Phase)

  /** A whole run of the interrupt handler, or one step of getkey. */
  datatype Step = Interrupt(code: Byte) | Test | Load | Advance

  predicate Shape(s: State)
  {
    |s.buffer| == SIZE
  }

  /** A step is possible: getkey takes its steps in turn, an interrupt can come at any time. */
  predicate Enabled(s: State, step: Step)
  {
    match step
    case Interrupt(_) => true
    case Test => s.phase.Testing?
    case Load => s.phase.Found?
    case Advance => s.phase.Loaded?
  }

  function Succ(p: Byte): Byte
  {
    (p + 1) % SIZE
  }

  /** The handler finds no room for a key. */
  predicate Full(s: State)
  {
    Succ(s.write) == s.read
  }

  function Next(s: State, step: Step): (s': State)
    requires Shape(s) && Enabled(s, step)
    ensures Shape(s')
  {
    match step
    case Interrupt(code) =>
      var t := s.(modifiers := Modified(s.modifiers, code));
      if IsKey(code) && !Full(s) then t.(buffer := s.buffer[s.write as int := code], write := Succ(s.write)) else t
    case Test => if s.read != s.write then s.(phase := Found) else s
    case Load => s.(phase := Loaded(s.buffer[s.read]))
    case Advance => s.(read := Succ(s.read), phase := Testing)
  }

  /** Keys that were put into the buffer by a step, and that were delivered by a step. */
  function Accepted(s: State, step: Step): seq<Byte>
  {
    if step.Interrupt? && IsKey(step.code) && !Full(s) then [step.code] else []
  }

  function Delivered(s: State, step: Step): seq<Byte>
    requires Enabled(s, step)
  {
    if step.Advance? then [s.phase.code] else []
  }

  // ----- what the buffer holds

  /** How many keys were put in but not yet advanced over. */
  function Count(s: State): nat
  {
    (s.write - s.read) % SIZE
  }

  /** The slot of the i-th of them. */
  function Slot(s: State, i: nat): nat
  {
    (s.read + i) % SIZE
  }

  /** These keys, in order. */
  function Pending(s: State): (p: seq<Byte>)
    requires Shape(s)
    ensures |p| == Count(s)
  {
    seq(Count(s), i requires 0 <= i < Count(s) => s.buffer[Slot(s, i)])
  }

  /** getkey has found or loaded the oldest of them. */
  predicate PhaseOk(s: State)
    requires Shape(s)
  {
    match s.phase
    case Testing => true
    case Found => Pending(s) != []
    case Loaded(code) => Pending(s) != [] && Pending(s)[0] == code
  }

  lemma FullIff(s: State)
    requires Shape(s)
    ensures Full(s) <==> Count(s) == SIZE - 1
  {
  }

  lemma PutPending(s: State, code: Byte)
    requires Shape(s) && !Full(s)
    ensures Pending(s.(buffer := s.buffer[s.write as int := code], write := Succ(s.write))) == Pending(s) + [code]
  {
    var s' := s.(buffer := s.buffer[s.write as int := code], write := Succ(s.write));
    FullIff(s);
    CountPut(s);
    forall i | 0 <= i < Count(s)
      ensures Slot(s, i) != s.write
    {
      SlotBefore(s, i);
    }
    SlotWrite(s);
  }

  lemma CountPut(s: State)
    requires Count(s) < SIZE - 1
    ensures Count(s.(write := Succ(s.write))) == Count(s) + 1
  {
  }

  lemma SlotBefore(s: State, i: nat)
    requires i < Count(s)
    ensures Slot(s, i) != s.write
  {
  }

  lemma SlotWrite(s: State)
    ensures Slot(s, Count(s)) == s.write
  {
  }

  lemma AdvancePending(s: State)
    requires Shape(s) && Pending(s) != []
    ensures Pending(s.(read := Succ(s.read), phase := Testing)) == Pending(s)[1..]
  {
    var s' := s.(read := Succ(s.read), phase := Testing);
    CountAdvance(s);
    forall i | 0 <= i < Count(s')
      ensures Slot(s', i) == Slot(s, i + 1)
    {
      SlotAdvance(s, i);
    }
  }

  lemma CountAdvance(s: State)
    requires 0 < Count(s)
    ensures Count(s.(read := Succ(s.read))) == Count(s) - 1
  {
  }

  lemma SlotAdvance(s: State, i: nat)
    ensures Slot(s.(read := Succ(s.read)), i) == Slot(s, i + 1)
  {
  }

  /** A step puts accepted keys at the end of the buffer and takes delivered ones from its front. */
  lemma StepPending(s: State, step: Step)
    requires Shape(s) && Enabled(s, step) && PhaseOk(s)
    ensures PhaseOk(Next(s, step))
    ensures Delivered(s, step) + Pending(Next(s, step)) == Pending(s) + Accepted(s, step)
  {
    match step
    case Interrupt(code) =>
      var t := s.(modifiers := Modified(s.modifiers, code));
      assert Pending(t) == Pending(s);
      if IsKey(code) && !Full(s) {
        PutPending(t, code);
      }
    case Test =>
      assert Pending(Next(s, step)) == Pending(s);
    case Load =>
      assert Pending(Next(s, step)) == Pending(s) && Slot(s, 0) == s.read;
    case Advance =>
      AdvancePending(s);
  }

  // ----- runs

  ghost predicate Run(states: seq<State>, steps: seq<Step>)
  {
    && |states| == |steps| + 1 && Shape(states[0]) && PhaseOk(states[0])
    && forall i :: 0 <= i < |steps| ==> StepOk(states, steps, i)
  }

  predicate StepOk(states: seq<State>, steps: seq<Step>, i: nat)
    requires i < |steps| && |states| == |steps| + 1
  {
    Shape(states[i]) && Enabled(states[i], steps[i]) && states[i + 1] == Next(states[i], steps[i])
  }

  lemma RunPrefix(states: seq<State>, steps: seq<Step>, n: nat)
    requires Run(states, steps) && n <= |steps|
    ensures Run(states[..n + 1], steps[..n])
  {
    var ss, ps := states[..n + 1], steps[..n];
    forall i | 0 <= i < n ensures StepOk(ss, ps, i) {
      assert StepOk(states, steps, i);
    }
  }

  /** Whether the last scancode about one of these keys was a press, with `before` if there was none. */
  function LastPressed(steps: seq<Step>, keys: set<Byte>, before: bool): bool
  {
    if steps == [] then before
    else
      var step := steps[|steps| - 1];
      if step.Interrupt? && step.code in keys then true
      else if step.Interrupt? && step.code >= 0x80 && step.code - 0x80 in keys then false
      else LastPressed(steps[..|steps| - 1], keys, before)
  }

  /** Whether a key was pressed an odd number of times. */
  function Odd(steps: seq<Step>, key: Byte): bool
  {
    steps != [] && ((steps[|steps| - 1] == Interrupt(key)) != Odd(steps[..|steps| - 1], key))
  }

  /** Over every interleaving each modifier is as its last press or release left it, and caps lock changes with every
      press. */
  lemma {:induction false} ModifiersInRun(states: seq<State>, steps: seq<Step>)
    requires Run(states, steps)
    ensures var m, m' := states[0].modifiers, states[|steps|].modifiers;
            && m'.shift == LastPressed(steps, {0x2A, 0x36}, m.shift)
            && m'.ctrl == LastPressed(steps, {0x1D}, m.ctrl)
            && m'.alt == LastPressed(steps, {0x38}, m.alt)
            && m'.caps == (m.caps != Odd(steps, 0x3A))
    decreases |steps|
  {
    hide Full, Pending, PhaseOk, LastPressed, Odd, Modified, Next;
    if steps == [] {
      NothingPressed(states[0].modifiers);
    } else {
      var n := |steps| - 1;
      RunPrefix(states, steps, n);
      ModifiersInRun(states[..n + 1], steps[..n]);
      assert StepOk(states, steps, n);
      NextModifiers(states[n], steps[n]);
      PressedNext(steps, {0x2A, 0x36}, states[0].modifiers.shift);
      PressedNext(steps, {0x1D}, states[0].modifiers.ctrl);
      PressedNext(steps, {0x38}, states[0].modifiers.alt);
    }
  }

  lemma NothingPressed(m: Modifiers)
    ensures forall keys :: LastPressed([], keys, m.shift) == m.shift && LastPressed([], keys, m.ctrl) == m.ctrl
                           && LastPressed([], keys, m.alt) == m.alt
    ensures !Odd([], 0x3A)
  {
  }

  lemma PressedNext(steps: seq<Step>, keys: set<Byte>, before: bool)
    requires steps != []
    ensures var n := |steps| - 1;
            && LastPressed(steps, keys, before) == LastPressed([steps[n]], keys, LastPressed(steps[..n], keys, before))
            && Odd(steps, 0x3A) == ((steps[n] == Interrupt(0x3A)) != Odd(steps[..n], 0x3A))
  {
    assert [steps[|steps| - 1]][..0] == [];
  }

  lemma NextModifiers(s: State, step: Step)
    requires Shape(s) && Enabled(s, step)
    ensures var m, m' := s.modifiers, Next(s, step).modifiers;
            && m'.shift == LastPressed([step], {0x2A, 0x36}, m.shift) && m'.ctrl == LastPressed([step], {0x1D}, m.ctrl)
            && m'.alt == LastPressed([step], {0x38}, m.alt) && m'.caps == (m.caps != (step == Interrupt(0x3A)))
  {
    hide Full, Pending, PhaseOk;
    assert [step][..0] == [];
  }

  /** A press is a key for the buffer exactly if it is of none of five keys. */
  lemma KeysAre(code: Byte)
    ensures IsKey(code) <==> code < 0x80 && code !in {0x1D, 0x2A, 0x36, 0x38, 0x3A}
  {
  }

  /** With one shift key still held, releasing the other turns shift off. */
  lemma TwoShifts(states: seq<State>, steps: seq<Step>)
    requires Run(states, steps) && steps == [Interrupt(0x2A), Interrupt(0x36), Interrupt(0xAA)]
    ensures !states[3].modifiers.shift
  {
    hide Full, Pending, PhaseOk;
    ModifiersInRun(states, steps);
  }

  /** All keys accepted in a run, in order. */
  function AllAccepted(states: seq<State>, steps: seq<Step>): seq<Byte>
    requires |states| == |steps| + 1
    decreases |steps|
  {
    if steps == [] then []
    else
      var n := |steps| - 1;
      AllAccepted(states[..n + 1], steps[..n]) + Accepted(states[n], steps[n])
  }

  /** All keys delivered in a run, in order. */
  ghost function AllDelivered(states: seq<State>, steps: seq<Step>): seq<Byte>
    requires Run(states, steps)
    decreases |steps|
  {
    if steps == [] then []
    else
      var n := |steps| - 1;
      RunPrefix(states, steps, n);
      assert StepOk(states, steps, n);
      AllDelivered(states[..n + 1], steps[..n]) + Delivered(states[n], steps[n])
  }

  /** However interrupts and the steps of getkey interleave, the keys delivered followed by those still in the buffer
      are the keys accepted, in order, after those that were in the buffer at first: none is lost, repeated or
      overtaken. */
  lemma {:induction false} InOrder(states: seq<State>, steps: seq<Step>)
    requires Run(states, steps)
    ensures Shape(states[|steps|]) && PhaseOk(states[|steps|])
    ensures AllDelivered(states, steps) + Pending(states[|steps|]) == Pending(states[0]) + AllAccepted(states, steps)
    decreases |steps|
  {
    hide Pending, Next, PhaseOk, Accepted, Delivered;
    if steps == [] {
      assert Pending(states[0]) + [] == Pending(states[0]);
    } else {
      var n := |steps| - 1;
      RunPrefix(states, steps, n);
      InOrder(states[..n + 1], steps[..n]);
      assert StepOk(states, steps, n);
      var s, step := states[n], steps[n];
      StepPending(s, step);
      var before, all := AllDelivered(states[..n + 1], steps[..n]), AllAccepted(states[..n + 1], steps[..n]);
      calc {
        before + Delivered(s, step) + Pending(Next(s, step));
        before + (Delivered(s, step) + Pending(Next(s, step)));
        before + (Pending(s) + Accepted(s, step));
        before + Pending(s) + Accepted(s, step);
        Pending(states[0]) + all + Accepted(s, step);
        Pending(states[0]) + (all + Accepted(s, step));
      }
    }
  }

  /** From an empty buffer, what was delivered is a prefix of what was accepted. */
  lemma DeliveredPrefix(states: seq<State>, steps: seq<Step>)
    requires Run(states, steps) && Pending(states[0]) == []
    ensures AllDelivered(states, steps) <= AllAccepted(states, steps)
  {
    hide Pending;
    InOrder(states, steps);
    assert [] + AllAccepted(states, steps) == AllAccepted(states, steps);
  }

  /** A key is dropped exactly if 255 keys were accepted that getkey has not advanced over, the one it may have
      loaded included. */
  lemma DroppedIff(states: seq<State>, steps: seq<Step>, i: nat)
    requires Run(states, steps) && Pending(states[0]) == [] && i < |steps| && steps[i].Interrupt?
             && IsKey(steps[i].code)
    ensures Run(states[..i + 1], steps[..i])
    ensures Accepted(states[i], steps[i]) == []
       <==> |AllAccepted(states[..i + 1], steps[..i])| - |AllDelivered(states[..i + 1], steps[..i])| == SIZE - 1
  {
    hide Pending;
    RunPrefix(states, steps, i);
    InOrder(states[..i + 1], steps[..i]);
    FullIff(states[i]);
  }

  // ----- the driver

  class Driver {
    const buffer: array<Byte>
    var readPos: Byte
    var writePos: Byte
    var shift: bool
    var ctrl: bool
    var alt: bool
    var caps: bool
    ghost var phase: Phase

    ghost function Value(): State
      reads this, buffer
    {
      State(buffer[..], readPos, writePos, Modifiers(shift, ctrl, alt, caps), phase)
    }

    ghost predicate Valid()
      reads this, buffer
    {
      Shape(Value()) && PhaseOk(Value())
    }

    constructor ()
      ensures Valid() && Pending(Value()) == [] && phase == Testing && fresh(buffer)
    {
      buffer := new Byte[SIZE](_ => 0);
      readPos, writePos := 0, 0;
      shift, ctrl, alt, caps := false, false, false, false;
      phase := Testing;
    }

    /** The interrupt handler. */
    method Handler(code: Byte)
      requires Valid()
      modifies this, buffer
      ensures Valid() && Value() == Next(old(Value()), Interrupt(code))
    {
      hide Pending, PhaseOk;
      StepPending(Value(), Interrupt(code));
      if code >= 0x80 {
        var key := code - 0x80;
        if key == 0x2A || key == 0x36 {
          shift := false;
        } else if key == 0x1D {
          ctrl := false;
        } else if key == 0x38 {
          alt := false;
        }
        return;
      }
      if code == 0x2A || code == 0x36 {
        shift := true;
        return;
      } else if code == 0x1D {
        ctrl := true;
        return;
      } else if code == 0x38 {
        alt := true;
        return;
      } else if code == 0x3A {
        caps := !caps;
        return;
      }
      var nextPos: Byte := (writePos + 1) % SIZE;
      if nextPos != readPos {
        buffer[writePos] := code;
        writePos := nextPos;
      }
    }

    /** The test of getkey. */
    method Available() returns (available: bool)
      requires Valid() && phase.Testing?
      modifies this`phase
      ensures Valid() && Value() == Next(old(Value()), Test) && available == phase.Found?
    {
      hide Pending, PhaseOk;
      StepPending(Value(), Test);
      available := readPos != writePos;
      phase := if available then Found else Testing;
    }

    /** The load of getkey. */
    method LoadKey() returns (code: Byte)
      requires Valid() && phase.Found?
      modifies this`phase
      ensures Valid() && Value() == Next(old(Value()), Load) && phase == Loaded(code)
    {
      hide Pending, PhaseOk;
      StepPending(Value(), Load);
      code := buffer[readPos];
      phase := Loaded(code);
    }

    /** The advance of getkey, which makes the loaded key its result. */
    method AdvanceKey(ghost code: Byte)
      requires Valid() && phase == Loaded(code)
      modifies this`phase, this`readPos
      ensures Valid() && Value() == Next(old(Value()), Advance)
      ensures Delivered(old(Value()), Advance) == [code]
    {
      hide Pending, PhaseOk;
      StepPending(Value(), Advance);
      readPos := (readPos + 1) % SIZE;
      phase := Testing;
    }

    /** getkey with interrupts before each of its steps; each element of `quiet` is what arrives while it waits, and
        `late1` and `late2` what arrives before the load and before the advance. None if no key came while it waited. */
    method GetKey(quiet: seq<Byte>, late1: seq<Byte>, late2: seq<Byte>) returns (r: Option<Byte>)
      requires Valid() && phase.Testing?
      modifies this, buffer
      ensures Valid() && phase.Testing?
      ensures r.Some? ==> old(Pending(Value())) <= [r.value] + Pending(Value())
      ensures r.None? ==> old(Pending(Value())) == Pending(Value()) == []
    {
      hide Next, Pending;
      ghost var first := Pending(Value());
      var i := 0;
      var available := Available();
      NextKeeps(old(Value()), Test);
      while !available && i < |quiet|
        invariant Valid() && 0 <= i <= |quiet|
        invariant if available then phase.Found? else phase.Testing?
        invariant first <= Pending(Value()) && (available <==> Pending(Value()) != [])
      {
        Interrupts([quiet[i]]);
        ghost var s := Value();
        available := Available();
        NextKeeps(s, Test);
        i := i + 1;
      }
      if !available {
        return None;
      }
      Interrupts(late1);
      ghost var s := Value();
      var code := LoadKey();
      NextKeeps(s, Load);
      Interrupts(late2);
      s := Value();
      AdvanceKey(code);
      NextKeeps(s, Advance);
      assert Pending(s) == [code] + Pending(Value());
      return Some(code);
    }

    /** Several interrupts in a row: they add to the keys in the buffer and move getkey nowhere. */
    method Interrupts(codes: seq<Byte>)
      requires Valid()
      modifies this, buffer
      ensures Valid() && phase == old(phase) && old(Pending(Value())) <= Pending(Value())
    {
      hide Next, Pending;
      for i := 0 to |codes|
        invariant Valid() && phase == old(phase) && old(Pending(Value())) <= Pending(Value())
      {
        ghost var s := Value();
        NextKeeps(s, Interrupt(codes[i]));
        Handler(codes[i]);
      }
    }
  }

  /** What a step leaves of the keys in the buffer. */
  lemma NextKeeps(s: State, step: Step)
    requires Shape(s) && PhaseOk(s) && Enabled(s, step)
    ensures var s' := Next(s, step);
            && (step.Interrupt? ==> s'.phase == s.phase && Pending(s) <= Pending(s'))
            && (step.Test? ==>
                  && Pending(s') == Pending(s) && (s'.phase.Found? <==> Pending(s) != [])
                  && (s'.phase.Found? || s'.phase.Testing?))
            && (step.Load? ==> Pending(s') == Pending(s) && Pending(s) != [] && s'.phase == Loaded(Pending(s)[0]))
            && (step.Advance? ==> Pending(s) != [] && Pending(s') == Pending(s)[1..] && s'.phase == Testing)
  {
    StepPending(s, step);
    match step
    case Interrupt(code) =>
      assert [] + Pending(Next(s, step)) == Pending(Next(s, step));
    case Test =>
      assert Pending(Next(s, step)) == Pending(s);
    case Load =>
      assert Pending(Next(s, step)) == Pending(s) && Slot(s, 0) == s.read;
    case Advance =>
      AdvancePending(s);
  }
}
