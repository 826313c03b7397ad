/**
 The PIO program that counts oscillator cycles and snapshots the count at each PPS rise.
 The specification is the assembly listing; the class interprets the assembled words.
 */
module SnapshotMachine {
  import opened Words

  const FIFO_DEPTH: nat := 8
  const WRAP: nat := 14
  const INITIAL_PC: nat := 11

  const PROGRAM_WORDS: seq<int> := [
    0x20A0, 0x0042, 0x00C6, 0x2020, 0x00CA, 0x0000, 0x4020, 0x2020,
    0x00CB, 0x0000, 0x4020, 0x20A0, 0x004D, 0x00C7, 0x0003
  ]

  type Pc = n: nat | n < 15

  /** The five instructions the program uses.  `jmp x--` goes to the next instruction either way. */
  datatype Instruction = WaitPin(level: bool) | Decrement | JumpPps(target: Pc) | Jump(target: Pc) | PushX

  /** The listing of otis_pps_snapshot.pio. */
  function Listing(pc: Pc): Instruction {
    match pc
    case 0 => WaitPin(true)     // pps_low_wait_high
    case 1 => Decrement
    case 2 => JumpPps(6)        // pps_low_check_high
    case 3 => WaitPin(false)    // pps_low_wait_low
    case 4 => JumpPps(10)
    case 5 => Jump(0)
    case 6 => PushX             // pps_capture_high
    case 7 => WaitPin(false)    // pps_high_wait_low
    case 8 => JumpPps(11)
    case 9 => Jump(0)
    case 10 => PushX            // pps_capture_low
    case 11 => WaitPin(true)    // pps_high_wait_high
    case 12 => Decrement
    case 13 => JumpPps(7)       // pps_high_check_high
    case 14 => Jump(3)
  }

  function Successor(pc: Pc): Pc {
    if pc == WRAP then 0 else pc + 1
  }

  /** One clock of the synchronized inputs, and whether the FIFO is drained in it. */
  datatype Sample = Sample(oscillator: bool, pps: bool, drain: bool)

  datatype Recognition = Recognition(cycle: nat, counter: U32)

  datatype Snapshot = Snapshot(cycle: nat, downCounter: U32, recognitionCycle: Option<nat>)

  datatype Machine = Machine(pc: Pc, x: U32, fifoDepth: nat, rxStall: bool, snapshots: seq<Snapshot>,
                             recognition: Option<Recognition>)

  /** The 32-bit counter `n` decrements below `x`. */
  function Down(x: int, n: int): U32 {
    (x - n) % WORD32
  }

  lemma DownDown(x: int, a: int, b: int)
    ensures Down(Down(x, a), b) == Down(x, a + b)
    ensures Down(x, a) == Down(x - a, 0)
  {
    ModMinus(x - a, b, WORD32);
  }

  lemma DownZero(x: U32)
    ensures Down(x, 0) == x
  {
  }

  /** The modular difference of two counts is the difference of their decrements. */
  lemma DownDelta(x: int, a: int, b: int)
    ensures DownCounterDelta(Down(x, a), Down(x, b)) == (b - a) % WORD32
  {
    ModMinus(x - a, Down(x, b), WORD32);
    ModMinus(x - a, x - b, WORD32);
  }

  function DownCounterDelta(first: int, second: int): int {
    (first - second) % WORD32
  }

  function Drained(m: Machine, s: Sample): nat {
    if s.drain && m.fifoDepth != 0 then m.fifoDepth - 1 else m.fifoDepth
  }

  /** Whether this clock completes a push. */
  predicate Pushes(m: Machine, s: Sample) {
    Listing(m.pc).PushX? && Drained(m, s) < FIFO_DEPTH
  }

  /** A completed push must come one clock after its recognition, with the count unchanged. */
  predicate Consistent(m: Machine, cycle: nat, s: Sample) {
    Pushes(m, s) && m.recognition.Some? ==>
      m.recognition.value.counter == m.x && cycle == m.recognition.value.cycle + 1
  }

  function Clock(m: Machine, cycle: nat, s: Sample): Machine {
    var m := m.(fifoDepth := Drained(m, s));
    match Listing(m.pc)
    case WaitPin(level) => if s.oscillator == level then m.(pc := Successor(m.pc)) else m
    case Decrement => m.(pc := Successor(m.pc), x := (m.x - 1) % WORD32)
    case Jump(target) => m.(pc := target)
    case JumpPps(target) =>
      if !s.pps then m.(pc := Successor(m.pc))
      else if m.pc == 2 || m.pc == 4 then m.(pc := target, recognition := Some(Recognition(cycle, m.x)))
      else m.(pc := target)
    case PushX =>
      if m.fifoDepth >= FIFO_DEPTH then m.(rxStall := true)
      else m.(pc := Successor(m.pc), fifoDepth := m.fifoDepth + 1, recognition := None,
              snapshots := m.snapshots + [Snapshot(cycle, m.x, RecognitionCycle(m.recognition))])
  }

  /** Where the program goes next; `stalled` is a push that found the FIFO full. */
  function NextPc(pc: Pc, oscillator: bool, pps: bool, stalled: bool): Pc {
    match Listing(pc)
    case WaitPin(level) => if oscillator == level then Successor(pc) else pc
    case Decrement => Successor(pc)
    case Jump(target) => target
    case JumpPps(target) => if pps then target else Successor(pc)
    case PushX => if stalled then pc else Successor(pc)
  }

  predicate IsPush(pc: Pc) {
    pc == 6 || pc == 10
  }

  predicate Decrements(pc: Pc) {
    pc == 1 || pc == 12
  }

  lemma ClockEffect(m: Machine, cycle: nat, s: Sample)
    ensures Listing(m.pc).PushX? <==> IsPush(m.pc)
    ensures Pushes(m, s) ==> IsPush(m.pc)
    ensures var next := Clock(m, cycle, s);
            && next.pc == NextPc(m.pc, s.oscillator, s.pps, !Pushes(m, s))
            && next.x == (if Decrements(m.pc) then Down(m.x, 1) else m.x)
            && (if Pushes(m, s) then
                  |next.snapshots| == |m.snapshots| + 1 && next.snapshots[|m.snapshots|].downCounter == m.x
                else next.snapshots == m.snapshots)
  {
  }

  function RecognitionCycle(r: Option<Recognition>): Option<nat> {
    match r
    case None => None
    case Some(r) => Some(r.cycle)
  }

  // ---- the interpreter of the assembled words ------------------------------------------

  class PioMachine {
    var pc: nat
    var x: U32
    var fifoDepth: nat
    var rxStall: bool
    var snapshots: seq<Snapshot>
    var recognition: Option<Recognition>

    ghost predicate Valid()
      reads this
    {
      pc < 15
    }

    ghost function View(): Machine
      reads this
      requires Valid()
    {
      Machine(pc, x, fifoDepth, rxStall, snapshots, recognition)
    }

    constructor (x: U32)
      ensures Valid() && View() == Machine(INITIAL_PC, x, 0, false, [], None)
    {
      pc, this.x, fifoDepth, rxStall, snapshots, recognition := INITIAL_PC, x, 0, false, [], None;
    }

    method Advance()
      requires pc < 15
      modifies `pc
      ensures pc == Successor(old(pc))
    {
      pc := pc + 1;
      if pc > WRAP {
        pc := 0;
      }
    }

    /**
     Decodes and executes one word.  The words implement the listing; `ok` is false where
     the interpreter raises a proof failure, which is exactly an inconsistent push: no
     word of the program decodes to an unsupported instruction.
     */
    method Step(cycle: nat, oscillator: bool, pps: bool, drain: bool) returns (ok: bool)
      requires Valid()
      modifies this
      ensures Valid()
      ensures ok <==> Consistent(old(View()), cycle, Sample(oscillator, pps, drain))
      ensures ok ==> View() == Clock(old(View()), cycle, Sample(oscillator, pps, drain))
    {
      ghost var was, sample := View(), Sample(oscillator, pps, drain);
      WordsDecode(pc);
      if drain && fifoDepth != 0 {
        fifoDepth := fifoDepth - 1;
      }
      var word := PROGRAM_WORDS[pc];
      var opcode := word / 0x2000;
      if opcode == 0 {
        var condition, target := word / 0x20 % 8, word % 0x20;
        var take;
        if condition == 0 {
          take := true;
        } else if condition == 2 {
          take := x != 0;
          x := (x - 1) % WORD32;
        } else if condition == 6 {
          take := pps;
          if take && (pc == 2 || pc == 4) {
            recognition := Some(Recognition(cycle, x));
          }
        } else {
          assert false;
        }
        if take {
          pc := target;
        } else {
          Advance();
        }
        return true;
      }
      if opcode == 1 {
        var polarity := word / 0x80 % 2 == 1;
        if oscillator == polarity {
          Advance();
        }
        return true;
      }
      if fifoDepth >= FIFO_DEPTH {
        rxStall := true;
        return true;
      }
      fifoDepth := fifoDepth + 1;
      if recognition.Some? {
        if x != recognition.value.counter || cycle != recognition.value.cycle + 1 {
          return false;
        }
      }
      snapshots := snapshots + [Snapshot(cycle, x, RecognitionCycle(recognition))];
      recognition := None;
      Advance();
      return true;
    }
  }

  /** What the decoded fields of a word must be for it to mean an instruction. */
  predicate Encodes(word: int, i: Instruction, pc: Pc) {
    match i
    case WaitPin(level) =>
      word / 0x2000 == 1 && (word / 0x80 % 2 == 1 <==> level) && word / 0x20 % 4 == 1 && word % 0x20 == 0
    case Decrement => word / 0x2000 == 0 && word / 0x20 % 8 == 2 && word % 0x20 == Successor(pc)
    case JumpPps(target) => word / 0x2000 == 0 && word / 0x20 % 8 == 6 && word % 0x20 == target
    case Jump(target) => word / 0x2000 == 0 && word / 0x20 % 8 == 0 && word % 0x20 == target
    case PushX => word / 0x2000 == 2 && word / 0x20 % 8 == 1 && word % 0x20 == 0
  }

  /** Every assembled word is the encoding of its line of the listing. */
  lemma WordsDecode(pc: Pc)
    ensures |PROGRAM_WORDS| == 15
    ensures Encodes(PROGRAM_WORDS[pc], Listing(pc), pc)
  {
  }

  // ---- runs ------------------------------------------------------------------------------

  /** The machine after the first `n` samples. */
  function After(m: Machine, samples: seq<Sample>, n: nat): Machine
    requires n <= |samples|
  {
    if n == 0 then m else Clock(After(m, samples, n - 1), n - 1, samples[n - 1])
  }

  function Initial(x: U32): Machine {
    Machine(INITIAL_PC, x, 0, false, [], None)
  }

  /** The level the program last waited for and saw. */
  predicate LastLevel(pc: Pc) {
    pc in {1, 2, 3, 6, 7, 12, 13, 14}
  }

  /** At most this many clocks pass before the next wait is executed. */
  function Remaining(pc: Pc): nat {
    if pc in {1, 12} then 3
    else if pc in {2, 4, 8, 13} then 2
    else if pc in {5, 6, 9, 10, 14} then 1
    else 0
  }

  /** Between two waits the program executes at most three other instructions, and the waits alternate. */
  lemma TimingPaths(pc: Pc, oscillator: bool, pps: bool)
    ensures Listing(pc).WaitPin? <==> Remaining(pc) == 0
    ensures Listing(pc).WaitPin? ==> Listing(pc).level == !LastLevel(pc)
    ensures var next := NextPc(pc, oscillator, pps, false);
            if Remaining(pc) > 0 then
              Remaining(next) < Remaining(pc) && LastLevel(next) == LastLevel(pc) && !Decrements(next)
            else if oscillator == LastLevel(pc) then
              next == pc
            else
              LastLevel(next) == oscillator && Remaining(next) == (if oscillator then 3 else 2)
              && (Decrements(next) <==> oscillator)
    ensures Decrements(pc) ==> Remaining(pc) == 3 && LastLevel(pc)
    ensures Remaining(pc) <= 3
  {
  }

  lemma PushFacts(m: Machine, cycle: nat, s: Sample)
    requires Pushes(m, s)
    ensures IsPush(m.pc) && Disarmed(Clock(m, cycle, s).pc) && !Disarmed(m.pc) && OnTheWay(m.pc) == 0
  {
  }

  lemma PathStep(m: Machine, samples: seq<Sample>, t: nat)
    requires t < |samples| && NoStall(m, samples, t + 1)
    ensures var pc, next := After(m, samples, t).pc, After(m, samples, t + 1).pc;
            next == NextPc(pc, samples[t].oscillator, samples[t].pps, false)
  {
    ClockEffect(After(m, samples, t), t, samples[t]);
  }

  /** How long the current oscillator level has lasted, this sample included. */
  function Dwell(samples: seq<Sample>, t: nat): (k: nat)
    requires t < |samples|
    ensures 1 <= k <= t + 1
  {
    if t == 0 || samples[t].oscillator != samples[t - 1].oscillator then 1 else Dwell(samples, t - 1) + 1
  }

  /** The first level may already be running when the machine starts. */
  predicate InFirstLevel(samples: seq<Sample>, t: nat)
    requires t < |samples|
  {
    Dwell(samples, t) == t + 1
  }

  const MINIMUM_DWELL: nat := 4

  /**
   Every level lasts at least four clocks.  Only the first may be cut short, and when it is
   high it loses at most `cut` of its four clocks; every stream has some cut of at most three.
   */
  ghost predicate Envelope(samples: seq<Sample>, cut: nat) {
    && cut <= 3
    && forall t :: 1 <= t < |samples| && samples[t].oscillator != samples[t - 1].oscillator ==>
         || Dwell(samples, t - 1) >= MINIMUM_DWELL
         || (InFirstLevel(samples, t - 1) && (samples[0].oscillator ==> Dwell(samples, t - 1) + cut >= MINIMUM_DWELL))
  }

  /** Oscillator cycles begun among the first `n` samples: a level already high at the start is one. */
  function Highs(samples: seq<Sample>, n: nat): nat
    requires n <= |samples|
  {
    if n == 0 then 0
    else Highs(samples, n - 1) +
         if samples[n - 1].oscillator && (n == 1 || !samples[n - 2].oscillator) then 1 else 0
  }

  function DecrementCount(m: Machine, samples: seq<Sample>, n: nat): nat
    requires n <= |samples|
  {
    if n == 0 then 0
    else DecrementCount(m, samples, n - 1) + if Decrements(After(m, samples, n - 1).pc) then 1 else 0
  }

  /** A cycle that has begun and whose decrement is still to come. */
  function Owed(pc: Pc, level: bool): nat {
    if Decrements(pc) || (level && !LastLevel(pc)) then 1 else 0
  }

  /** No push found the FIFO full among the first `n` samples. */
  ghost predicate NoStall(m: Machine, samples: seq<Sample>, n: nat)
    requires n <= |samples|
  {
    forall t :: 0 <= t < n && Listing(After(m, samples, t).pc).PushX? ==> Pushes(After(m, samples, t), samples[t])
  }

  /**
   How far behind the oscillator the program may be: `remaining` clocks from its next wait,
   having last seen `last`, in clock `dwell` of a level.
   */
  predicate Tracks(remaining: nat, last: bool, level: bool, dwell: nat, slack: nat) {
    if last == level then
      remaining == 0 || remaining + dwell <= (if level then 5 else 4) + slack
    else
      remaining + dwell <= (if remaining == 0 || !level then 1 else 0) + slack
  }

  lemma TracksStep(remaining: nat, last: bool, level: bool, dwell: nat, first: bool, cut: nat,
                   remaining': nat, last': bool, level': bool)
    requires Tracks(remaining, last, level, dwell, if first then 0 else cut) && cut <= 3 && dwell >= 1
    requires remaining > 0 ==> remaining' < remaining && last' == last
    requires remaining == 0 && level == last ==> remaining' == 0 && last' == last
    requires remaining == 0 && level != last ==> last' == level && remaining' == if level then 3 else 2
    requires remaining <= 3 && (first && !level ==> remaining == 0 && !last)
    requires level' != level ==> dwell >= 4 || (first && (level ==> dwell + cut >= 4))
    ensures Tracks(remaining', last', level', if level' == level then dwell + 1 else 1,
                   if first && level' == level then 0 else cut)
  {
  }

  function Slack(samples: seq<Sample>, t: nat, cut: nat): nat
    requires t < |samples|
  {
    if InFirstLevel(samples, t) then 0 else cut
  }

  lemma {:induction false} FirstLevelIsConstant(samples: seq<Sample>, t: nat)
    requires t < |samples| && InFirstLevel(samples, t)
    ensures samples[t].oscillator == samples[0].oscillator
  {
    if t > 0 {
      FirstLevelIsConstant(samples, t - 1);
    }
  }

  /** How dwell, first level and envelope move from one sample to the next. */
  lemma LevelStep(samples: seq<Sample>, cut: nat, t: nat)
    requires Envelope(samples, cut) && 1 <= t < |samples|
    ensures var same := samples[t].oscillator == samples[t - 1].oscillator;
            && Dwell(samples, t) == (if same then Dwell(samples, t - 1) + 1 else 1)
            && (InFirstLevel(samples, t) <==> InFirstLevel(samples, t - 1) && same)
            && (!same ==> Dwell(samples, t - 1) >= 4 ||
                          (InFirstLevel(samples, t - 1)
                            && (samples[t - 1].oscillator ==> Dwell(samples, t - 1) + cut >= 4)))
            && cut <= 3
  {
    if InFirstLevel(samples, t - 1) {
      FirstLevelIsConstant(samples, t - 1);
    }
  }

  lemma FirstSample(samples: seq<Sample>)
    requires |samples| > 0
    ensures InFirstLevel(samples, 0) && Dwell(samples, 0) == 1
  {
  }

  lemma EnvelopeCut(samples: seq<Sample>, cut: nat)
    requires Envelope(samples, cut)
    ensures cut <= 3
  {
  }

  lemma InitialFacts(x: U32)
    ensures Initial(x).x == x && Initial(x).pc == INITIAL_PC
  {
  }

  lemma NoStallPrefix(m: Machine, samples: seq<Sample>, n: nat, k: nat)
    requires k <= n <= |samples| && NoStall(m, samples, n)
    ensures NoStall(m, samples, k)
  {
  }

  lemma {:induction false} TracksOscillator(x: U32, samples: seq<Sample>, cut: nat, t: nat)
    requires Envelope(samples, cut) && t < |samples| && NoStall(Initial(x), samples, t)
    ensures var pc, level := After(Initial(x), samples, t).pc, samples[t].oscillator;
            && Tracks(Remaining(pc), LastLevel(pc), level, Dwell(samples, t), Slack(samples, t, cut))
            && (InFirstLevel(samples, t) && !level ==> pc == INITIAL_PC)
  {
    hide LastLevel, Remaining, Decrements, NextPc, Listing, Tracks, After, Envelope, NoStall, Dwell, InFirstLevel,
      Initial, Clock;
    FirstLevelFacts(samples[t].oscillator);
    InitialFacts(x);
    if t == 0 {
      FirstSample(samples);
      CountStart(Initial(x), samples);
    }
    if t > 0 {
      NoStallPrefix(Initial(x), samples, t, t - 1);
      TracksOscillator(x, samples, cut, t - 1);
      PathStep(Initial(x), samples, t - 1);
      LevelStep(samples, cut, t);
      var was, now := After(Initial(x), samples, t - 1).pc, After(Initial(x), samples, t).pc;
      TimingPaths(was, samples[t - 1].oscillator, samples[t - 1].pps);
      TracksStep(Remaining(was), LastLevel(was), samples[t - 1].oscillator, Dwell(samples, t - 1),
                 InFirstLevel(samples, t - 1), cut, Remaining(now), LastLevel(now), samples[t].oscillator);
    }
  }

  lemma FirstLevelFacts(level: bool)
    ensures !LastLevel(INITIAL_PC) && Remaining(INITIAL_PC) == 0 && !Decrements(INITIAL_PC)
    ensures Tracks(Remaining(INITIAL_PC), LastLevel(INITIAL_PC), level, 1, 0)
  {
  }

  // ---- counting --------------------------------------------------------------------------

  /** X moves only by a decrement, so it is the start value less the decrements so far. */
  lemma {:induction false} XCountsDecrements(m: Machine, samples: seq<Sample>, n: nat)
    requires n <= |samples|
    ensures After(m, samples, n).x == Down(m.x, DecrementCount(m, samples, n))
  {
    hide Clock, Decrements, Down;
    DownZero(m.x);
    if n > 0 {
      XCountsDecrements(m, samples, n - 1);
      ClockEffect(After(m, samples, n - 1), n - 1, samples[n - 1]);
      DownDown(m.x, DecrementCount(m, samples, n - 1), 1);
    }
  }

  lemma CountStep(m: Machine, samples: seq<Sample>, t: nat)
    requires 1 <= t < |samples|
    ensures DecrementCount(m, samples, t)
            == DecrementCount(m, samples, t - 1) + if Decrements(After(m, samples, t - 1).pc) then 1 else 0
    ensures Highs(samples, t + 1)
            == Highs(samples, t) + if samples[t].oscillator && !samples[t - 1].oscillator then 1 else 0
  {
  }

  lemma CountStart(m: Machine, samples: seq<Sample>)
    requires |samples| > 0
    ensures DecrementCount(m, samples, 0) == 0 && Highs(samples, 1) == if samples[0].oscillator then 1 else 0
    ensures After(m, samples, 0) == m
  {
  }

  lemma {:induction false} DecrementsCountHighs(x: U32, samples: seq<Sample>, cut: nat, t: nat)
    requires Envelope(samples, cut) && t < |samples| && NoStall(Initial(x), samples, t)
    ensures DecrementCount(Initial(x), samples, t)
            == Highs(samples, t + 1) - Owed(After(Initial(x), samples, t).pc, samples[t].oscillator)
  {
    hide LastLevel, Remaining, Decrements, NextPc, Listing, After, Envelope, NoStall, Dwell, InFirstLevel, Initial,
      DecrementCount, Highs, Clock;
    FirstLevelFacts(samples[t].oscillator);
    InitialFacts(x);
    if t == 0 {
      CountStart(Initial(x), samples);
    }
    if t > 0 {
      NoStallPrefix(Initial(x), samples, t, t - 1);
      DecrementsCountHighs(x, samples, cut, t - 1);
      TracksOscillator(x, samples, cut, t - 1);
      PathStep(Initial(x), samples, t - 1);
      CountStep(Initial(x), samples, t);
      LevelStep(samples, cut, t);
      var was := After(Initial(x), samples, t - 1).pc;
      TimingPaths(was, samples[t - 1].oscillator, samples[t - 1].pps);
    }
  }

  /**
   One decrement per oscillator cycle, on every stream: the counter is the start value less
   the cycles begun, but for at most one whose decrement is still owed, and that one is
   less than six clocks old.
   */
  lemma CounterCountsCycles(x: U32, samples: seq<Sample>, cut: nat, t: nat)
    requires Envelope(samples, cut) && t < |samples| && NoStall(Initial(x), samples, t)
    ensures After(Initial(x), samples, t).x
            == Down(x, Highs(samples, t + 1) - Owed(After(Initial(x), samples, t).pc, samples[t].oscillator))
    ensures Owed(After(Initial(x), samples, t).pc, samples[t].oscillator) == 1 ==>
              Dwell(samples, t) <= if samples[t].oscillator then 2 + cut else 1
  {
    hide After, Highs, DecrementCount, Envelope, NoStall, LastLevel, Remaining, Decrements, Dwell, InFirstLevel, Down,
      NextPc, Listing, Initial;
    InitialFacts(x);
    EnvelopeCut(samples, cut);
    XCountsDecrements(Initial(x), samples, t);
    DecrementsCountHighs(x, samples, cut, t);
    TracksOscillator(x, samples, cut, t);
    var pc := After(Initial(x), samples, t).pc;
    TimingPaths(pc, samples[t].oscillator, false);
  }

  // ---- recognition and snapshots -----------------------------------------------------------

  /** The checkpoints at which the program is ready to take the next PPS rise. */
  predicate Armed(pc: Pc) {
    pc in {0, 1, 2, 3, 4, 5, 9, 14}
  }

  /** The decrements between an armed state and its push, while PPS stays high. */
  function OnTheWay(pc: Pc): nat {
    if pc in {0, 1, 5, 9} then 1 else 0
  }

  ghost predicate PpsHigh(samples: seq<Sample>, from: nat, end: nat)
    requires from <= end <= |samples|
  {
    forall t :: from <= t < end ==> samples[t].pps
  }

  ghost predicate NoPush(m: Machine, samples: seq<Sample>, from: nat, end: nat)
    requires from <= end <= |samples|
  {
    forall t :: from <= t < end ==> !IsPush(After(m, samples, t).pc)
  }

  lemma HeadingStep(pc: Pc, oscillator: bool)
    requires Armed(pc)
    ensures var next := NextPc(pc, oscillator, true, false);
            && (Armed(next) || IsPush(next))
            && OnTheWay(pc) == OnTheWay(next) + if Decrements(pc) then 1 else 0
    ensures OnTheWay(pc) <= 1
  {
  }

  /** While PPS stays high an armed program keeps heading for one fixed word. */
  lemma {:induction false} HeadsForPush(m: Machine, samples: seq<Sample>, from: nat, end: nat)
    requires from <= end < |samples| && NoPush(m, samples, from, end)
    requires Armed(After(m, samples, from).pc) && PpsHigh(samples, from, end)
    ensures var pc := After(m, samples, end).pc;
            && (Armed(pc) || IsPush(pc))
            && Down(After(m, samples, end).x, OnTheWay(pc))
               == Down(After(m, samples, from).x, OnTheWay(After(m, samples, from).pc))
    decreases end - from
  {
    hide Clock, NextPc, Armed, OnTheWay, Decrements, IsPush, Listing, Down;
    if from < end {
      HeadsForPush(m, samples, from, end - 1);
      ClockEffect(After(m, samples, end - 1), end - 1, samples[end - 1]);
      NotPushing(After(m, samples, end - 1).pc, samples[end - 1].oscillator);
      HeadingStep(After(m, samples, end - 1).pc, samples[end - 1].oscillator);
      DownDown(After(m, samples, end - 1).x, 1, OnTheWay(After(m, samples, end).pc));
    }
  }

  lemma NotPushing(pc: Pc, oscillator: bool)
    requires !IsPush(pc)
    ensures NextPc(pc, oscillator, true, true) == NextPc(pc, oscillator, true, false)
  {
  }

  /** A PPS rise recognised while armed: where it is sampled and where its word is pushed. */
  ghost predicate Recognised(m: Machine, samples: seq<Sample>, rise: nat, push: nat) {
    && rise <= push < |samples|
    && Armed(After(m, samples, rise).pc) && PpsHigh(samples, rise, push) && NoPush(m, samples, rise, push)
    && Pushes(After(m, samples, push), samples[push])
  }

  /** The word pushed for a PPS rise is the counter at the rise, less at most one decrement. */
  lemma PushedWord(m: Machine, samples: seq<Sample>, rise: nat, push: nat)
    requires Recognised(m, samples, rise, push)
    ensures After(m, samples, push).x
            == Down(After(m, samples, rise).x, OnTheWay(After(m, samples, rise).pc))
    ensures OnTheWay(After(m, samples, rise).pc) <= 1
  {
    hide Clock, After, Armed, OnTheWay, Down, Pushes, Listing, IsPush, NoPush, PpsHigh, NextPc, Disarmed;
    HeadsForPush(m, samples, rise, push);
    PushFacts(After(m, samples, push), push, samples[push]);
    HeadingStep(After(m, samples, rise).pc, false);
    DownZero(After(m, samples, push).x);
  }

  /** The cycles a pushed word counts beyond those begun when its rise was sampled. */
  function SnapshotError(m: Machine, samples: seq<Sample>, rise: nat): int
    requires rise < |samples|
  {
    var pc := After(m, samples, rise).pc;
    OnTheWay(pc) - Owed(pc, samples[rise].oscillator)
  }

  lemma RecognisedFacts(m: Machine, samples: seq<Sample>, rise: nat, push: nat)
    requires Recognised(m, samples, rise, push)
    ensures rise <= push < |samples| && Armed(After(m, samples, rise).pc)
  {
  }

  lemma ArmedError(pc: Pc, level: bool, dwell: nat, slack: nat)
    requires Armed(pc) && Tracks(Remaining(pc), LastLevel(pc), level, dwell, slack) && dwell >= 1 && slack <= 3
    ensures (if slack == 3 then -1 else 0) <= OnTheWay(pc) - Owed(pc, level) <= 1
  {
  }

  lemma SnapshotCountsCycles(x: U32, samples: seq<Sample>, cut: nat, rise: nat, push: nat)
    requires Envelope(samples, cut) && NoStall(Initial(x), samples, |samples|)
    requires Recognised(Initial(x), samples, rise, push)
    ensures After(Initial(x), samples, push).x
            == Down(x, Highs(samples, rise + 1) + SnapshotError(Initial(x), samples, rise))
    ensures (if cut == 3 then -1 else 0) <= SnapshotError(Initial(x), samples, rise) <= 1
  {
    hide After, Highs, Recognised, LastLevel, Remaining, Armed, OnTheWay, Owed, Dwell, InFirstLevel, Tracks, Down,
      Envelope, NoStall, Initial;
    RecognisedFacts(Initial(x), samples, rise, push);
    NoStallPrefix(Initial(x), samples, |samples|, rise);
    EnvelopeCut(samples, cut);
    CounterCountsCycles(x, samples, cut, rise);
    TracksOscillator(x, samples, cut, rise);
    PushedWord(Initial(x), samples, rise, push);
    var pc := After(Initial(x), samples, rise).pc;
    var level := samples[rise].oscillator;
    ArmedError(pc, level, Dwell(samples, rise), Slack(samples, rise, cut));
    DownDown(x, Highs(samples, rise + 1) - Owed(pc, level), OnTheWay(pc));
  }

  // ---- where the error of a word comes from --------------------------------------------------

  /** The program has not yet seen the level it is asked to snapshot. */
  predicate Behind(pc: Pc, level: bool) {
    pc == 4 && level
  }

  /** The program has left the low checkpoint, and will count the next cycle before it takes the rise. */
  predicate Ahead(pc: Pc, level: bool) {
    pc in {0, 5, 9} && !level
  }

  /** The rise is sampled one clock after four low ones that follow a single high one, and clock 2 read PPS low. */
  predicate CutRise(samples: seq<Sample>, rise: nat) {
    && rise == 5 && |samples| > 5 && !samples[2].pps
    && samples[0].oscillator && samples[5].oscillator
    && !samples[1].oscillator && !samples[2].oscillator && !samples[3].oscillator && !samples[4].oscillator
  }

  lemma ErrorCases(pc: Pc, level: bool)
    requires Armed(pc)
    ensures OnTheWay(pc) - Owed(pc, level) == if Behind(pc, level) then -1 else if Ahead(pc, level) then 1 else 0
  {
  }

  /** One clock earlier. */
  lemma StepBack(x: U32, samples: seq<Sample>, t: nat)
    requires 0 < t < |samples| && NoStall(Initial(x), samples, |samples|)
    ensures After(Initial(x), samples, t).pc
            == NextPc(After(Initial(x), samples, t - 1).pc, samples[t - 1].oscillator, samples[t - 1].pps, false)
  {
    hide NextPc, NoStall, After, Clock, Initial;
    NoStallPrefix(Initial(x), samples, |samples|, t);
    PathStep(Initial(x), samples, t - 1);
  }

  lemma StartsAt(x: U32, samples: seq<Sample>)
    ensures After(Initial(x), samples, 0).pc == INITIAL_PC
  {
  }

  /** What the clock before an instruction must have been. */
  predicate CameFrom(next: Pc, pc: Pc, oscillator: bool, pps: bool) {
    && (next == 4 ==> pc == 3 && !oscillator)
    && (next == 3 && !oscillator ==> pc == 2 || pc == 14)
    && (next == 2 ==> pc == 1)
    && (next == 1 ==> pc == 0 && oscillator)
    && (next == 14 ==> pc == 13 && !pps)
    && (next == 13 ==> pc == 12)
    && (next == 12 ==> pc == 11 && oscillator)
    && (next == 11 && oscillator ==> pc == 8 || pc == 10)
    && (next == 8 ==> pc == 7 && !oscillator)
    && (next == 10 ==> pc == 4)
  }

  lemma Predecessors(pc: Pc, oscillator: bool, pps: bool)
    ensures CameFrom(NextPc(pc, oscillator, pps, false), pc, oscillator, pps)
  {
  }

  lemma Came(x: U32, samples: seq<Sample>, t: nat)
    requires t < |samples| && NoStall(Initial(x), samples, |samples|)
    ensures t == 0 ==> After(Initial(x), samples, t).pc == INITIAL_PC
    ensures t > 0 ==> CameFrom(After(Initial(x), samples, t).pc, After(Initial(x), samples, t - 1).pc,
                               samples[t - 1].oscillator, samples[t - 1].pps)
  {
    hide NextPc, NoStall, After, Clock, Initial, CameFrom;
    StartsAt(x, samples);
    if t > 0 {
      StepBack(x, samples, t);
      Predecessors(After(Initial(x), samples, t - 1).pc, samples[t - 1].oscillator, samples[t - 1].pps);
    }
  }

  lemma {:induction false} DwellBack(samples: seq<Sample>, t: nat, k: nat)
    requires t < |samples| && k < Dwell(samples, t)
    ensures samples[t - k].oscillator == samples[t].oscillator && Dwell(samples, t - k) == Dwell(samples, t) - k
  {
    if k > 0 {
      DwellBack(samples, t, k - 1);
    }
  }

  /** Four low clocks, none of them the first of the stream. */
  predicate FourLow(samples: seq<Sample>, t: nat) {
    && 5 <= t < |samples| && !samples[t - 1].oscillator && !samples[t - 2].oscillator
    && !samples[t - 3].oscillator && !samples[t - 4].oscillator
  }

  /** A program that is behind was at the low wait one clock ago, at the end of four low clocks. */
  lemma BehindWaited(x: U32, samples: seq<Sample>, cut: nat, t: nat)
    requires Envelope(samples, cut) && t < |samples| && NoStall(Initial(x), samples, |samples|)
    requires Behind(After(Initial(x), samples, t).pc, samples[t].oscillator)
    ensures FourLow(samples, t) && After(Initial(x), samples, t - 1).pc == 3
  {
    hide After, Envelope, NoStall, Dwell, Initial, Clock, LastLevel, Remaining, Tracks;
    Came(x, samples, t);
    LevelStep(samples, cut, t);
    NoStallPrefix(Initial(x), samples, |samples|, t - 1);
    TracksOscillator(x, samples, cut, t - 1);
    DwellBack(samples, t - 1, 1);
    DwellBack(samples, t - 1, 2);
    DwellBack(samples, t - 1, 3);
  }

  /** Before them came one high clock, seen from the start of the program, and a checkpoint that read PPS low. */
  lemma BehindCame(x: U32, samples: seq<Sample>, t: nat)
    requires FourLow(samples, t) && NoStall(Initial(x), samples, |samples|)
    requires After(Initial(x), samples, t - 1).pc == 3
    ensures After(Initial(x), samples, t - 5).pc == INITIAL_PC && !samples[t - 3].pps && samples[t - 5].oscillator
  {
    hide After, NoStall, Initial;
    Came(x, samples, t - 1);
    Came(x, samples, t - 2);
    Came(x, samples, t - 3);
    Came(x, samples, t - 4);
  }

  /** The high clock the program sees from its start, just before the level falls, is the first of the stream. */
  lemma FallsFirst(x: U32, samples: seq<Sample>, cut: nat, u: nat)
    requires Envelope(samples, cut) && u + 1 < |samples| && NoStall(Initial(x), samples, |samples|)
    requires After(Initial(x), samples, u).pc == INITIAL_PC && samples[u].oscillator && !samples[u + 1].oscillator
    ensures u == 0
  {
    hide After, Envelope, NoStall, Dwell, Initial, InFirstLevel;
    if u > 0 {
      LevelStep(samples, cut, u + 1);
      LongHigh(x, samples, u);
      DwellBack(samples, u, 1);
      DwellBack(samples, u, 2);
      DwellBack(samples, u, 3);
      Came(x, samples, u);
      Came(x, samples, u - 1);
      Came(x, samples, u - 2);
      assert false;
    }
  }

  /** A high level the program is still to see has lasted four clocks, or the program would have left its start. */
  lemma LongHigh(x: U32, samples: seq<Sample>, u: nat)
    requires 0 < u < |samples| && NoStall(Initial(x), samples, |samples|)
    requires After(Initial(x), samples, u).pc == INITIAL_PC && samples[u].oscillator
    requires Dwell(samples, u) >= 4 || InFirstLevel(samples, u)
    ensures Dwell(samples, u) >= 4
  {
    hide After, NoStall, Dwell, Initial, Clock;
    if InFirstLevel(samples, u) {
      DwellBack(samples, u, u);
      StartsAt(x, samples);
      StepBack(x, samples, 1);
      if u >= 2 {
        StepBack(x, samples, 2);
      }
    }
  }

  /** The program counters of a cut rise. */
  lemma CutRiseRun(x: U32, samples: seq<Sample>, rise: nat)
    requires CutRise(samples, rise) && NoStall(Initial(x), samples, |samples|)
    ensures var m := Initial(x);
            && After(m, samples, 0).pc == 11 && After(m, samples, 1).pc == 12 && After(m, samples, 2).pc == 13
            && After(m, samples, 3).pc == 14 && After(m, samples, 4).pc == 3 && After(m, samples, 5).pc == 4
  {
    hide After, NoStall, Initial, Clock, NextPc;
    StartsAt(x, samples);
    StepBack(x, samples, 1);
    StepBack(x, samples, 2);
    StepBack(x, samples, 3);
    StepBack(x, samples, 4);
    StepBack(x, samples, 5);
    CutPath(samples[2].pps);
  }

  lemma CutPath(pps: bool)
    ensures forall p :: NextPc(11, true, p, false) == 12 && NextPc(12, false, p, false) == 13
    ensures forall p :: NextPc(14, false, p, false) == 3 && NextPc(3, false, p, false) == 4
    ensures !pps ==> NextPc(13, false, pps, false) == 14
  {
  }

  /** The program is behind exactly at a cut rise. */
  lemma BehindExactly(x: U32, samples: seq<Sample>, cut: nat, t: nat)
    requires Envelope(samples, cut) && t < |samples| && NoStall(Initial(x), samples, |samples|)
    ensures Behind(After(Initial(x), samples, t).pc, samples[t].oscillator) <==> CutRise(samples, t)
  {
    hide After, Envelope, NoStall, Initial, Clock;
    if Behind(After(Initial(x), samples, t).pc, samples[t].oscillator) {
      BehindWaited(x, samples, cut, t);
      BehindCame(x, samples, t);
      FallsFirst(x, samples, cut, t - 5);
    }
    if CutRise(samples, t) {
      CutRiseRun(x, samples, t);
    }
  }

  /** The program is ahead only from the third clock of a low level on, and in an uncut stream always then. */
  lemma AheadIsLateLow(x: U32, samples: seq<Sample>, cut: nat, rise: nat)
    requires Envelope(samples, cut) && rise < |samples| && NoStall(Initial(x), samples, |samples|)
    requires Armed(After(Initial(x), samples, rise).pc)
    ensures var pc, level := After(Initial(x), samples, rise).pc, samples[rise].oscillator;
            && (Ahead(pc, level) ==> !level && Dwell(samples, rise) >= 3)
            && (cut == 0 && !level && Dwell(samples, rise) >= 3 ==> Ahead(pc, level))
  {
    hide After, Envelope, NoStall, Initial, Dwell, InFirstLevel;
    NoStallPrefix(Initial(x), samples, |samples|, rise);
    TracksOscillator(x, samples, cut, rise);
    AgeBounds(x, samples, cut, rise);
  }

  /** The error of a word, exactly: one less at a cut rise only, one more where the program is ahead. */
  lemma SnapshotErrorExactly(x: U32, samples: seq<Sample>, cut: nat, rise: nat)
    requires Envelope(samples, cut) && rise < |samples| && NoStall(Initial(x), samples, |samples|)
    requires Armed(After(Initial(x), samples, rise).pc)
    ensures SnapshotError(Initial(x), samples, rise)
            == if CutRise(samples, rise) then -1
               else if Ahead(After(Initial(x), samples, rise).pc, samples[rise].oscillator) then 1 else 0
  {
    hide After, Envelope, NoStall, Initial, Armed, OnTheWay, Owed, Behind, Ahead, CutRise;
    ErrorCases(After(Initial(x), samples, rise).pc, samples[rise].oscillator);
    BehindExactly(x, samples, cut, rise);
  }

  /** No earlier rise of a cut stream finds the program ahead. */
  lemma CutRiseIsFirst(x: U32, samples: seq<Sample>, first: nat, rise: nat)
    requires CutRise(samples, rise) && first <= rise && NoStall(Initial(x), samples, |samples|)
    ensures !Ahead(After(Initial(x), samples, first).pc, samples[first].oscillator)
  {
    hide After, NoStall, Initial;
    CutRiseRun(x, samples, rise);
  }

  /**
   Boundary quantisation does not accumulate.  Over any number of PPS intervals the
   difference of two pushed words is the number of oscillator cycles begun between the two
   sampled rises, to within one cycle, unless the first rise is the cut one and the second
   finds the program ahead; then, and only then, it is two cycles more.
   */
  lemma SnapshotDifference(x: U32, samples: seq<Sample>, cut: nat, rise1: nat, push1: nat, rise2: nat, push2: nat)
    requires Envelope(samples, cut) && NoStall(Initial(x), samples, |samples|)
    requires Recognised(Initial(x), samples, rise1, push1) && Recognised(Initial(x), samples, rise2, push2)
    requires rise1 <= rise2 < |samples| && push1 < |samples| && push2 < |samples|
    ensures var error := SnapshotError(Initial(x), samples, rise2) - SnapshotError(Initial(x), samples, rise1);
            && DownCounterDelta(After(Initial(x), samples, push1).x, After(Initial(x), samples, push2).x)
               == (Highs(samples, rise2 + 1) - Highs(samples, rise1 + 1) + error) % WORD32
            && -1 <= error <= 2
            && (Abs(error) <= 1 <==> !(CutRise(samples, rise1)
                                       && Ahead(After(Initial(x), samples, rise2).pc, samples[rise2].oscillator)))
  {
    hide After, Highs, Envelope, NoStall, Recognised, SnapshotError, Down, DownCounterDelta, Initial, CutRise, Ahead;
    RecognisedFacts(Initial(x), samples, rise1, push1);
    RecognisedFacts(Initial(x), samples, rise2, push2);
    SnapshotCountsCycles(x, samples, cut, rise1, push1);
    SnapshotCountsCycles(x, samples, cut, rise2, push2);
    SnapshotErrorExactly(x, samples, cut, rise1);
    SnapshotErrorExactly(x, samples, cut, rise2);
    if CutRise(samples, rise2) {
      CutRiseIsFirst(x, samples, rise1, rise2);
      CutRiseIsFirst(x, samples, rise2, rise2);
    }
    DownDelta(x, Highs(samples, rise1 + 1) + SnapshotError(Initial(x), samples, rise1),
              Highs(samples, rise2 + 1) + SnapshotError(Initial(x), samples, rise2));
  }

  // ---- the second cycle of a cut stream ------------------------------------------------------

  /** The oscillator is caught in the last clock of a high level; two PPS rises follow. */
  function CutStream(): (w: seq<Sample>)
    ensures |w| == 25
    ensures forall t :: 0 <= t < 25 ==> w[t] == CutSample(t)
  {
    seq(25, t => CutSample(t))
  }

  function CutSample(t: int): Sample {
    Sample(t == 0 || (t >= 5 && (t - 5) / 4 % 2 == 0), 5 <= t < 7 || t >= 19, true)
  }

  /** One clock from a known program counter and count. */
  lemma CutStep(t: nat, pc: Pc, x: U32)
    requires t < 25 && After(Initial(10), CutStream(), t).pc == pc && After(Initial(10), CutStream(), t).x == x
    requires x > 0 && NoStall(Initial(10), CutStream(), 25)
    ensures var next, s := After(Initial(10), CutStream(), t + 1), CutSample(t);
            next.pc == NextPc(pc, s.oscillator, s.pps, false) && next.x == if Decrements(pc) then x - 1 else x
  {
    hide CutSample, NextPc, Decrements, Clock, Listing, Initial, NoStall;
    NoStallPrefix(Initial(10), CutStream(), 25, t + 1);
    PathStep(Initial(10), CutStream(), t);
    ClockEffect(After(Initial(10), CutStream(), t), t, CutStream()[t]);
    DownOne(x);
  }

  lemma DownOne(x: U32)
    requires x > 0
    ensures Down(x, 1) == x - 1
  {
  }

  lemma CutStart()
    ensures After(Initial(10), CutStream(), 0).pc == INITIAL_PC && After(Initial(10), CutStream(), 0).x == 10
  {
  }

  lemma CutFirst()
    requires NoStall(Initial(10), CutStream(), 25)
    ensures var m, w := Initial(10), CutStream();
            && After(m, w, 5).pc == 4 && After(m, w, 5).x == 9
            && After(m, w, 6).pc == 10 && After(m, w, 6).x == 9
  {
    hide After, NoStall, CutStream;
    CutStart();
    CutStep(0, 11, 10);
    CutStep(1, 12, 10);
    CutStep(2, 13, 9);
    CutStep(3, 14, 9);
    CutStep(4, 3, 9);
    CutStep(5, 4, 9);
  }

  lemma CutSecond()
    requires NoStall(Initial(10), CutStream(), 25)
    requires After(Initial(10), CutStream(), 6).pc == 10 && After(Initial(10), CutStream(), 6).x == 9
    ensures After(Initial(10), CutStream(), 12).pc == 4 && After(Initial(10), CutStream(), 12).x == 8
  {
    hide After, NoStall, CutStream;
    CutStep(6, 10, 9);
    CutStep(7, 11, 9);
    CutStep(8, 12, 9);
    CutStep(9, 13, 8);
    CutStep(10, 14, 8);
    CutStep(11, 3, 8);
  }

  lemma CutMiddle()
    requires NoStall(Initial(10), CutStream(), 25)
    requires After(Initial(10), CutStream(), 12).pc == 4 && After(Initial(10), CutStream(), 12).x == 8
    ensures After(Initial(10), CutStream(), 19).pc == 5 && After(Initial(10), CutStream(), 19).x == 7
  {
    hide After, NoStall, CutStream;
    CutStep(12, 4, 8);
    CutStep(13, 5, 8);
    CutStep(14, 0, 8);
    CutStep(15, 1, 8);
    CutStep(16, 2, 7);
    CutStep(17, 3, 7);
    CutStep(18, 4, 7);
  }

  lemma CutThird()
    requires NoStall(Initial(10), CutStream(), 25)
    requires After(Initial(10), CutStream(), 19).pc == 5 && After(Initial(10), CutStream(), 19).x == 7
    ensures var m, w := Initial(10), CutStream();
            && After(m, w, 20).pc == 0 && After(m, w, 20).x == 7
            && After(m, w, 21).pc == 0 && After(m, w, 21).x == 7
            && After(m, w, 22).pc == 1 && After(m, w, 22).x == 7
            && After(m, w, 23).pc == 2 && After(m, w, 23).x == 6
            && After(m, w, 24).pc == 6 && After(m, w, 24).x == 6
  {
    hide After, NoStall, CutStream;
    CutStep(19, 5, 7);
    CutStep(20, 0, 7);
    CutStep(21, 0, 7);
    CutStep(22, 1, 7);
    CutStep(23, 2, 6);
  }

  lemma CutEnvelope()
    ensures Envelope(CutStream(), 3)
  {
    var w := CutStream();
    forall t | 1 <= t < 25 && w[t].oscillator != w[t - 1].oscillator
      ensures Dwell(w, t - 1) >= MINIMUM_DWELL || (t == 1 && InFirstLevel(w, 0))
    {
      if t > 1 {
        assert t in {5, 9, 13, 17, 21};
        FourClocks(t);
      }
    }
  }

  lemma FourClocks(t: nat)
    requires t in {5, 9, 13, 17, 21}
    ensures Dwell(CutStream(), t - 1) >= MINIMUM_DWELL
  {
    var w := CutStream();
    assert Dwell(w, t - 3) >= 2;
    assert Dwell(w, t - 1) == Dwell(w, t - 2) + 1;
  }

  lemma CutHighs()
    ensures Highs(CutStream(), 6) == 2 && Highs(CutStream(), 20) == 3
  {
    var w := CutStream();
    assert Highs(w, 1) == 1;
    assert Highs(w, 3) == 1;
    assert Highs(w, 5) == 1;
    assert Highs(w, 7) == 2;
    assert Highs(w, 9) == 2;
    assert Highs(w, 11) == 2;
    assert Highs(w, 13) == 2;
    assert Highs(w, 15) == 3;
    assert Highs(w, 17) == 3;
    assert Highs(w, 19) == 3;
  }

  /**
   In this stream one cycle begins between the two rises and their words differ by three: the wider
   bound is reached.
   */
  lemma CutStreamNeedsTwo()
    ensures var m, w := Initial(10), CutStream();
            && Envelope(w, 3) && NoStall(m, w, |w|) && Recognised(m, w, 5, 6) && Recognised(m, w, 19, 24)
            && DownCounterDelta(After(m, w, 6).x, After(m, w, 24).x) == Highs(w, 20) - Highs(w, 6) + 2
  {
    hide After, Envelope, CutStream, Highs, Clock;
    var m, w := Initial(10), CutStream();
    DrainedNeverStalls(10, w);
    CutFirst();
    CutSecond();
    CutMiddle();
    CutThird();
    CutEnvelope();
    CutHighs();
    CutPushes(6);
    CutPushes(24);
  }

  lemma CutPushes(t: nat)
    requires t < 25 && IsPush(After(Initial(10), CutStream(), t).pc) && NoStall(Initial(10), CutStream(), 25)
    ensures Pushes(After(Initial(10), CutStream(), t), CutStream()[t])
  {
    hide NoStall, After, Pushes, CutStream, Initial, IsPush;
    NoStallAt(Initial(10), CutStream(), 25, t);
  }

  /** Whatever the oscillator does, words differ as the counter did at the two rises, to within one. */
  lemma WordsFollowCounter(m: Machine, samples: seq<Sample>, rise1: nat, push1: nat, rise2: nat, push2: nat)
    requires Recognised(m, samples, rise1, push1) && Recognised(m, samples, rise2, push2)
    requires rise1 < |samples| && rise2 < |samples| && push1 < |samples| && push2 < |samples|
    ensures var error := OnTheWay(After(m, samples, rise2).pc) - OnTheWay(After(m, samples, rise1).pc);
            && -1 <= error <= 1
            && DownCounterDelta(After(m, samples, push1).x, After(m, samples, push2).x)
               == (DownCounterDelta(After(m, samples, rise1).x, After(m, samples, rise2).x) + error) % WORD32
  {
    hide After, Recognised, OnTheWay;
    PushedWord(m, samples, rise1, push1);
    PushedWord(m, samples, rise2, push2);
    DeltaShift(After(m, samples, rise1).x, OnTheWay(After(m, samples, rise1).pc),
               After(m, samples, rise2).x, OnTheWay(After(m, samples, rise2).pc));
  }

  lemma DeltaShift(x: int, a: int, y: int, b: int)
    ensures DownCounterDelta(Down(x, a), Down(y, b)) == (DownCounterDelta(x, y) + (b - a)) % WORD32
  {
    ModMinus(x - a, Down(y, b), WORD32);
    ModMinus(x - a, y - b, WORD32);
    ModMinus(x - y, a - b, WORD32);
  }

  // ---- one snapshot per pulse --------------------------------------------------------------

  /** The half of the program that has taken a rise and waits to see PPS low. */
  predicate Disarmed(pc: Pc) {
    pc in {7, 8, 11, 12, 13}
  }

  /** A checkpoint of that half reads PPS low: the only way to become armed again. */
  ghost predicate RearmsAt(m: Machine, samples: seq<Sample>, t: nat) {
    t < |samples| && Disarmed(After(m, samples, t).pc) && Listing(After(m, samples, t).pc).JumpPps? && !samples[t].pps
  }

  lemma DisarmedStep(pc: Pc, oscillator: bool, pps: bool, stalled: bool)
    ensures Disarmed(pc) && (Listing(pc).JumpPps? ==> pps) ==> Disarmed(NextPc(pc, oscillator, pps, stalled))
    ensures IsPush(pc) && !stalled ==> Disarmed(NextPc(pc, oscillator, pps, stalled))
    ensures Disarmed(pc) ==> !IsPush(pc)
  {
  }

  lemma NoRearm(m: Machine, samples: seq<Sample>, t: nat)
    requires t < |samples| && Disarmed(After(m, samples, t).pc) && !RearmsAt(m, samples, t)
    ensures Listing(After(m, samples, t).pc).JumpPps? ==> samples[t].pps
  {
  }

  lemma {:induction false} StaysDisarmed(m: Machine, samples: seq<Sample>, from: nat, end: nat)
    requires from <= end <= |samples| && Disarmed(After(m, samples, from).pc)
    requires forall t :: from <= t < end ==> !RearmsAt(m, samples, t)
    ensures Disarmed(After(m, samples, end).pc)
    decreases end - from
  {
    hide Clock, NextPc, Disarmed, Listing, Pushes, RearmsAt;
    if from < end {
      StaysDisarmed(m, samples, from, end - 1);
      var before := After(m, samples, end - 1);
      ClockEffect(before, end - 1, samples[end - 1]);
      DisarmedStep(before.pc, samples[end - 1].oscillator, samples[end - 1].pps, !Pushes(before, samples[end - 1]));
      NoRearm(m, samples, end - 1);
    }
  }

  lemma AfterNext(m: Machine, samples: seq<Sample>, t: nat)
    requires t < |samples|
    ensures After(m, samples, t + 1) == Clock(After(m, samples, t), t, samples[t])
  {
  }

  /** Between two pushed words some checkpoint reads PPS low: one pulse never gives two words. */
  lemma PulseGivesOneWord(m: Machine, samples: seq<Sample>, push1: nat, push2: nat)
    requires push1 < push2 < |samples|
    requires Pushes(After(m, samples, push1), samples[push1]) && Pushes(After(m, samples, push2), samples[push2])
    ensures exists t :: push1 < t < push2 && RearmsAt(m, samples, t)
  {
    hide Clock, NextPc, Disarmed, Listing, Pushes, RearmsAt, After;
    PushFacts(After(m, samples, push1), push1, samples[push1]);
    PushFacts(After(m, samples, push2), push2, samples[push2]);
    if forall t :: push1 < t < push2 ==> !RearmsAt(m, samples, t) {
      AfterNext(m, samples, push1);
      StaysDisarmed(m, samples, push1 + 1, push2);
    }
  }

  /** A machine started while PPS is high pushes nothing until PPS has been seen low. */
  lemma StartupPulseIsSuppressed(x: U32, samples: seq<Sample>, push: nat)
    requires push < |samples| && Pushes(After(Initial(x), samples, push), samples[push])
    ensures exists t :: 0 <= t < push && RearmsAt(Initial(x), samples, t)
  {
    PushFacts(After(Initial(x), samples, push), push, samples[push]);
    if forall t :: 0 <= t < push ==> !RearmsAt(Initial(x), samples, t) {
      assert After(Initial(x), samples, 0) == Initial(x);
      StaysDisarmed(Initial(x), samples, 0, push);
    }
  }

  // ---- no proof failure, no stall ------------------------------------------------------------

  lemma RecognitionStep(m: Machine, cycle: nat, s: Sample)
    requires IsPush(m.pc) ==> Pushes(m, s)
    requires m.recognition.Some? ==> IsPush(m.pc)
    ensures var next := Clock(m, cycle, s);
            next.recognition == if IsPush(next.pc) then Some(Recognition(cycle, next.x)) else None
    ensures Pushes(m, s) ==>
              Clock(m, cycle, s).snapshots == m.snapshots + [Snapshot(cycle, m.x, RecognitionCycle(m.recognition))]
  {
  }

  /** Without a stall, the program is at a push exactly one clock after its recognition, with the count unchanged. */
  lemma {:induction false} PushFollowsRecognition(x: U32, samples: seq<Sample>, t: nat)
    requires t <= |samples| && NoStall(Initial(x), samples, t)
    ensures var m := After(Initial(x), samples, t);
            m.recognition == if IsPush(m.pc) then Some(Recognition(t - 1, m.x)) else None
    ensures IsPush(After(Initial(x), samples, t).pc) ==> t >= 1
  {
    hide Clock, Pushes, Listing, Initial;
    StartsUnrecognised(x);
    if t > 0 {
      PushFollowsRecognition(x, samples, t - 1);
      NoStallAt(Initial(x), samples, t, t - 1);
      RecognitionStep(After(Initial(x), samples, t - 1), t - 1, samples[t - 1]);
    }
  }

  lemma StartsUnrecognised(x: U32)
    ensures Initial(x).recognition == None && !IsPush(Initial(x).pc) && Initial(x).fifoDepth == 0
  {
  }

  lemma NoStallAt(m: Machine, samples: seq<Sample>, n: nat, t: nat)
    requires t < n <= |samples| && NoStall(m, samples, n)
    ensures IsPush(After(m, samples, t).pc) ==> Pushes(After(m, samples, t), samples[t])
  {
    hide After, Pushes;
  }

  /** The interpreter never raises: every push of a run without stalls passes both of its checks. */
  lemma NeverInconsistent(x: U32, samples: seq<Sample>, t: nat)
    requires t < |samples| && NoStall(Initial(x), samples, t)
    ensures Consistent(After(Initial(x), samples, t), t, samples[t])
  {
    PushFollowsRecognition(x, samples, t);
    hide After, Clock, NoStall;
  }

  /**
   The interpreter raises exactly at a completed push whose recognition saw another count, or not
   the clock before.
   */
  lemma InconsistencyMeans(m: Machine, cycle: nat, s: Sample)
    ensures var depth := if s.drain && m.fifoDepth > 0 then m.fifoDepth - 1 else m.fifoDepth;
            !Consistent(m, cycle, s)
            <==> && (m.pc == 6 || m.pc == 10) && depth < 8 && m.recognition.Some?
                 && (m.recognition.value.counter != m.x || cycle != m.recognition.value.cycle + 1)
  {
  }

  lemma DrainStep(m: Machine, cycle: nat, s: Sample)
    requires s.drain && m.fifoDepth <= 1
    ensures Clock(m, cycle, s).fifoDepth <= 1 && (Listing(m.pc).PushX? ==> Pushes(m, s))
  {
  }

  lemma {:induction false} DrainedDepth(x: U32, samples: seq<Sample>, n: nat)
    requires n <= |samples| && forall t :: 0 <= t < n ==> samples[t].drain
    ensures After(Initial(x), samples, n).fifoDepth <= 1
  {
    hide Clock, Initial;
    StartsUnrecognised(x);
    if n > 0 {
      DrainedDepth(x, samples, n - 1);
      DrainStep(After(Initial(x), samples, n - 1), n - 1, samples[n - 1]);
    }
  }

  /** A FIFO drained in every clock never stalls the program, however long the run. */
  lemma DrainedNeverStalls(x: U32, samples: seq<Sample>)
    requires forall t :: 0 <= t < |samples| ==> samples[t].drain
    ensures NoStall(Initial(x), samples, |samples|)
  {
    hide Clock, After, Initial;
    forall t | 0 <= t < |samples| && Listing(After(Initial(x), samples, t).pc).PushX?
      ensures Pushes(After(Initial(x), samples, t), samples[t])
    {
      DrainedDepth(x, samples, t);
      DrainStep(After(Initial(x), samples, t), t, samples[t]);
    }
  }

  /** A full FIFO that is never drained holds the program at its push for good. */
  lemma {:induction false} FullFifoHolds(m: Machine, samples: seq<Sample>, n: nat)
    requires IsPush(m.pc) && m.fifoDepth >= FIFO_DEPTH && m.rxStall
    requires n <= |samples| && forall t :: 0 <= t < n ==> !samples[t].drain
    ensures After(m, samples, n) == m
  {
    hide Clock;
    if n > 0 {
      FullFifoHolds(m, samples, n - 1);
      FullStep(m, n - 1, samples[n - 1]);
    }
  }

  lemma FullStep(m: Machine, cycle: nat, s: Sample)
    requires IsPush(m.pc) && m.fifoDepth >= FIFO_DEPTH && m.rxStall && !s.drain
    ensures Clock(m, cycle, s) == m
  {
  }

  /** Nothing drains the FIFO. */
  ghost predicate Undrained(samples: seq<Sample>) {
    forall t :: 0 <= t < |samples| ==> !samples[t].drain
  }

  lemma UndrainedAt(samples: seq<Sample>, t: nat)
    requires Undrained(samples) && t < |samples|
    ensures !samples[t].drain
  {
  }

  /** The FIFO holds every word pushed so far, at most eight, and a stall holds the program at a ninth push. */
  predicate Filled(m: Machine) {
    m.fifoDepth == |m.snapshots| <= 8 && (m.rxStall ==> |m.snapshots| == 8 && IsPush(m.pc))
  }

  lemma FillStep(m: Machine, cycle: nat, s: Sample)
    requires Filled(m) && !s.drain
    ensures Filled(Clock(m, cycle, s))
    ensures IsPush(m.pc) ==> (Clock(m, cycle, s).rxStall <==> |m.snapshots| == 8)
    ensures Pushes(m, s) <==> IsPush(m.pc) && |m.snapshots| < 8
  {
  }

  /** Undrained, every word stays: the ninth push, and no earlier one, stalls. */
  lemma {:induction false} UndrainedFills(x: U32, samples: seq<Sample>, n: nat)
    requires Undrained(samples) && n <= |samples|
    ensures Filled(After(Initial(x), samples, n))
    ensures n < |samples| && IsPush(After(Initial(x), samples, n).pc) ==>
              (After(Initial(x), samples, n + 1).rxStall <==> |After(Initial(x), samples, n).snapshots| == 8)
  {
    hide Clock, Initial, Filled;
    FillStart(x);
    if n > 0 {
      UndrainedFills(x, samples, n - 1);
      UndrainedAt(samples, n - 1);
      FillStep(After(Initial(x), samples, n - 1), n - 1, samples[n - 1]);
    }
    if n < |samples| {
      UndrainedAt(samples, n);
      FillStep(After(Initial(x), samples, n), n, samples[n]);
    }
  }

  lemma FillStart(x: U32)
    ensures Filled(Initial(x))
  {
  }

  /** Once stalled, an undrained program is stalled at the same push for good. */
  lemma {:induction false} StallStays(x: U32, samples: seq<Sample>, t: nat, n: nat)
    requires Undrained(samples) && t <= n <= |samples| && After(Initial(x), samples, t).rxStall
    ensures After(Initial(x), samples, n) == After(Initial(x), samples, t)
    decreases n
  {
    hide Clock, Initial;
    if n > t {
      StallStays(x, samples, t, n - 1);
      UndrainedFills(x, samples, n - 1);
      UndrainedAt(samples, n - 1);
      FullStep(After(Initial(x), samples, n - 1), n - 1, samples[n - 1]);
    }
  }

  /**
   With eight unread words a further rise that finds the program armed stalls it: within the
   longest dwell and a clock, and the ninth word is never pushed.
   */
  lemma NinthRiseStalls(x: U32, samples: seq<Sample>, cut: nat, maximum: nat, rise: nat)
    requires Undrained(samples) && Envelope(samples, cut) && LongestDwell(samples, maximum) && maximum >= 4
    requires rise + maximum + 1 < |samples| && PpsHigh(samples, rise, |samples|)
    requires Armed(After(Initial(x), samples, rise).pc) && |After(Initial(x), samples, rise).snapshots| == 8
    ensures After(Initial(x), samples, |samples|).rxStall
    ensures |After(Initial(x), samples, |samples|).snapshots| == 8
  {
    hide After, Envelope, Undrained, Initial, Dwell, Clock, Armed, PpsHigh, LongestDwell, Filled, Listing, Pushes,
      IsPush;
    var m := Initial(x);
    UndrainedFills(x, samples, |samples|);
    FilledIs(After(m, samples, |samples|));
    if NoStall(m, samples, |samples|) {
      SnapshotWithinDwell(x, samples, cut, maximum, rise);
      var push :| rise < push <= rise + maximum + 1 && Pushes(After(m, samples, push), samples[push]);
      WordsKeep(x, samples, rise, push);
      UndrainedFills(x, samples, push);
      UndrainedAt(samples, push);
      FillStep(After(m, samples, push), push, samples[push]);
      assert false;
    } else {
      var t := FindStall(m, samples);
      UndrainedFills(x, samples, t);
      UndrainedAt(samples, t);
      FillStep(After(m, samples, t), t, samples[t]);
      FilledIs(After(m, samples, t));
      StallStays(x, samples, t + 1, |samples|);
    }
  }

  lemma FilledIs(m: Machine)
    requires Filled(m)
    ensures |m.snapshots| <= 8 && (m.rxStall ==> |m.snapshots| == 8)
  {
  }

  lemma FindStall(m: Machine, samples: seq<Sample>) returns (t: nat)
    requires !NoStall(m, samples, |samples|)
    ensures t < |samples| && IsPush(After(m, samples, t).pc) && !Pushes(After(m, samples, t), samples[t])
  {
    hide After, Pushes;
    t :| t < |samples| && Listing(After(m, samples, t).pc).PushX? && !Pushes(After(m, samples, t), samples[t]);
  }

  /** Words are never lost. */
  lemma {:induction false} WordsKeep(x: U32, samples: seq<Sample>, from: nat, end: nat)
    requires from <= end <= |samples|
    ensures |After(Initial(x), samples, from).snapshots| <= |After(Initial(x), samples, end).snapshots|
    decreases end
  {
    hide Clock, Initial, Pushes;
    if from < end {
      WordsKeep(x, samples, from, end - 1);
      ClockEffect(After(Initial(x), samples, end - 1), end - 1, samples[end - 1]);
    }
  }

  // ---- stopped oscillator ----------------------------------------------------------------------

  /** A wait for the other level. */
  predicate Parked(pc: Pc, level: bool) {
    Remaining(pc) == 0 && LastLevel(pc) == level
  }

  /** At most this many clocks before the program parks under a constant level. */
  function ParkingDistance(pc: Pc, level: bool): nat {
    if LastLevel(pc) == level then Remaining(pc) else Remaining(pc) + if level then 4 else 3
  }

  /** The pushes that may still come under a constant level. */
  function TailPushes(pc: Pc, level: bool): nat {
    if level then (if pc in {3, 7, 11, 12, 13, 14} then 0 else 1)
    else (if pc in {0, 5, 7, 8, 9, 11} then 0 else 1)
  }

  lemma StoppedStep(pc: Pc, level: bool, pps: bool)
    ensures var next := NextPc(pc, level, pps, false);
            && TailPushes(next, level) + (if IsPush(pc) then 1 else 0) <= TailPushes(pc, level) <= 1
            && (ParkingDistance(pc, level) > 0 ==> ParkingDistance(next, level) < ParkingDistance(pc, level))
            && (Parked(pc, level) ==> next == pc)
    ensures Parked(pc, level) <==> ParkingDistance(pc, level) == 0
    ensures Parked(pc, level) ==> !Decrements(pc) && !IsPush(pc)
    ensures ParkingDistance(pc, level) <= 6
  {
  }

  ghost predicate Stopped(samples: seq<Sample>, level: bool) {
    forall t :: 0 <= t < |samples| ==> samples[t].oscillator == level
  }

  /**
   However the program stands when the oscillator stops, and whatever PPS does, at most one
   tail word is pushed, and within six clocks it is parked where neither can move it again.
   */
  lemma {:induction false} StoppedOscillator(m: Machine, samples: seq<Sample>, level: bool, n: nat)
    requires n <= |samples| && Stopped(samples, level) && NoStall(m, samples, |samples|)
    ensures var end := After(m, samples, n);
            && |end.snapshots| + TailPushes(end.pc, level) <= |m.snapshots| + TailPushes(m.pc, level)
            && |end.snapshots| <= |m.snapshots| + 1
            && (n >= 6 ==> Parked(end.pc, level))
            && (ParkingDistance(end.pc, level) + n <= 6 || Parked(end.pc, level))
    ensures n > 0 && Parked(After(m, samples, n - 1).pc, level) ==>
              var before, end := After(m, samples, n - 1), After(m, samples, n);
              end.pc == before.pc && end.x == before.x && end.snapshots == before.snapshots
  {
    hide Clock, NextPc, Listing, Pushes, Parked, ParkingDistance, TailPushes, IsPush, Decrements, Stopped, NoStall;
    StoppedStep(m.pc, level, false);
    if n > 0 {
      StoppedOscillator(m, samples, level, n - 1);
      var before := After(m, samples, n - 1);
      NoStallAt(m, samples, |samples|, n - 1);
      StoppedAt(samples, level, n - 1);
      ClockEffect(before, n - 1, samples[n - 1]);
      NextPcUnstalled(before, samples[n - 1]);
      StoppedStep(before.pc, level, samples[n - 1].pps);
      StoppedStep(After(m, samples, n).pc, level, false);
    }
  }

  lemma StoppedAt(samples: seq<Sample>, level: bool, t: nat)
    requires Stopped(samples, level) && t < |samples|
    ensures samples[t].oscillator == level
  {
  }

  lemma NextPcUnstalled(m: Machine, s: Sample)
    requires IsPush(m.pc) ==> Pushes(m, s)
    ensures NextPc(m.pc, s.oscillator, s.pps, !Pushes(m, s)) == NextPc(m.pc, s.oscillator, s.pps, false)
  {
  }

  // ---- recognition bound -----------------------------------------------------------------------

  /** The program cannot be this far past a wait unless the level has lasted as long. */
  function Age(pc: Pc): nat {
    if pc in {1, 4, 8, 12} then 2
    else if pc in {0, 2, 5, 9, 10, 13} then 3
    else if pc == 11 then 1
    else 4
  }

  lemma AgeStep(pc: Pc, oscillator: bool, pps: bool)
    ensures var next := NextPc(pc, oscillator, pps, false);
            LastLevel(next) == oscillator ==> Age(next) <= (if LastLevel(pc) == oscillator then Age(pc) + 1 else 2)
    ensures Remaining(pc) == 0 && LastLevel(pc) == oscillator ==> NextPc(pc, oscillator, pps, false) == pc
    ensures LastLevel(pc) != oscillator && LastLevel(NextPc(pc, oscillator, pps, false)) == oscillator ==>
              Age(NextPc(pc, oscillator, pps, false)) == 2
    ensures LastLevel(NextPc(pc, oscillator, pps, false)) in {LastLevel(pc), oscillator}
    ensures Age(pc) >= 1 && Age(INITIAL_PC) == 1
  {
  }

  lemma {:induction false} AgeBounds(x: U32, samples: seq<Sample>, cut: nat, t: nat)
    requires Envelope(samples, cut) && t < |samples| && NoStall(Initial(x), samples, t)
    ensures var pc := After(Initial(x), samples, t).pc;
            LastLevel(pc) == samples[t].oscillator ==> Age(pc) <= Dwell(samples, t)
  {
    hide LastLevel, Remaining, NextPc, Listing, After, Envelope, NoStall, Dwell, InFirstLevel, Initial, Clock, Age,
      Tracks;
    InitialFacts(x);
    if t == 0 {
      CountStart(Initial(x), samples);
      AgeStep(INITIAL_PC, false, false);
    } else {
      NoStallPrefix(Initial(x), samples, t, t - 1);
      AgeBounds(x, samples, cut, t - 1);
      PathStep(Initial(x), samples, t - 1);
      LevelStep(samples, cut, t);
      TracksOscillator(x, samples, cut, t - 1);
      var was := After(Initial(x), samples, t - 1).pc;
      AgeStep(was, samples[t - 1].oscillator, samples[t - 1].pps);
      AgeChange(was, samples[t - 1].oscillator, samples[t - 1].pps, Dwell(samples, t - 1), Slack(samples, t - 1, cut));
    }
  }

  /** A level that has just changed was not yet the one last seen. */
  lemma AgeChange(pc: Pc, oscillator: bool, pps: bool, dwell: nat, slack: nat)
    requires Tracks(Remaining(pc), LastLevel(pc), oscillator, dwell, slack) && slack <= 3 && dwell >= 1
    ensures dwell >= 4 || slack == 0 ==> LastLevel(NextPc(pc, oscillator, pps, false)) == oscillator
  {
  }

  /** The longest wait for the recognition of a PPS already high, in a level that lasts at most `maximum`. */
  function RecognitionBound(pc: Pc, level: bool, dwell: nat, maximum: nat): int {
    if pc == 0 || pc == 5 || pc == 9 then
      (if level then (if pc == 0 then 2 else 3) else maximum - dwell + 3)
    else if pc == 3 || pc == 14 then
      (if !level then (if pc == 3 then 1 else 2) else maximum - dwell + 2)
    else if pc == 1 then 1
    else 0
  }

  predicate Recognises(pc: Pc) {
    pc == 2 || pc == 4
  }

  lemma BoundStep(pc: Pc, level: bool, dwell: nat, slack: nat, level': bool, dwell': nat, maximum: nat)
    requires Armed(pc) && !Recognises(pc) && slack <= 3 && 1 <= dwell <= maximum
    requires Tracks(Remaining(pc), LastLevel(pc), level, dwell, slack)
    requires level' == level ==> dwell' == dwell + 1 <= maximum
    requires level' != level ==> dwell >= 4 || slack == 0
    ensures var next := NextPc(pc, level, true, false);
            && Armed(next)
            && RecognitionBound(next, level', dwell', maximum) < RecognitionBound(pc, level, dwell, maximum)
  {
  }

  lemma BoundWithinDwell(pc: Pc, level: bool, dwell: nat, maximum: nat)
    requires Armed(pc) && maximum >= 4 && dwell <= maximum && (LastLevel(pc) == level ==> Age(pc) <= dwell)
    ensures RecognitionBound(pc, level, dwell, maximum) <= maximum
    ensures RecognitionBound(pc, level, dwell, maximum) == 0 ==> Recognises(pc)
    ensures RecognitionBound(pc, level, dwell, maximum) >= 0
  {
  }

  ghost predicate LongestDwell(samples: seq<Sample>, maximum: nat) {
    forall t :: 0 <= t < |samples| ==> Dwell(samples, t) <= maximum
  }

  lemma DwellAt(samples: seq<Sample>, maximum: nat, t: nat)
    requires LongestDwell(samples, maximum) && t < |samples|
    ensures Dwell(samples, t) <= maximum
  {
  }

  lemma HighAt(samples: seq<Sample>, from: nat, end: nat, t: nat)
    requires from <= t < end <= |samples| && PpsHigh(samples, from, end)
    ensures samples[t].pps
  {
  }

  /** Counts the clocks from an armed state to the recognition of a PPS that is high throughout. */
  lemma {:induction false} RecognitionTime(x: U32, samples: seq<Sample>, cut: nat, maximum: nat, t: nat)
    returns (at: nat)
    requires Envelope(samples, cut) && LongestDwell(samples, maximum) && maximum >= 4
    requires NoStall(Initial(x), samples, |samples|)
    requires t + maximum < |samples| && Armed(After(Initial(x), samples, t).pc)
    requires PpsHigh(samples, t, |samples|)
    ensures t <= at <= t + maximum && Recognises(After(Initial(x), samples, at).pc)
  {
    hide *;
    at := t;
    TimeBound(x, samples, cut, maximum, t);
    var pc := After(Initial(x), samples, t).pc;
    while !Recognises(After(Initial(x), samples, at).pc)
      invariant t <= at <= t + maximum && Armed(After(Initial(x), samples, at).pc)
      invariant at + RecognitionBound(After(Initial(x), samples, at).pc, samples[at].oscillator, Dwell(samples, at),
                                      maximum)
                <= t + RecognitionBound(pc, samples[t].oscillator, Dwell(samples, t), maximum)
      decreases t + maximum - at
    {
      TimeBound(x, samples, cut, maximum, at);
      TimeStep(x, samples, cut, maximum, t, at);
      TimeBound(x, samples, cut, maximum, at + 1);
      at := at + 1;
    }
  }

  lemma TimeBound(x: U32, samples: seq<Sample>, cut: nat, maximum: nat, t: nat)
    requires Envelope(samples, cut) && LongestDwell(samples, maximum) && maximum >= 4
    requires NoStall(Initial(x), samples, |samples|) && t < |samples| && Armed(After(Initial(x), samples, t).pc)
    ensures var pc := After(Initial(x), samples, t).pc;
            var bound := RecognitionBound(pc, samples[t].oscillator, Dwell(samples, t), maximum);
            0 <= bound <= maximum && (bound == 0 ==> Recognises(After(Initial(x), samples, t).pc))
  {
    hide *;
    NoStallPrefix(Initial(x), samples, |samples|, t);
    AgeBounds(x, samples, cut, t);
    DwellAt(samples, maximum, t);
    BoundWithinDwell(After(Initial(x), samples, t).pc, samples[t].oscillator, Dwell(samples, t), maximum);
  }

  lemma TimeStep(x: U32, samples: seq<Sample>, cut: nat, maximum: nat, from: nat, t: nat)
    requires Envelope(samples, cut) && LongestDwell(samples, maximum) && maximum >= 4
    requires NoStall(Initial(x), samples, |samples|) && from <= t && t + 1 < |samples|
    requires PpsHigh(samples, from, |samples|)
    requires Armed(After(Initial(x), samples, t).pc) && !Recognises(After(Initial(x), samples, t).pc)
    ensures Armed(After(Initial(x), samples, t + 1).pc)
    ensures RecognitionBound(After(Initial(x), samples, t + 1).pc, samples[t + 1].oscillator, Dwell(samples, t + 1),
                             maximum)
            < RecognitionBound(After(Initial(x), samples, t).pc, samples[t].oscillator, Dwell(samples, t), maximum)
  {
    hide After, Envelope, NoStall, Dwell, Initial, Clock, NextPc, Armed, Recognises, RecognitionBound, PpsHigh,
      LongestDwell, Listing, LastLevel, Remaining, Tracks;
    NoStallPrefix(Initial(x), samples, |samples|, t);
    NoStallPrefix(Initial(x), samples, |samples|, t + 1);
    TracksOscillator(x, samples, cut, t);
    LevelStep(samples, cut, t + 1);
    PathStep(Initial(x), samples, t);
    HighAt(samples, from, |samples|, t);
    DwellAt(samples, maximum, t);
    DwellAt(samples, maximum, t + 1);
    BoundStep(After(Initial(x), samples, t).pc, samples[t].oscillator, Dwell(samples, t), Slack(samples, t, cut),
              samples[t + 1].oscillator, Dwell(samples, t + 1), maximum);
  }

  lemma RecognitionPushes(m: Machine, samples: seq<Sample>, t: nat)
    requires t + 1 < |samples| && NoStall(m, samples, |samples|)
    requires Recognises(After(m, samples, t).pc) && samples[t].pps
    ensures Pushes(After(m, samples, t + 1), samples[t + 1])
  {
    ClockEffect(After(m, samples, t), t, samples[t]);
  }

  /**
   From any armed state a PPS held high is recognised within the longest oscillator dwell,
   and its word is pushed in the very next clock.
   */
  lemma SnapshotWithinDwell(x: U32, samples: seq<Sample>, cut: nat, maximum: nat, rise: nat)
    requires Envelope(samples, cut) && LongestDwell(samples, maximum) && maximum >= 4
    requires NoStall(Initial(x), samples, |samples|)
    requires rise + maximum + 1 < |samples| && Armed(After(Initial(x), samples, rise).pc)
    requires PpsHigh(samples, rise, |samples|)
    ensures exists push :: rise < push <= rise + maximum + 1 && Pushes(After(Initial(x), samples, push), samples[push])
  {
    hide After, Envelope, NoStall, Dwell, Initial, Clock, NextPc, Armed, Recognises, PpsHigh, LongestDwell, Pushes,
      Listing;
    var at := RecognitionTime(x, samples, cut, maximum, rise);
    HighAt(samples, rise, |samples|, at);
    RecognitionPushes(Initial(x), samples, at);
    assert rise < at + 1 <= rise + maximum + 1 && Pushes(After(Initial(x), samples, at + 1), samples[at + 1]);
  }
}
