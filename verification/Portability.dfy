/**
  What the codec is for: a program that touches shared bytes only through the
  twelve functions behaves the same on every machine. Such a program keeps its
  integers in slots, laid out natively, beside a shared area of bytes. Every
  build runs it like an ideal machine that has integers in place of slots and
  knows no native byte order.
 */
module Portability {
  import opened Arithmetic
  import opened Positional
  import opened Memory
  import opened Platform
  import opened Records
  import opened Machine
  import opened Overwrites

  /** One step of a program. */
  datatype Action =
    | Send(shape: Shape, out: nat, slot: nat)     // store the integer in a slot
    | Receive(shape: Shape, slot: nat, src: nat)  // load into a slot, and look at the value
    | Set(width: Width, slot: nat, value: nat)    // assign to a slot

  /** Any program: its next step depends on how far it is and on all the values it has looked at. */
  type Program = (nat, seq<nat>) -> Option<Action>

  // The ideal machine.

  datatype Cell = Unset | Int(width: Width, value: nat)

  datatype Ideal = Ideal(shared: seq<Byte>, cells: seq<Cell>, seen: seq<nat>)

  /** A step is proper if it keeps to the shared area, to existing slots, and reads a slot at the width it holds. */
  predicate IdealProper(x: Ideal, a: Action) {
    && a.slot < |x.cells|
    && match a
       case Send(sh, out, k) => out + sh.width <= |x.shared| && x.cells[k].Int? && x.cells[k].width == sh.width
       case Receive(sh, _, src) => src + sh.width <= |x.shared|
       case Set(w, _, v) => v < Pow256(w)
  }

  function IdealStep(faithful: bool, x: Ideal, a: Action): (x': Ideal)
    requires IdealProper(x, a)
    ensures |x'.shared| == |x.shared| && |x'.cells| == |x.cells|
  {
    match a
    case Send(sh, out, k) =>
      x.(shared := Splice(x.shared, out, Encode(Actual(faithful, sh.order), sh.width, x.cells[k].value)))
    case Receive(sh, k, src) =>
      var v := Decode(Actual(faithful, sh.order), x.shared[src..src + sh.width]);
      Ideal(x.shared, x.cells[k := Int(sh.width, v)], x.seen + [v])
    case Set(w, k, v) =>
      x.(cells := x.cells[k := Int(w, v)])
  }

  /** The state after `n` steps from step number `i`; None once a step is improper, unchanged once the program ends. */
  function IdealRun(faithful: bool, p: Program, x: Ideal, i: nat, n: nat): Option<Ideal>
    decreases n
  {
    if n == 0 then Some(x)
    else
      match p(i, x.seen)
      case None => Some(x)
      case Some(a) =>
        if IdealProper(x, a) then IdealRun(faithful, p, IdealStep(faithful, x, a), i + 1, n - 1) else None
  }

  // A real machine.

  /** `types[k]` is the width of the integer that slot `k` holds, 0 before the first assignment. */
  datatype State = State(mem: seq<Byte>, types: seq<nat>, seen: seq<nat>)

  /** Slot `k` starts 8*k bytes behind the shared area. */
  function Slot(area: nat, k: nat): nat { area + 8 * k }

  predicate WellFormed(area: nat, s: State) {
    && |s.mem| == Slot(area, |s.types|)
    && forall k :: 0 <= k < |s.types| ==> s.types[k] == 0 || s.types[k] == 2 || s.types[k] == 4 || s.types[k] == 8
  }

  /** The integer in slot `k`. */
  function Local(b: Build, area: nat, s: State, k: nat): nat
    requires WellFormed(area, s) && k < |s.types|
  {
    Decode(b.host, s.mem[Slot(area, k)..Slot(area, k) + s.types[k]])
  }

  predicate Proper(area: nat, s: State, a: Action) {
    && a.slot < |s.types|
    && match a
       case Send(sh, out, k) => out + sh.width <= area && s.types[k] == sh.width
       case Receive(sh, _, src) => src + sh.width <= area
       case Set(w, _, v) => v < Pow256(w)
  }

  /** Sending and receiving are calls of the codec; a slot is written natively. */
  function Step(b: Build, area: nat, s: State, a: Action): (s': State)
    requires WellFormed(area, s) && Proper(area, s, a)
    ensures WellFormed(area, s')
  {
    var at := Slot(area, a.slot);
    match a
    case Send(sh, out, k) =>
      LocalFits(b, area, s, k);
      var call := Store(out, Field(sh, Local(b, area, s, k)));
      s.(mem := Put(s.mem, call.Effect(b, s.mem)))
    case Receive(sh, k, src) =>
      var call := Load(sh, at, src);
      State(Put(s.mem, call.Effect(b, s.mem)), s.types[k := sh.width], s.seen + [Transferred(b, s.mem, call)])
    case Set(w, k, v) =>
      State(Splice(s.mem, at, Encode(b.host, w, v)), s.types[k := w], s.seen)
  }

  /** After `Send` the shared area holds the codec's bytes of the slot's integer, and nothing else has changed. */
  lemma SendIsStore(b: Build, area: nat, s: State, a: Action)
    requires WellFormed(area, s) && Proper(area, s, a) && a.Send?
    ensures var s', w := Step(b, area, s, a), a.shape.width;
      && s'.mem[a.out..a.out + w] == b.Wire(a.shape.order, w, Local(b, area, s, a.slot))
      && s'.mem[..a.out] == s.mem[..a.out] && s'.mem[a.out + w..] == s.mem[a.out + w..]
      && s'.types == s.types && s'.seen == s.seen
  {
    hide Digits, Value;
  }

  /** After `Receive` slot and program have the codec's value of the bytes, and no other byte has changed. */
  lemma ReceiveIsLoad(b: Build, area: nat, s: State, a: Action)
    requires WellFormed(area, s) && Proper(area, s, a) && a.Receive?
    ensures var s', w, at := Step(b, area, s, a), a.shape.width, Slot(area, a.slot);
      var v := b.Unwire(a.shape.order, s.mem[a.src..a.src + w]);
      && s'.seen == s.seen + [v] && s'.types == s.types[a.slot := w] && Local(b, area, s', a.slot) == v
      && s'.mem[..at] == s.mem[..at] && s'.mem[at + w..] == s.mem[at + w..]
  {
    hide Digits, Value;
    var bs := s.mem[a.src..a.src + a.shape.width];
    UnwireFits(b, a.shape.order, bs);
    SpliceRead(s.mem, Slot(area, a.slot), Encode(b.host, a.shape.width, b.Unwire(a.shape.order, bs)));
  }

  lemma LocalFits(b: Build, area: nat, s: State, k: nat)
    requires WellFormed(area, s) && k < |s.types|
    ensures Local(b, area, s, k) < Pow256(s.types[k])
  {
    EncodeDecode(b.host, s.mem[Slot(area, k)..Slot(area, k) + s.types[k]]);
  }

  function Execute(b: Build, area: nat, p: Program, s: State, i: nat, n: nat): (r: Option<State>)
    requires WellFormed(area, s)
    ensures r.Some? ==> WellFormed(area, r.value)
    decreases n
  {
    if n == 0 then Some(s)
    else
      match p(i, s.seen)
      case None => Some(s)
      case Some(a) =>
        if Proper(area, s, a) then Execute(b, area, p, Step(b, area, s, a), i + 1, n - 1) else None
  }

  /** A run, state by state: each step is the one the program takes there. */
  ghost predicate IsTrace(b: Build, area: nat, p: Program, i: nat, trace: seq<State>) {
    && |trace| > 0
    && (forall j :: 0 <= j < |trace| ==> WellFormed(area, trace[j]))
    && forall j :: 0 <= j < |trace| - 1 ==> IsNext(b, area, p(i + j, trace[j].seen), trace[j], trace[j + 1])
  }

  predicate IsNext(b: Build, area: nat, next: Option<Action>, s: State, s': State)
    requires WellFormed(area, s)
  {
    next.Some? && Proper(area, s, next.value) && s' == Step(b, area, s, next.value)
  }

  /** `Execute` takes every step of a run, and stops after `n`, where the program does, or at an improper step. */
  lemma {:induction false} ExecuteFollows(b: Build, area: nat, p: Program, i: nat, trace: seq<State>, n: nat)
    requires IsTrace(b, area, p, i, trace) && |trace| - 1 <= n
    ensures var k := |trace| - 1;
      var next, r := p(i + k, trace[k].seen), Execute(b, area, p, trace[0], i, n);
      && (n == k || next.None? ==> r == Some(trace[k]))
      && (n > k && next.Some? && !Proper(area, trace[k], next.value) ==> r == None)
    decreases n
  {
    hide Step, Proper;
    if |trace| > 1 {
      assert IsNext(b, area, p(i + 0, trace[0].seen), trace[0], trace[1]);
      forall j | 0 <= j < |trace[1..]| - 1
        ensures IsNext(b, area, p(i + 1 + j, trace[1..][j].seen), trace[1..][j], trace[1..][j + 1])
      {
        assert IsNext(b, area, p(i + (j + 1), trace[j + 1].seen), trace[j + 1], trace[j + 2]);
        assert i + 1 + j == i + (j + 1);
      }
      ExecuteFollows(b, area, p, i + 1, trace[1..], n - 1);
    }
  }

  /** From every state there is such a run, up to where `Execute` stops. */
  lemma {:induction false} RunExists(b: Build, area: nat, p: Program, s: State, i: nat, n: nat)
      returns (trace: seq<State>)
    requires WellFormed(area, s)
    ensures IsTrace(b, area, p, i, trace) && trace[0] == s && |trace| - 1 <= n
    ensures var k := |trace| - 1;
      var next := p(i + k, trace[k].seen);
      k == n || next.None? || !Proper(area, trace[k], next.value)
    decreases n
  {
    hide Step, Proper;
    var next := p(i, s.seen);
    if n == 0 || next.None? || !Proper(area, s, next.value) {
      trace := [s];
    } else {
      var rest := RunExists(b, area, p, Step(b, area, s, next.value), i + 1, n - 1);
      trace := [s] + rest;
      forall j | 0 <= j < |trace| - 1
        ensures IsNext(b, area, p(i + j, trace[j].seen), trace[j], trace[j + 1])
      {
        if j > 0 {
          assert IsNext(b, area, p(i + 1 + (j - 1), rest[j - 1].seen), rest[j - 1], rest[j]);
          assert i + 1 + (j - 1) == i + j;
        }
      }
      var k := |trace| - 1;
      assert i + k == i + 1 + (|rest| - 1) && trace[k] == rest[|rest| - 1];
    }
  }

  // The real machine refines the ideal one.

  function CellOf(b: Build, area: nat, s: State, k: nat): Cell
    requires WellFormed(area, s) && k < |s.types|
  {
    if s.types[k] == 0 then Unset else Int(s.types[k], Local(b, area, s, k))
  }

  /** The ideal state that a real state stands for. */
  function Abstract(b: Build, area: nat, s: State): (x: Ideal)
    requires WellFormed(area, s)
    ensures |x.cells| == |s.types| && x.shared == s.mem[..area] && x.seen == s.seen
    ensures forall k :: 0 <= k < |s.types| ==> x.cells[k] == CellOf(b, area, s, k)
  {
    Ideal(s.mem[..area], seq(|s.types|, k requires 0 <= k < |s.types| => CellOf(b, area, s, k)), s.seen)
  }

  /** Assigning to slot `k`: the slot reads back the value, */
  lemma AssignedCell(b: Build, area: nat, s: State, k: nat, w: Width, v: nat, s': State)
    requires WellFormed(area, s) && k < |s.types| && v < Pow256(w)
    requires s'.mem == Splice(s.mem, Slot(area, k), Encode(b.host, w, v)) && s'.types == s.types[k := w]
    ensures WellFormed(area, s') && CellOf(b, area, s', k) == Int(w, v)
  {
    DecodeEncode(b.host, w, v);
    SpliceRead(s.mem, Slot(area, k), Encode(b.host, w, v));
  }

  /** and the other slots keep theirs. */
  lemma OtherCell(b: Build, area: nat, s: State, k: nat, w: Width, v: nat, s': State, j: nat)
    requires WellFormed(area, s) && k < |s.types| && j < |s.types| && j != k
    requires s'.mem == Splice(s.mem, Slot(area, k), Encode(b.host, w, v)) && s'.types == s.types[k := w]
    ensures WellFormed(area, s') && CellOf(b, area, s', j) == CellOf(b, area, s, j)
  {
    SpliceElsewhere(s.mem, Slot(area, k), Encode(b.host, w, v), Slot(area, j), Slot(area, j) + s.types[j]);
  }

  /** So an assignment changes one cell of the ideal machine and nothing else. */
  lemma AssignRefines(b: Build, area: nat, s: State, k: nat, w: Width, v: nat, s': State)
    requires WellFormed(area, s) && k < |s.types| && v < Pow256(w)
    requires s'.mem == Splice(s.mem, Slot(area, k), Encode(b.host, w, v)) && s'.types == s.types[k := w]
    ensures WellFormed(area, s')
    ensures Abstract(b, area, s') == Ideal(s.mem[..area], Abstract(b, area, s).cells[k := Int(w, v)], s'.seen)
  {
    hide CellOf;
    AssignedCell(b, area, s, k, w, v, s');
    SpliceElsewhere(s.mem, Slot(area, k), Encode(b.host, w, v), 0, area);
    forall j: nat | j < |s.types| && j != k
      ensures CellOf(b, area, s', j) == CellOf(b, area, s, j)
    {
      OtherCell(b, area, s, k, w, v, s', j);
    }
    assert Abstract(b, area, s').cells == Abstract(b, area, s).cells[k := Int(w, v)];
  }

  /** Writing inside the shared area changes no cell. */
  lemma SendRefines(b: Build, area: nat, s: State, out: nat, bs: seq<Byte>, s': State)
    requires WellFormed(area, s) && out + |bs| <= area
    requires s' == s.(mem := Splice(s.mem, out, bs))
    ensures WellFormed(area, s')
    ensures Abstract(b, area, s') == Abstract(b, area, s).(shared := Splice(s.mem[..area], out, bs))
  {
    assert s'.mem[..area] == Splice(s.mem[..area], out, bs);
    forall j | 0 <= j < |s.types|
      ensures CellOf(b, area, s', j) == CellOf(b, area, s, j)
    {
      SpliceElsewhere(s.mem, out, bs, Slot(area, j), Slot(area, j) + s.types[j]);
    }
  }

  lemma ReceiveRefines(b: Build, area: nat, s: State, a: Action)
    requires WellFormed(area, s) && Proper(area, s, a) && a.Receive?
    ensures Abstract(b, area, Step(b, area, s, a)) == IdealStep(b.Faithful(), Abstract(b, area, s), a)
  {
    var w, bs := a.shape.width, s.mem[a.src..a.src + a.shape.width];
    assert s.mem[..area][a.src..a.src + w] == bs;
    UnwireFits(b, a.shape.order, bs);
    AssignRefines(b, area, s, a.slot, w, b.Unwire(a.shape.order, bs), Step(b, area, s, a));
  }

  lemma ProperRefines(b: Build, area: nat, s: State, a: Action)
    requires WellFormed(area, s)
    ensures Proper(area, s, a) <==> IdealProper(Abstract(b, area, s), a)
  {
    hide Local;
  }

  /** Every step of a real machine is the same step of the ideal one, and proper on both or on neither. */
  lemma StepRefines(b: Build, area: nat, s: State, a: Action)
    requires WellFormed(area, s)
    ensures Proper(area, s, a) <==> IdealProper(Abstract(b, area, s), a)
    ensures Proper(area, s, a) ==>
      Abstract(b, area, Step(b, area, s, a)) == IdealStep(b.Faithful(), Abstract(b, area, s), a)
  {
    hide Digits, Value;
    ProperRefines(b, area, s, a);
    if Proper(area, s, a) {
      match a
      case Send(sh, out, k) =>
        SendRefines(b, area, s, out, b.Wire(sh.order, sh.width, Local(b, area, s, k)), Step(b, area, s, a));
      case Receive(_, _, _) =>
        ReceiveRefines(b, area, s, a);
      case Set(w, k, v) =>
        AssignRefines(b, area, s, k, w, v, Step(b, area, s, a));
    }
  }

  function AbstractResult(b: Build, area: nat, r: Option<State>): Option<Ideal>
    requires r.Some? ==> WellFormed(area, r.value)
  {
    match r
    case None => None
    case Some(s) => Some(Abstract(b, area, s))
  }

  /** The first step of a run, in terms of what the ideal machine does next. */
  lemma RunStep(b: Build, area: nat, p: Program, s: State, i: nat, n: nat)
    requires WellFormed(area, s) && n > 0 && p(i, s.seen).Some? && Proper(area, s, p(i, s.seen).value)
    ensures var a := p(i, s.seen).value;
      && Execute(b, area, p, s, i, n) == Execute(b, area, p, Step(b, area, s, a), i + 1, n - 1)
      && IdealRun(b.Faithful(), p, Abstract(b, area, s), i, n)
        == IdealRun(b.Faithful(), p, Abstract(b, area, Step(b, area, s, a)), i + 1, n - 1)
  {
    StepRefines(b, area, s, p(i, s.seen).value);
  }

  /** Whole runs of any program. */
  lemma {:induction false} ExecuteRefines(b: Build, area: nat, p: Program, s: State, i: nat, n: nat)
    requires WellFormed(area, s)
    ensures AbstractResult(b, area, Execute(b, area, p, s, i, n))
      == IdealRun(b.Faithful(), p, Abstract(b, area, s), i, n)
    decreases n
  {
    hide Step, IdealStep, Abstract;
    if n > 0 && p(i, s.seen).Some? {
      var a := p(i, s.seen).value;
      if Proper(area, s, a) {
        RunStep(b, area, p, s, i, n);
        ExecuteRefines(b, area, p, Step(b, area, s, a), i + 1, n - 1);
      } else {
        StepRefines(b, area, s, a);
      }
    }
  }

  // Which builds a program can tell apart.

  /** A start: shared bytes, and slots not yet assigned, with anything in their memory. */
  function Fresh(shared: seq<Byte>, slots: seq<Byte>): (s: State)
    requires |slots| % 8 == 0
    ensures WellFormed(|shared|, s) && s.mem[..|shared|] == shared && s.seen == []
  {
    State(shared + slots, seq(|slots| / 8, _ => 0), [])
  }

  lemma FreshAbstract(b: Build, shared: seq<Byte>, slots: seq<Byte>)
    requires |slots| % 8 == 0
    ensures Abstract(b, |shared|, Fresh(shared, slots)) == Ideal(shared, seq(|slots| / 8, _ => Unset), [])
  {
  }

  /** What can be observed of a run: whether it stayed proper, the shared bytes, and the values seen. */
  ghost predicate SameResult(area: nat, r1: Option<State>, r2: Option<State>)
    requires r1.Some? ==> WellFormed(area, r1.value)
    requires r2.Some? ==> WellFormed(area, r2.value)
  {
    && r1.Some? == r2.Some?
    && (r1.Some? ==> r1.value.mem[..area] == r2.value.mem[..area] && r1.value.seen == r2.value.seen)
  }

  /** Program `p`, started on the same shared bytes, does the same on both builds for `n` steps. */
  ghost predicate SameBehaviour(b1: Build, b2: Build, p: Program,
      shared: seq<Byte>, slots1: seq<Byte>, slots2: seq<Byte>, n: nat)
    requires |slots1| == |slots2| && |slots1| % 8 == 0
  {
    var area := |shared|;
    SameResult(area,
      Execute(b1, area, p, Fresh(shared, slots1), 0, n),
      Execute(b2, area, p, Fresh(shared, slots2), 0, n))
  }

  /** No program, started on the same shared bytes, can tell the two builds apart. */
  ghost predicate Indistinguishable(b1: Build, b2: Build) {
    forall p: Program, shared: seq<Byte>, slots1: seq<Byte>, slots2: seq<Byte>, n: nat |
        |slots1| == |slots2| && |slots1| % 8 == 0 ::
      SameBehaviour(b1, b2, p, shared, slots1, slots2, n)
  }

  lemma MatchingBuildsBehaveAlike(b1: Build, b2: Build, p: Program,
      shared: seq<Byte>, slots1: seq<Byte>, slots2: seq<Byte>, n: nat)
    requires b1.Faithful() == b2.Faithful() && |slots1| == |slots2| && |slots1| % 8 == 0
    ensures SameBehaviour(b1, b2, p, shared, slots1, slots2, n)
    ensures var r1 := Execute(b1, |shared|, p, Fresh(shared, slots1), 0, n);
      var r2 := Execute(b2, |shared|, p, Fresh(shared, slots2), 0, n);
      && r1.Some? == r2.Some?
      && (r1.Some? ==> r1.value.mem[..|shared|] == r2.value.mem[..|shared|] && r1.value.seen == r2.value.seen)
  {
    hide Execute, IdealRun, Fresh;
    FreshAbstract(b1, shared, slots1);
    FreshAbstract(b2, shared, slots2);
    ExecuteRefines(b1, |shared|, p, Fresh(shared, slots1), 0, n);
    ExecuteRefines(b2, |shared|, p, Fresh(shared, slots2), 0, n);
  }

  /** The program that sends one value. */
  function SendProgram(sh: Shape, out: nat, v: nat): Program {
    (i: nat, seen: seq<nat>) =>
      if i == 0 then Some(Set(sh.width, 0, v))
      else if i == 1 then Some(Send(sh, out, 0))
      else None
  }

  /** The program that receives one value. */
  function ReceiveProgram(sh: Shape, src: nat): Program {
    (i: nat, seen: seq<nat>) => if i == 0 then Some(Receive(sh, 0, src)) else None
  }

  lemma SendProgramResult(faithful: bool, sh: Shape, v: nat, x: Ideal)
    requires |x.cells| > 0 && sh.width <= |x.shared| && v < Pow256(sh.width)
    ensures var r := IdealRun(faithful, SendProgram(sh, 0, v), x, 0, 2);
      r.Some? && r.value.shared == Splice(x.shared, 0, Encode(Actual(faithful, sh.order), sh.width, v))
  {
    hide Digits;
    var p := SendProgram(sh, 0, v);
    var x1 := IdealStep(faithful, x, Set(sh.width, 0, v));
    var x2 := IdealStep(faithful, x1, Send(sh, 0, 0));
    assert IdealRun(faithful, p, x2, 2, 0) == Some(x2);
    assert IdealRun(faithful, p, x1, 1, 1) == Some(x2);
  }

  /** Builds are indistinguishable to all programs exactly if both or neither are faithful. */
  lemma IndistinguishableIff(b1: Build, b2: Build)
    ensures Indistinguishable(b1, b2) <==> (b1.Faithful() <==> b2.Faithful())
  {
    if b1.Faithful() == b2.Faithful() {
      forall p: Program, shared: seq<Byte>, slots1: seq<Byte>, slots2: seq<Byte>, n: nat |
          |slots1| == |slots2| && |slots1| % 8 == 0
        ensures SameBehaviour(b1, b2, p, shared, slots1, slots2, n)
      {
        MatchingBuildsBehaveAlike(b1, b2, p, shared, slots1, slots2, n);
      }
    } else {
      SendingOneTellsApart(b1, b2, Digits(2, 0), Digits(8, 0));
    }
  }

  lemma SendingOneTellsApart(b1: Build, b2: Build, shared: seq<Byte>, slots: seq<Byte>)
    requires b1.Faithful() != b2.Faithful() && |shared| == 2 && |slots| == 8
    ensures !SameBehaviour(b1, b2, SendProgram(Shape(Little, 2), 0, 1), shared, slots, slots, 2)
  {
    hide Digits, Execute, IdealRun, Fresh;
    var sh, s := Shape(Little, 2), Fresh(shared, slots);
    var p := SendProgram(sh, 0, 1);
    OneIsAsymmetric(Little, 2);
    FreshAbstract(b1, shared, slots);
    FreshAbstract(b2, shared, slots);
    ExecuteRefines(b1, 2, p, s, 0, 2);
    ExecuteRefines(b2, 2, p, s, 0, 2);
    SendProgramResult(b1.Faithful(), sh, 1, Abstract(b1, 2, s));
    SendProgramResult(b2.Faithful(), sh, 1, Abstract(b2, 2, s));
    SpliceRead(shared, 0, Encode(Little, 2, 1));
    SpliceRead(shared, 0, Encode(Big, 2, 1));
  }

  /**
    Why slots must stay out of the shared area: what a load itself writes depends
    on the machine, unless the bytes it reads are a palindrome.
   */
  lemma LoadedBytesAgreeIff(b1: Build, b2: Build, c: Call, m: seq<Byte>)
    requires b1.Faithful() == b2.Faithful() && c.Load? && c.InBounds(|m|)
    ensures c.Effect(b1, m) == c.Effect(b2, m)
      <==> b1.host == b2.host || Palindrome(m[c.src..c.src + c.shape.width])
  {
    var bs := m[c.src..c.src + c.shape.width];
    NativeCopy(b1, c.shape.order, bs);
    NativeCopy(b2, c.shape.order, bs);
  }

  /** A loaded integer lies in memory as the bytes it was loaded from, or as their mirror image. */
  lemma NativeCopy(b: Build, o: Order, bs: seq<Byte>)
    ensures Encode(b.host, |bs|, b.Unwire(o, bs)) == if b.host == b.WireOrder(o) then bs else Reverse(bs)
  {
    EncodeDecode(b.WireOrder(o), bs);
    EndianDuality(b.WireOrder(o), |bs|, b.Unwire(o, bs), bs);
  }
}
