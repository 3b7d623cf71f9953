/** Programs on several machines that take turns on one shared area of bytes. */
module Distributed {
  import opened Arithmetic
  import opened Positional
  import opened Memory
  import opened Platform
  import opened Records
  import opened Portability

  /** How far a program is: its next step number, and whether it tried an improper step. */
  datatype Progress = Progress(program: Program, steps: nat, stuck: bool) {

    /** The step it takes next, if it still runs. */
    function Next(seen: seq<nat>): Option<Action> {
      if stuck then None else program(steps, seen)
    }
  }

  // Several programs on ideal machines.

  datatype IdealProcess = IdealProcess(faithful: bool, at: Progress, cells: seq<Cell>, seen: seq<nat>)

  datatype IdealSystem = IdealSystem(shared: seq<Byte>, procs: seq<IdealProcess>)

  /** Process `k` takes its next step on the shared bytes; a program that has ended or is stuck stays where it is. */
  function IdealTurn(x: IdealSystem, k: nat): (y: IdealSystem)
    requires k < |x.procs|
    ensures |y.procs| == |x.procs|
  {
    var p := x.procs[k];
    var own := Ideal(x.shared, p.cells, p.seen);
    match p.at.Next(p.seen)
    case None => x
    case Some(a) =>
      if !IdealProper(own, a) then x.(procs := x.procs[k := p.(at := p.at.(stuck := true))])
      else
        var own' := IdealStep(p.faithful, own, a);
        IdealSystem(own'.shared,
          x.procs[k := IdealProcess(p.faithful, p.at.(steps := p.at.steps + 1), own'.cells, own'.seen)])
  }

  function IdealPlay(x: IdealSystem, turns: seq<nat>): (y: IdealSystem)
    requires forall k :: k in turns ==> k < |x.procs|
    ensures |y.procs| == |x.procs|
    decreases |turns|
  {
    if turns == [] then x
    else
      assert turns[0] in turns && forall k :: k in turns[1..] ==> k in turns;
      IdealPlay(IdealTurn(x, turns[0]), turns[1..])
  }

  // The same on real machines.

  /** A program on its machine, with its slots. */
  datatype Process = Process(build: Build, at: Progress, slots: seq<Byte>, types: seq<nat>, seen: seq<nat>)

  datatype System = System(shared: seq<Byte>, procs: seq<Process>) {

    predicate Valid() {
      forall k :: 0 <= k < |procs| ==> WellFormed(|shared|, View(procs[k]))
    }

    /** The memory one process works on. */
    function View(p: Process): State {
      State(shared + p.slots, p.types, p.seen)
    }
  }

  function Turn(x: System, k: nat): (y: System)
    requires x.Valid() && k < |x.procs|
    ensures y.Valid() && |y.shared| == |x.shared| && |y.procs| == |x.procs|
  {
    var p, area := x.procs[k], |x.shared|;
    match p.at.Next(p.seen)
    case None => x
    case Some(a) =>
      if !Proper(area, x.View(p), a) then x.(procs := x.procs[k := p.(at := p.at.(stuck := true))])
      else
        var s := Step(p.build, area, x.View(p), a);
        assert s.mem[..area] + s.mem[area..] == s.mem;
        System(s.mem[..area],
          x.procs[k := Process(p.build, p.at.(steps := p.at.steps + 1), s.mem[area..], s.types, s.seen)])
  }

  /** The system after the given turns. */
  function Play(x: System, turns: seq<nat>): (y: System)
    requires x.Valid() && forall k :: k in turns ==> k < |x.procs|
    ensures y.Valid() && |y.procs| == |x.procs|
    decreases |turns|
  {
    if turns == [] then x
    else
      assert turns[0] in turns && forall k :: k in turns[1..] ==> k in turns;
      Play(Turn(x, turns[0]), turns[1..])
  }

  /** A turn concerns the process whose turn it is and the shared bytes, */
  lemma TurnLeavesOthers(x: System, k: nat, j: nat)
    requires x.Valid() && k < |x.procs| && j < |x.procs| && j != k
    ensures Turn(x, k).procs[j] == x.procs[j]
  {
  }

  /** and is the program's next step on its own machine, if there is one and it is proper. */
  lemma TurnIsStep(x: System, k: nat)
    requires x.Valid() && k < |x.procs|
    ensures var p, q, area := x.procs[k], Turn(x, k).procs[k], |x.shared|;
      var next := p.at.program(p.at.steps, p.seen);
      && q.build == p.build && q.at.program == p.at.program
      && (p.at.stuck || next.None? ==> Turn(x, k) == x)
      && (!p.at.stuck && next.Some? && !Proper(area, x.View(p), next.value) ==>
        Turn(x, k).shared == x.shared && q == p.(at := p.at.(stuck := true)))
      && (!p.at.stuck && next.Some? && Proper(area, x.View(p), next.value) ==>
        && Turn(x, k).View(q) == Step(p.build, area, x.View(p), next.value)
        && q.at.steps == p.at.steps + 1 && !q.at.stuck)
  {
    var p, area := x.procs[k], |x.shared|;
    var next := p.at.program(p.at.steps, p.seen);
    if !p.at.stuck && next.Some? && Proper(area, x.View(p), next.value) {
      var s := Step(p.build, area, x.View(p), next.value);
      assert s.mem[..area] + s.mem[area..] == s.mem;
    }
  }

  /** A schedule is its first part, then its second. */
  lemma {:induction false} PlayConcat(x: System, ts: seq<nat>, us: seq<nat>)
    requires x.Valid() && (forall k :: k in ts ==> k < |x.procs|) && (forall k :: k in us ==> k < |x.procs|)
    ensures Play(x, ts + us) == Play(Play(x, ts), us)
    decreases |ts|
  {
    if ts == [] {
      assert ts + us == us;
    } else {
      assert ts[0] in ts && forall k :: k in ts[1..] ==> k in ts;
      PlayConcat(Turn(x, ts[0]), ts[1..], us);
      assert (ts + us)[1..] == ts[1..] + us;
    }
  }

  lemma PlayOne(x: System, k: nat)
    requires x.Valid() && k < |x.procs|
    ensures Play(x, [k]) == Turn(x, k)
  {
    assert [k][1..] == [];
  }

  // Refinement.

  function AbstractProcess(x: System, p: Process): IdealProcess
    requires WellFormed(|x.shared|, x.View(p))
  {
    IdealProcess(p.build.Faithful(), p.at, Abstract(p.build, |x.shared|, x.View(p)).cells, p.seen)
  }

  function AbstractSystem(x: System): (y: IdealSystem)
    requires x.Valid()
    ensures y.shared == x.shared && |y.procs| == |x.procs|
    ensures forall k :: 0 <= k < |x.procs| ==> y.procs[k] == AbstractProcess(x, x.procs[k])
  {
    IdealSystem(x.shared, seq(|x.procs|, k requires 0 <= k < |x.procs| => AbstractProcess(x, x.procs[k])))
  }

  /** What another process does to the shared bytes leaves a process as it is. */
  lemma OtherProcess(x: System, x': System, p: Process)
    requires |x'.shared| == |x.shared| && WellFormed(|x.shared|, x.View(p))
    ensures WellFormed(|x.shared|, x'.View(p)) && AbstractProcess(x', p) == AbstractProcess(x, p)
  {
    var area := |x.shared|;
    forall k | 0 <= k < |p.types|
      ensures CellOf(p.build, area, x'.View(p), k) == CellOf(p.build, area, x.View(p), k)
    {
      var at := Slot(area, k);
      assert x'.View(p).mem[at..at + p.types[k]] == x.View(p).mem[at..at + p.types[k]];
    }
    assert Abstract(p.build, area, x'.View(p)).cells == Abstract(p.build, area, x.View(p)).cells;
  }

  /** A turn of the real system is the same turn of the ideal one. */
  lemma TurnRefines(x: System, k: nat)
    requires x.Valid() && k < |x.procs|
    ensures AbstractSystem(Turn(x, k)) == IdealTurn(AbstractSystem(x), k)
  {
    hide Step, IdealStep, Proper, IdealProper, CellOf;
    var p, area, x' := x.procs[k], |x.shared|, Turn(x, k);
    var next := p.at.Next(p.seen);
    if next.Some? {
      assert x.View(p).mem[..area] == x.shared;
      StepRefines(p.build, area, x.View(p), next.value);
      TurnIsStep(x, k);
      forall j | 0 <= j < |x.procs| && j != k
        ensures AbstractProcess(x', x'.procs[j]) == AbstractProcess(x, x.procs[j])
      {
        OtherProcess(x, x', x.procs[j]);
      }
      assert AbstractSystem(x').procs == IdealTurn(AbstractSystem(x), k).procs;
    }
  }

  /** However the turns are dealt, the real system does what the ideal one does. */
  lemma {:induction false} PlayRefines(x: System, turns: seq<nat>)
    requires x.Valid() && forall k :: k in turns ==> k < |x.procs|
    ensures AbstractSystem(Play(x, turns)) == IdealPlay(AbstractSystem(x), turns)
    decreases |turns|
  {
    if turns != [] {
      assert turns[0] in turns && forall k :: k in turns[1..] ==> k in turns;
      TurnRefines(x, turns[0]);
      PlayRefines(Turn(x, turns[0]), turns[1..]);
    }
  }

  // Which machines make a difference.

  /** Programs on builds, each with its own slots, none of them assigned yet, before anyone's first step. */
  function Boot(shared: seq<Byte>, builds: seq<Build>, programs: seq<Program>, slots: seq<seq<Byte>>): (x: System)
    requires |builds| == |programs| == |slots| && forall k :: 0 <= k < |slots| ==> |slots[k]| % 8 == 0
    ensures x.Valid() && x.shared == shared && |x.procs| == |builds|
    ensures forall k :: 0 <= k < |builds| ==>
      && x.procs[k].build == builds[k] && x.procs[k].at == Progress(programs[k], 0, false)
      && x.View(x.procs[k]) == Fresh(shared, slots[k])
  {
    System(shared, seq(|builds|, k requires 0 <= k < |builds| =>
      Process(builds[k], Progress(programs[k], 0, false), slots[k], seq(|slots[k]| / 8, _ => 0), [])))
  }

  /** Pointwise, both builds are faithful or neither is. */
  predicate Matching(bs: seq<Build>, cs: seq<Build>) {
    |bs| == |cs| && forall k :: 0 <= k < |bs| ==> bs[k].Faithful() == cs[k].Faithful()
  }

  lemma BootAbstract(shared: seq<Byte>, bs: seq<Build>, programs: seq<Program>, slots: seq<seq<Byte>>, k: nat)
    requires |bs| == |programs| == |slots| && (forall k :: 0 <= k < |slots| ==> |slots[k]| % 8 == 0) && k < |bs|
    ensures var x := Boot(shared, bs, programs, slots);
      AbstractProcess(x, x.procs[k])
        == IdealProcess(bs[k].Faithful(), Progress(programs[k], 0, false), seq(|slots[k]| / 8, _ => Unset), [])
  {
    FreshAbstract(bs[k], shared, slots[k]);
  }

  /** The same shared bytes, and every program saw and did the same. */
  ghost predicate SameOutcome(x: System, y: System) {
    && x.shared == y.shared && |x.procs| == |y.procs|
    && forall k :: 0 <= k < |x.procs| ==> x.procs[k].seen == y.procs[k].seen && x.procs[k].at == y.procs[k].at
  }

  /**
    Under every schedule, which of several matching machines the programs run on
    makes no difference to the shared bytes or to what any program sees.
   */
  lemma MachinesDoNotMatter(shared: seq<Byte>, bs: seq<Build>, cs: seq<Build>, programs: seq<Program>,
      ss: seq<seq<Byte>>, ts: seq<seq<Byte>>, turns: seq<nat>)
    requires |bs| == |programs| == |ss| == |ts| && Matching(bs, cs)
    requires forall k :: 0 <= k < |ss| ==> |ss[k]| == |ts[k]| && |ss[k]| % 8 == 0
    requires forall k :: k in turns ==> k < |bs|
    ensures SameOutcome(Play(Boot(shared, bs, programs, ss), turns), Play(Boot(shared, cs, programs, ts), turns))
  {
    hide Play, IdealPlay, Boot;
    var x, y := Boot(shared, bs, programs, ss), Boot(shared, cs, programs, ts);
    forall k | 0 <= k < |bs|
      ensures AbstractSystem(x).procs[k] == AbstractSystem(y).procs[k]
    {
      BootAbstract(shared, bs, programs, ss, k);
      BootAbstract(shared, cs, programs, ts, k);
    }
    assert AbstractSystem(x).procs == AbstractSystem(y).procs;
    PlayRefines(x, turns);
    PlayRefines(y, turns);
    SameAbstractSameOutcome(Play(x, turns), Play(y, turns));
  }

  lemma SameAbstractSameOutcome(x: System, y: System)
    requires x.Valid() && y.Valid() && AbstractSystem(x) == AbstractSystem(y)
    ensures SameOutcome(x, y)
  {
    forall k | 0 <= k < |x.procs|
      ensures x.procs[k].seen == y.procs[k].seen && x.procs[k].at == y.procs[k].at
    {
      assert AbstractSystem(x).procs[k] == AbstractSystem(y).procs[k];
    }
  }

  /** No programs, shared bytes, slots or schedule give different outcomes on the two lists of builds. */
  ghost predicate Interchangeable(bs: seq<Build>, cs: seq<Build>)
    requires |bs| == |cs|
  {
    forall shared: seq<Byte>, programs: seq<Program>, ss: seq<seq<Byte>>, ts: seq<seq<Byte>>, turns: seq<nat> |
        && |programs| == |ss| == |ts| == |bs| && (forall k :: k in turns ==> k < |bs|)
        && (forall k :: 0 <= k < |ss| ==> |ss[k]| == |ts[k]| && |ss[k]| % 8 == 0) ::
      SameOutcome(Play(Boot(shared, bs, programs, ss), turns), Play(Boot(shared, cs, programs, ts), turns))
  }

  // Delivery.

  /** Two turns of a sender. */
  lemma SenderTurns(x: IdealSystem, k: nat, sh: Shape, out: nat, v: nat)
    requires k < |x.procs| && out + sh.width <= |x.shared| && v < Pow256(sh.width)
    requires x.procs[k].at == Progress(SendProgram(sh, out, v), 0, false) && |x.procs[k].cells| > 0
    ensures var y := IdealTurn(IdealTurn(x, k), k);
      && |y.procs| == |x.procs| && (forall j :: 0 <= j < |x.procs| && j != k ==> y.procs[j] == x.procs[j])
      && y.shared == Splice(x.shared, out, Encode(Actual(x.procs[k].faithful, sh.order), sh.width, v))
  {
    hide Digits;
    var x1 := IdealTurn(x, k);
    assert x1.procs[k].cells[0] == Int(sh.width, v) && x1.shared == x.shared;
  }

  /** A turn of a receiver. */
  lemma ReceiverTurn(x: IdealSystem, k: nat, sh: Shape, src: nat)
    requires k < |x.procs| && src + sh.width <= |x.shared|
    requires x.procs[k].at == Progress(ReceiveProgram(sh, src), 0, false) && |x.procs[k].cells| > 0
    ensures IdealTurn(x, k).procs[k].seen
      == x.procs[k].seen + [Decode(Actual(x.procs[k].faithful, sh.order), x.shared[src..src + sh.width])]
  {
    hide Digits, Value;
  }

  lemma IdealDelivery(x: IdealSystem, j: nat, k: nat, sh: Shape, at: nat, v: nat)
    requires j < |x.procs| && k < |x.procs| && j != k && at + sh.width <= |x.shared| && v < Pow256(sh.width)
    requires x.procs[j].at == Progress(SendProgram(sh, at, v), 0, false) && |x.procs[j].cells| > 0
    requires x.procs[k].at == Progress(ReceiveProgram(sh, at), 0, false) && |x.procs[k].cells| > 0
    ensures IdealPlay(x, [j, j, k]).procs[k].seen == x.procs[k].seen + [Decode(Actual(x.procs[k].faithful, sh.order),
      Encode(Actual(x.procs[j].faithful, sh.order), sh.width, v))]
  {
    hide Digits, Value, IdealTurn;
    SenderTurns(x, j, sh, at, v);
    var y := IdealTurn(IdealTurn(x, j), j);
    SpliceRead(x.shared, at, Encode(Actual(x.procs[j].faithful, sh.order), sh.width, v));
    ReceiverTurn(y, k, sh, at);
    assert [j, j, k][1..] == [j, k] && [j, k][1..] == [k] && [k][1..] == [];
    assert IdealPlay(y, [k]) == IdealTurn(y, k);
  }

  /**
    Among any programs, a value that one sends and another then receives arrives
    exactly if their builds match or it is its own byte swap.
   */
  lemma Delivery(shared: seq<Byte>, builds: seq<Build>, programs: seq<Program>, slots: seq<seq<Byte>>,
      j: nat, k: nat, sh: Shape, at: nat, v: nat)
    requires |builds| == |programs| == |slots| && j < |builds| && k < |builds| && j != k
    requires forall i :: 0 <= i < |slots| ==> |slots[i]| % 8 == 0
    requires |slots[j]| > 0 && |slots[k]| > 0 && at + sh.width <= |shared| && v < Pow256(sh.width)
    requires programs[j] == SendProgram(sh, at, v) && programs[k] == ReceiveProgram(sh, at)
    ensures var seen := Play(Boot(shared, builds, programs, slots), [j, j, k]).procs[k].seen;
      && |seen| == 1
      && (seen[0] == v <==> (builds[j].Faithful() <==> builds[k].Faithful()) || ByteSwap(sh.width, v) == v)
  {
    hide Digits, Value, Play, IdealPlay, Boot;
    var x := Boot(shared, builds, programs, slots);
    BootAbstract(shared, builds, programs, slots, j);
    BootAbstract(shared, builds, programs, slots, k);
    PlayRefines(x, [j, j, k]);
    IdealDelivery(AbstractSystem(x), j, k, sh, at, v);
    assert AbstractSystem(Play(x, [j, j, k])).procs[k] == IdealPlay(AbstractSystem(x), [j, j, k]).procs[k];
    FieldAcrossBuilds(builds[j], builds[k], Field(sh, v));
  }

  /** A sender on a build without its match shows. */
  lemma UnmatchedSenderShows(bs: seq<Build>, cs: seq<Build>, k: nat)
      returns (slots: seq<seq<Byte>>, programs: seq<Program>)
    requires |bs| == |cs| && k < |bs| && bs[k].Faithful() != cs[k].Faithful()
    ensures |programs| == |slots| == |bs| && forall i :: 0 <= i < |slots| ==> |slots[i]| % 8 == 0
    ensures var shared := Digits(2, 0);
      !SameOutcome(Play(Boot(shared, bs, programs, slots), [k, k]), Play(Boot(shared, cs, programs, slots), [k, k]))
  {
    hide Digits, Play, Boot;
    var sh, shared := Shape(Little, 2), Digits(2, 0);
    var zeros, p := Digits(8, 0), SendProgram(sh, 0, 1);
    slots, programs := seq(|bs|, _ => zeros), seq(|bs|, _ => p);
    OneIsAsymmetric(Little, 2);
    SenderResult(shared, bs, programs, slots, k, sh, 1);
    SenderResult(shared, cs, programs, slots, k, sh, 1);
  }

  lemma SenderResult(shared: seq<Byte>, builds: seq<Build>, programs: seq<Program>, slots: seq<seq<Byte>>,
      k: nat, sh: Shape, v: nat)
    requires |builds| == |programs| == |slots| && k < |builds|
    requires forall i :: 0 <= i < |slots| ==> |slots[i]| % 8 == 0
    requires |slots[k]| > 0 && |shared| == sh.width && v < Pow256(sh.width) && programs[k] == SendProgram(sh, 0, v)
    ensures Play(Boot(shared, builds, programs, slots), [k, k]).shared == builds[k].Wire(sh.order, sh.width, v)
  {
    hide Digits, IdealTurn, Play, Boot;
    var x := Boot(shared, builds, programs, slots);
    BootAbstract(shared, builds, programs, slots, k);
    PlayRefines(x, [k, k]);
    SenderTurns(AbstractSystem(x), k, sh, 0, v);
    var y := IdealTurn(AbstractSystem(x), k);
    assert [k, k][1..] == [k] && [k][1..] == [];
    assert IdealPlay(y, [k]) == IdealTurn(y, k);
    assert Splice(shared, 0, builds[k].Wire(sh.order, sh.width, v)) == builds[k].Wire(sh.order, sh.width, v);
  }

  /** Two lists of builds are interchangeable exactly if they match pointwise. */
  lemma InterchangeableIff(bs: seq<Build>, cs: seq<Build>)
    requires |bs| == |cs|
    ensures Interchangeable(bs, cs) <==> Matching(bs, cs)
  {
    hide Play, Boot;
    if Matching(bs, cs) {
      forall shared: seq<Byte>, programs: seq<Program>, ss: seq<seq<Byte>>, ts: seq<seq<Byte>>, turns: seq<nat> |
          && |programs| == |ss| == |ts| == |bs| && (forall k :: k in turns ==> k < |bs|)
          && (forall k :: 0 <= k < |ss| ==> |ss[k]| == |ts[k]| && |ss[k]| % 8 == 0)
        ensures SameOutcome(Play(Boot(shared, bs, programs, ss), turns), Play(Boot(shared, cs, programs, ts), turns))
      {
        MachinesDoNotMatter(shared, bs, cs, programs, ss, ts, turns);
      }
    } else {
      var k :| 0 <= k < |bs| && bs[k].Faithful() != cs[k].Faithful();
      var slots, programs := UnmatchedSenderShows(bs, cs, k);
      assert forall j :: j in [k, k] ==> j < |bs|;
    }
  }
}
