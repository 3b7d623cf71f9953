/** Programs run by calling the twelve functions. */
module Interpreter {
  import opened Positional
  import opened Platform
  import opened ByteOrder
  import opened Records
  import opened Client
  import opened Portability

  /** Performs one step on real memory, which ends as `Step` says. */
  method Perform(b: Build, area: nat, mem: array<Byte>, types: seq<nat>, seen: seq<nat>, a: Action)
      returns (types': seq<nat>, seen': seq<nat>)
    requires WellFormed(area, State(mem[..], types, seen)) && Proper(area, State(mem[..], types, seen), a)
    modifies mem
    ensures State(mem[..], types', seen') == Step(b, area, State(old(mem[..]), types, seen), a)
  {
    hide Digits, Value;
    ghost var before := State(mem[..], types, seen);
    var at := Slot(area, a.slot);
    match a {
      case Send(sh, out, k) =>
        LocalFits(b, area, before, k);
        assert mem[at..at + types[k]] == mem[..][at..at + types[k]];
        var v := Decode(b.host, mem[at..at + types[k]]);
        var _ := StoreField(b, mem, out, Field(sh, v));
        types', seen' := types, seen;
      case Receive(sh, k, src) =>
        assert before.mem[src..src + sh.width] == mem[src..src + sh.width];
        var v, _ := LoadValue(b, mem, at, src, sh);
        types', seen' := types[k := sh.width], seen + [v];
      case Set(w, k, v) =>
        Assign(b.host, mem, at, w, v);
        types', seen' := types[k := w], seen;
    }
  }

  /** Runs a program for at most `n` steps; `ok` tells whether all of them were proper. */
  method RunProgram(b: Build, area: nat, mem: array<Byte>, types: seq<nat>, p: Program, n: nat)
      returns (ok: bool, types': seq<nat>, seen: seq<nat>)
    requires WellFormed(area, State(mem[..], types, []))
    modifies mem
    ensures Execute(b, area, p, State(old(mem[..]), types, []), 0, n)
      == if ok then Some(State(mem[..], types', seen)) else None
  {
    hide Step, Proper, WellFormed;
    ghost var all := Execute(b, area, p, State(mem[..], types, []), 0, n);
    types', seen := types, [];
    for i := 0 to n
      invariant WellFormed(area, State(mem[..], types', seen))
      invariant Execute(b, area, p, State(mem[..], types', seen), i, n - i) == all
    {
      var next := p(i, seen);
      if next.None? { return true, types', seen; }
      if !Proper(area, State(mem[..], types', seen), next.value) { return false, types', seen; }
      types', seen := Perform(b, area, mem, types', seen, next.value);
    }
    ok := true;
  }
}
