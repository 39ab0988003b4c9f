/** The language of the generated initialization function, as far as the generator uses it, and its meaning. */
module InitProgram {
  import opened Common

  const SUCCESS := 0

  /** One statement of the generated function. Identifiers are text, as in C. */
  datatype Statement =
    | CallPriorInit
    | CallHandleInit(slot: string, title: string, device: string, kind: string, index: string, speed: int, mode: int)
    | CallGpioInit(slot: string, device: string, line: int, title: string, initial: int, isOutput: bool)
    | CallInitCSP
    | ReturnStatusOnFailure
    | ReturnOnFailure(code: string)
    | LogHandle(slot: string)
    | ReturnSuccess

  /** What the generated headers define: two enumerations, and macros with their values. */
  datatype Headers = Headers(handles: seq<string>, pins: seq<string>, codes: seq<string>, values: seq<int>)

  predicate Distinct(s: seq<string>) {
    forall i, j | 0 <= i < j < |s| :: s[i] != s[j]
  }

  predicate Declares(h: Headers, s: Statement) {
    match s
    case CallHandleInit(slot, _, _, _, index, _, _) => slot in h.handles && index in h.handles
    case CallGpioInit(slot, _, _, _, _, _) => slot in h.pins
    case ReturnOnFailure(code) => code in h.codes
    case LogHandle(slot) => slot in h.handles
    case _ => true
  }

  /** The program compiles: nothing is defined twice and every identifier used is defined. Arrays may be empty. */
  ghost predicate Compiles(h: Headers, program: seq<Statement>) {
    && Distinct(h.handles + h.pins)
    && Distinct(h.codes) && |h.codes| == |h.values|
    && forall s | s in program :: Declares(h, s)
  }

  // ---------------------------------------------------------------------------
  // Execution
  // ---------------------------------------------------------------------------

  /** A call that initializes something, with its arguments evaluated. */
  datatype Call =
    | PriorInit
    | HandleInit(slot: nat, title: string, device: string, kind: string, index: nat, speed: int, mode: int)
    | GpioInit(slot: nat, device: string, line: int, title: string, initial: int, isOutput: bool)
    | InitCSP

  /** The calls made so far, the local variable, and the returned value once there is one. */
  datatype Machine = Machine(calls: seq<Call>, status: int, returned: Option<int>) {
    /** The k-th call of a run returns statuses(k). */
    function Make(c: Call, statuses: nat -> int): Machine {
      this.(calls := calls + [c], status := statuses(|calls|))
    }
  }

  lemma IndexOfDistinct(s: seq<string>, i: nat)
    requires Distinct(s) && i < |s|
    ensures IndexOf(s, s[i]) == i
  {
  }

  function Execute(h: Headers, s: Statement, m: Machine, statuses: nat -> int): Machine
    requires Declares(h, s) && |h.codes| == |h.values|
  {
    if m.returned.Some? then m else
    match s
    case CallPriorInit => m.Make(PriorInit, statuses)
    case CallHandleInit(slot, title, device, kind, index, speed, mode) =>
      m.Make(HandleInit(IndexOf(h.handles, slot), title, device, kind, IndexOf(h.handles, index), speed, mode), statuses)
    case CallGpioInit(slot, device, line, title, initial, isOutput) =>
      m.Make(GpioInit(IndexOf(h.pins, slot), device, line, title, initial, isOutput), statuses)
    case CallInitCSP => m.Make(InitCSP, statuses)
    case ReturnStatusOnFailure => if m.status != SUCCESS then m.(returned := Some(m.status)) else m
    case ReturnOnFailure(code) =>
      if m.status != SUCCESS then m.(returned := Some(h.values[IndexOf(h.codes, code)])) else m
    case LogHandle(_) => m
    case ReturnSuccess => m.(returned := Some(SUCCESS))
  }

  function Run(h: Headers, program: seq<Statement>, m: Machine, statuses: nat -> int): Machine
    requires (forall s | s in program :: Declares(h, s)) && |h.codes| == |h.values|
  {
    if program == [] then m else Run(h, program[1..], Execute(h, program[0], m, statuses), statuses)
  }

  lemma {:induction false} RunConcat(h: Headers, p: seq<Statement>, q: seq<Statement>, m: Machine, statuses: nat -> int)
    requires (forall s | s in p + q :: Declares(h, s)) && |h.codes| == |h.values|
    ensures forall s | s in p || s in q :: Declares(h, s)
    ensures Run(h, p + q, m, statuses) == Run(h, q, Run(h, p, m, statuses), statuses)
    decreases |p|
  {
    assert forall s | s in p || s in q :: s in p + q;
    if p == [] {
      assert p + q == q;
    } else {
      assert (p + q)[1..] == p[1..] + q;
      RunConcat(h, p[1..], q, Execute(h, p[0], m, statuses), statuses);
    }
  }

  /** Nothing is executed after a return. */
  lemma {:induction false} ReturnIsFinal(h: Headers, p: seq<Statement>, m: Machine, statuses: nat -> int)
    requires (forall s | s in p :: Declares(h, s)) && |h.codes| == |h.values| && m.returned.Some?
    ensures Run(h, p, m, statuses) == m
    decreases |p|
  {
    if p != [] {
      ReturnIsFinal(h, p[1..], m, statuses);
    }
  }
}
