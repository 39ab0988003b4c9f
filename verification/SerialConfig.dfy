/** The configuration tool: from a list of serial interfaces to headers and an initialization function. */
module SerialConfig {
  import opened Common
  import opened InitProgram

  /** One entry of the interface list; keys that a kind does not use are ignored. */
  datatype Interface = Interface(
    kind: string, ready: bool, name: string, device: string,
    baudrate: int, speed: int, mode: int,
    direction: string, line: int, initial: int)

  const GENERAL_KINDS: seq<string> := ["i2c", "spi", "uart", "rs232", "rs422", "rs485", "can", "socat"]

  const GPIO := "gpio"

  predicate IsGeneral(i: Interface) {
    i.ready && i.kind in GENERAL_KINDS
  }

  predicate IsPin(i: Interface) {
    i.ready && i.kind == GPIO
  }

  predicate IsReady(i: Interface) {
    i.ready
  }

  function UpperChar(c: char): char {
    if 'a' <= c <= 'z' then 'A' + (c - 'a') else c
  }

  function Upper(s: string): (r: string)
    ensures |r| == |s|
  {
    seq(|s|, i requires 0 <= i < |s| => UpperChar(s[i]))
  }

  /** Lower-case letters become the upper-case ones; everything else stays. */
  lemma UpperLetters(c: char, i: nat)
    requires i < 26
    ensures UpperChar("abcdefghijklmnopqrstuvwxyz"[i]) == "ABCDEFGHIJKLMNOPQRSTUVWXYZ"[i]
    ensures c !in "abcdefghijklmnopqrstuvwxyz" ==> UpperChar(c) == c
  {
    var letters := "abcdefghijklmnopqrstuvwxyz";
    assert 'a' <= c <= 'z' ==> c == letters[(c - 'a') as int];
  }

  // ---------------------------------------------------------------------------
  // Identifiers
  // ---------------------------------------------------------------------------

  const PREFIX := "CFE_SRL_"

  function HandleIndexer(name: string): string {
    PREFIX + name + "_HANDLE_INDEXER"
  }

  function GpioIndexer(name: string): string {
    PREFIX + name + "_GPIO_INDEXER"
  }

  function InitError(name: string): string {
    PREFIX + name + "_INIT_ERR"
  }

  lemma InitErrorText(name: string)
    ensures InitError(name) == "CFE_SRL_" + name + "_INIT_ERR"
  {
  }

  lemma ErrorTexts(s: seq<Interface>)
    ensures forall i | 0 <= i < |s| ::
      Identifiers(Names(s), InitError)[i] == "CFE_SRL_" + Upper(s[i].name) + "_INIT_ERR"
  {
    hide InitError, Upper;
    forall i | 0 <= i < |s|
      ensures Identifiers(Names(s), InitError)[i] == "CFE_SRL_" + Upper(s[i].name) + "_INIT_ERR"
    {
      InitErrorText(Upper(s[i].name));
    }
  }

  /** Names whose error macros are already taken. */
  const TAKEN: seq<string> := ["PRIOR", "HANDLE", "CSP_CAN", "CSP_I2C", "CSP", "CSP_ROUTE", "MUTEX_ATTR", "MUTEX"]

  const TAKEN_OFFSETS: seq<nat> := [8, 9, 40, 41, 44, 45, 70, 71]

  const FIRST_OFFSET: nat := 90

  /** An error code of the serial module: severity 3, mission 1, and a 16-bit specific part. */
  function SerialError(offset: nat): int {
    0xC001_0000 + offset % 0x1_0000 - 0x1_0000_0000
  }

  // ---------------------------------------------------------------------------
  // What is to be emitted
  // ---------------------------------------------------------------------------

  function Select(s: seq<Interface>, p: Interface -> bool): (r: seq<Interface>)
    ensures |r| <= |s|
    ensures forall i :: i in r <==> i in s && p(i)
  {
    if s == [] then []
    else Select(s[..|s| - 1], p) + if p(s[|s| - 1]) then [s[|s| - 1]] else []
  }

  function General(s: seq<Interface>): seq<Interface> { Select(s, IsGeneral) }

  function Pins(s: seq<Interface>): seq<Interface> { Select(s, IsPin) }

  function Ready(s: seq<Interface>): seq<Interface> { Select(s, IsReady) }

  function Names(s: seq<Interface>): (r: seq<string>)
    ensures |r| == |s|
    ensures forall i | 0 <= i < |s| :: r[i] == Upper(s[i].name)
  {
    seq(|s|, i requires 0 <= i < |s| => Upper(s[i].name))
  }

  function Identifiers(names: seq<string>, f: string -> string): (r: seq<string>)
    ensures |r| == |names|
    ensures forall i | 0 <= i < |names| :: r[i] == f(names[i])
  {
    seq(|names|, i requires 0 <= i < |names| => f(names[i]))
  }

  datatype Error = TooManyDevices | TooManyNodes | BadDirection

  datatype Result<T> = Ok(value: T) | Err(error: Error)

  /** The call that initializes an interface; none for a kind that is not known. */
  function CallStatement(i: Interface): seq<Statement> {
    var name := Upper(i.name);
    var index := HandleIndexer(name);
    if i.kind == "i2c" || i.kind == "can" then
      [CallHandleInit(index, i.name, i.device, Upper(i.kind), index, 0, 0)]
    else if i.kind == "spi" then
      [CallHandleInit(index, i.name, i.device, "SPI", index, i.speed, i.mode)]
    else if i.kind in ["uart", "rs232", "rs422", "rs485"] then
      [CallHandleInit(index, i.name, i.device, Upper(i.kind), index, i.baudrate, 0)]
    else if i.kind == "socat" then
      [CallHandleInit(index, i.name, i.device, "UART", index, 115200, 0)]
    else if i.kind == GPIO then
      [CallGpioInit(GpioIndexer(name), i.device, i.line, i.name, i.initial, i.direction == "out")]
    else []
  }

  /** The statements emitted for a ready interface. */
  function Block(i: Interface): seq<Statement> {
    CallStatement(i) + [ReturnOnFailure(InitError(Upper(i.name)))] +
    if i.kind == GPIO then [] else [LogHandle(HandleIndexer(Upper(i.name)))]
  }

  function Blocks(s: seq<Interface>): seq<Statement> {
    if s == [] then [] else Blocks(s[..|s| - 1]) + Block(s[|s| - 1])
  }

  const PROLOGUE: seq<Statement> := [CallPriorInit, ReturnStatusOnFailure]

  function Epilogue(cspReady: bool): seq<Statement> {
    (if cspReady then [CallInitCSP, ReturnOnFailure(InitError("CSP"))] else []) + [ReturnSuccess]
  }

  /** What the generated files define and contain. */
  datatype Output = Output(
    handles: seq<string>, lastHandle: Option<string>, pinNum: nat, pins: seq<string>,
    codes: seq<string>, offsets: seq<nat>, program: seq<Statement>)

  function Offsets(n: nat): (r: seq<nat>)
    ensures |r| == n
    ensures forall i | 0 <= i < n :: r[i] == FIRST_OFFSET + i
  {
    seq(n, i requires 0 <= i < n => FIRST_OFFSET + i)
  }

  predicate DirectionOk(i: Interface) {
    i.kind == GPIO ==> i.direction == "in" || i.direction == "out"
  }

  function OutputOf(s: seq<Interface>, cspReady: bool): (o: Output)
    ensures |o.codes| == |o.offsets|
  {
    var handles, pins := Identifiers(Names(General(s)), HandleIndexer), Identifiers(Names(Pins(s)), GpioIndexer);
    Output(if handles == [] then ["NOTHING1"] else handles,
           if handles == [] then None else Some(handles[|handles| - 1]),
           |Pins(s)|,
           if pins == [] then ["NOTHING"] else pins,
           Identifiers(Names(Ready(s)), InitError), Offsets(|Ready(s)|),
           PROLOGUE + Blocks(Ready(s)) + Epilogue(cspReady))
  }

  // ---------------------------------------------------------------------------
  // Emission
  // ---------------------------------------------------------------------------

  method GetGeneralSrlNameArr(interfaces: seq<Interface>) returns (names: seq<string>)
    ensures names == Names(General(interfaces))
  {
    hide Select, Upper;
    names := [];
    for i := 0 to |interfaces|
      invariant names == Names(General(interfaces[..i]))
    {
      SelectNext(interfaces, i, IsGeneral);
      if interfaces[i].kind in GENERAL_KINDS {
        if interfaces[i].ready {
          names := names + [Upper(interfaces[i].name)];
        }
      }
    }
    assert interfaces[..|interfaces|] == interfaces;
  }

  method GetGpioNum(interfaces: seq<Interface>) returns (num: nat)
    ensures num == |Pins(interfaces)|
  {
    hide Select;
    num := 0;
    for i := 0 to |interfaces|
      invariant num == |Pins(interfaces[..i])|
    {
      SelectNext(interfaces, i, IsPin);
      if interfaces[i].kind == GPIO && interfaces[i].ready {
        num := num + 1;
      }
    }
    assert interfaces[..|interfaces|] == interfaces;
  }

  lemma SelectNext(s: seq<Interface>, i: nat, p: Interface -> bool)
    requires i < |s|
    ensures Select(s[..i + 1], p) == if p(s[i]) then Select(s[..i], p) + [s[i]] else Select(s[..i], p)
  {
    assert s[..i + 1][..i] == s[..i];
  }

  /** The file that the initialization function is written to. */
  class InitFile {
    var text: seq<Statement>

    constructor ()
      ensures text == []
    {
      text := [];
    }

    method Write(s: Statement)
      modifies this
      ensures text == old(text) + [s]
    {
      text := text + [s];
    }
  }

  method WriteHandleInit(f: InitFile, i: Interface, kind: string, speed: int, mode: int)
    modifies f
    ensures f.text == old(f.text) +
      [CallHandleInit(HandleIndexer(Upper(i.name)), i.name, i.device, kind, HandleIndexer(Upper(i.name)), speed, mode)]
  {
    var index := HandleIndexer(Upper(i.name));
    f.Write(CallHandleInit(index, i.name, i.device, kind, index, speed, mode));
  }

  method WriteGpioInit(f: InitFile, i: Interface) returns (ok: bool)
    requires i.kind == GPIO
    modifies f
    ensures ok == DirectionOk(i)
    ensures ok ==> f.text == old(f.text) + CallStatement(i)
  {
    hide Upper, GpioIndexer;
    var index := GpioIndexer(Upper(i.name));
    if i.direction == "in" {
      f.Write(CallGpioInit(index, i.device, i.line, i.name, i.initial, false));
    } else if i.direction == "out" {
      f.Write(CallGpioInit(index, i.device, i.line, i.name, i.initial, true));
    } else {
      return false;
    }
    return true;
  }

  /** Emits the call, the check of its status and, unless for a pin, the log of the handle. */
  method WriteInterface(f: InitFile, i: Interface) returns (ok: bool)
    modifies f
    ensures ok == DirectionOk(i)
    ensures ok ==> f.text == old(f.text) + Block(i)
  {
    if i.kind == "i2c" {
      WriteHandleInit(f, i, Upper(i.kind), 0, 0);
    } else if i.kind == "spi" {
      WriteHandleInit(f, i, "SPI", i.speed, i.mode);
    } else if i.kind in ["uart", "rs232", "rs422", "rs485"] {
      WriteHandleInit(f, i, Upper(i.kind), i.baudrate, 0);
    } else if i.kind == "can" {
      WriteHandleInit(f, i, Upper(i.kind), 0, 0);
    } else if i.kind == "socat" {
      WriteHandleInit(f, i, "UART", 115200, 0);
    }
    if i.kind == GPIO {
      ok := WriteGpioInit(f, i);
      if !ok {
        return;
      }
      f.Write(ReturnOnFailure(InitError(Upper(i.name))));
    } else {
      f.Write(ReturnOnFailure(InitError(Upper(i.name))));
      f.Write(LogHandle(HandleIndexer(Upper(i.name))));
    }
    return true;
  }

  /** The initialization function, unless a ready pin has no proper direction. */
  method EmitInit(interfaces: seq<Interface>, cspReady: bool) returns (r: Result<seq<Statement>>)
    ensures r == if forall i | i in Ready(interfaces) :: DirectionOk(i)
                 then Ok(PROLOGUE + Blocks(Ready(interfaces)) + Epilogue(cspReady)) else Err(BadDirection)
  {
    hide Select, Block, Blocks, InitError, DirectionOk, Upper, Epilogue;
    NoBlocks();
    var f := new InitFile();
    f.Write(CallPriorInit);
    f.Write(ReturnStatusOnFailure);
    assert interfaces[..0] == [];
    for i := 0 to |interfaces|
      invariant fresh(f)
      invariant f.text == PROLOGUE + Blocks(Ready(interfaces[..i]))
      invariant forall k | k in Ready(interfaces[..i]) :: DirectionOk(k)
    {
      SelectNext(interfaces, i, IsReady);
      if interfaces[i].ready {
        var ok := WriteInterface(f, interfaces[i]);
        if !ok {
          assert interfaces[i] in Ready(interfaces);
          return Err(BadDirection);
        }
        BlocksNext(Ready(interfaces[..i]), interfaces[i]);
      }
    }
    assert interfaces[..|interfaces|] == interfaces;
    WriteEpilogue(f, cspReady);
    return Ok(f.text);
  }

  method WriteEpilogue(f: InitFile, cspReady: bool)
    modifies f
    ensures f.text == old(f.text) + Epilogue(cspReady)
  {
    if cspReady {
      f.Write(CallInitCSP);
      f.Write(ReturnOnFailure(InitError("CSP")));
    }
    f.Write(ReturnSuccess);
  }

  lemma NoBlocks()
    ensures Blocks(Ready([])) == []
  {
  }

  lemma BlocksNext(s: seq<Interface>, i: Interface)
    ensures Blocks(s + [i]) == Blocks(s) + Block(i)
  {
    assert (s + [i])[..|s|] == s;
  }

  lemma NoErrors()
    ensures Identifiers(Names(Ready([])), InitError) == [] && Offsets(|Ready([])|) == []
  {
  }

  lemma ErrorsNext(s: seq<Interface>, i: Interface)
    ensures Identifiers(Names(s + [i]), InitError) == Identifiers(Names(s), InitError) + [InitError(Upper(i.name))]
    ensures Offsets(|s + [i]|) == Offsets(|s|) + [FIRST_OFFSET + |s|]
  {
    hide InitError, Upper;
  }

  /** The error macros, numbered from 90 on. */
  method EmitErrors(interfaces: seq<Interface>) returns (codes: seq<string>, offsets: seq<nat>)
    ensures codes == Identifiers(Names(Ready(interfaces)), InitError)
    ensures offsets == Offsets(|Ready(interfaces)|)
    ensures |codes| == |offsets| == |Ready(interfaces)|
    ensures forall i | 0 <= i < |codes| ::
      codes[i] == "CFE_SRL_" + Upper(Ready(interfaces)[i].name) + "_INIT_ERR" && offsets[i] == 90 + i
  {
    hide Select, InitError, Upper, Names, Identifiers, Offsets;
    NoErrors();
    assert interfaces[..0] == [];
    var offset := FIRST_OFFSET;
    codes, offsets := [], [];
    for i := 0 to |interfaces|
      invariant codes == Identifiers(Names(Ready(interfaces[..i])), InitError)
      invariant offsets == Offsets(|Ready(interfaces[..i])|)
      invariant offset == FIRST_OFFSET + |offsets|
    {
      SelectNext(interfaces, i, IsReady);
      if interfaces[i].ready {
        ErrorsNext(Ready(interfaces[..i]), interfaces[i]);
        codes := codes + [InitError(Upper(interfaces[i].name))];
        offsets := offsets + [offset];
        offset := offset + 1;
      }
    }
    assert interfaces[..|interfaces|] == interfaces;
    ErrorTexts(Ready(interfaces));
  }

  method EmitPins(interfaces: seq<Interface>) returns (pins: seq<string>)
    ensures pins == Identifiers(Names(Pins(interfaces)), GpioIndexer)
  {
    hide Select, GpioIndexer, Upper;
    pins := [];
    for i := 0 to |interfaces|
      invariant pins == Identifiers(Names(Pins(interfaces[..i])), GpioIndexer)
    {
      SelectNext(interfaces, i, IsPin);
      if interfaces[i].kind == GPIO && interfaces[i].ready {
        pins := pins + [GpioIndexer(Upper(interfaces[i].name))];
      }
    }
    assert interfaces[..|interfaces|] == interfaces;
  }

  method EmitHandles(names: seq<string>) returns (handles: seq<string>)
    ensures handles == Identifiers(names, HandleIndexer)
  {
    handles := [];
    for i := 0 to |names|
      invariant handles == Identifiers(names[..i], HandleIndexer)
    {
      handles := handles + [HandleIndexer(names[i])];
    }
  }

  /**
   * The whole tool. It fails exactly when there are too many devices, when there are too many CSP nodes with the
   * host among them, or when a ready pin has no proper direction.
   */
  method Generate(interfaces: seq<Interface>, cspReady: bool, nodes: nat, maxHandle: nat, maxNodes: nat)
    returns (r: Result<Output>)
    ensures r == if |General(interfaces)| > maxHandle then Err(TooManyDevices)
                 else if nodes + 1 > maxNodes then Err(TooManyNodes)
                 else if exists i :: i in Ready(interfaces) && !DirectionOk(i) then Err(BadDirection)
                 else Ok(OutputOf(interfaces, cspReady))
  {
    hide Select, Blocks, Upper, DirectionOk, HandleIndexer, GpioIndexer, InitError;
    var names := GetGeneralSrlNameArr(interfaces);
    if |names| > maxHandle {
      return Err(TooManyDevices);
    }
    if nodes + 1 > maxNodes {
      return Err(TooManyNodes);
    }
    var handles, last: Option<string> := ["NOTHING1"], None;
    if names != [] {
      handles := EmitHandles(names);
      last := Some(HandleIndexer(names[|names| - 1]));
    }
    var pinNum := GetGpioNum(interfaces);
    var pins := ["NOTHING"];
    if pinNum != 0 {
      pins := EmitPins(interfaces);
    }
    var codes, offsets := EmitErrors(interfaces);
    var program := EmitInit(interfaces, cspReady);
    if program.Err? {
      return Err(program.error);
    }
    return Ok(Output(handles, last, pinNum, pins, codes, offsets, program.value));
  }
}
