/** What the generated initialization function does: exactly what the configuration says, or it does not compile. */
module GeneratedInit {
  import opened Common
  import opened InitProgram
  import opened SerialConfig

  // ---------------------------------------------------------------------------
  // What the configuration says
  // ---------------------------------------------------------------------------

  predicate Known(i: Interface) {
    i.kind in GENERAL_KINDS || i.kind == GPIO
  }

  /** Every ready interface is of a known kind, and the upper-cased names are new and distinct. */
  ghost predicate WellConfigured(s: seq<Interface>) {
    && (forall i | i in Ready(s) :: Known(i))
    && Distinct(TAKEN + Names(Ready(s)))
  }

  function DeviceType(i: Interface): string {
    if i.kind == "socat" then "UART" else Upper(i.kind)
  }

  function Speed(i: Interface): int {
    match i.kind
    case "spi" => i.speed
    case "uart" => i.baudrate
    case "rs232" => i.baudrate
    case "rs422" => i.baudrate
    case "rs485" => i.baudrate
    case "socat" => 115200
    case _ => 0
  }

  /** The call that initializes an interface whose index among its kind is k. */
  function CallFor(i: Interface, k: nat): Call {
    if i.kind == GPIO then GpioInit(k, i.device, i.line, i.name, i.initial, i.direction == "out")
    else HandleInit(k, i.name, i.device, DeviceType(i), k, Speed(i), if i.kind == "spi" then i.mode else 0)
  }

  /** The calls for a list of ready interfaces, each with its rank among the pins or among the others. */
  function InterfaceCalls(s: seq<Interface>): (r: seq<Call>)
    ensures |r| == |s|
  {
    if s == [] then []
    else
      var front, i := s[..|s| - 1], s[|s| - 1];
      InterfaceCalls(front) + [CallFor(i, if i.kind == GPIO then |Pins(front)| else |General(front)|)]
  }

  /** All calls of a run in which every call succeeds. */
  function Plan(s: seq<Interface>, cspReady: bool): seq<Call> {
    [PriorInit] + InterfaceCalls(Ready(s)) + if cspReady then [InitCSP] else []
  }

  /** What is returned when the j-th call of the plan is the first to fail. */
  function FailureCode(s: seq<Interface>, j: nat, statuses: nat -> int): int {
    if j == 0 then statuses(0)
    else if j <= |Ready(s)| then SerialError(FIRST_OFFSET + j - 1)
    else SerialError(44)
  }

  /** The definitions that the generated function is compiled against. */
  function HeadersOf(o: Output): (h: Headers)
    requires |o.codes| == |o.offsets|
    ensures |h.codes| == |h.values|
  {
    Headers(o.handles, o.pins, Identifiers(TAKEN, InitError) + o.codes, Values(TAKEN_OFFSETS + o.offsets))
  }

  function Values(offsets: seq<nat>): (r: seq<int>)
    ensures |r| == |offsets|
    ensures forall i | 0 <= i < |r| :: r[i] == SerialError(offsets[i])
  {
    seq(|offsets|, i requires 0 <= i < |offsets| => SerialError(offsets[i]))
  }

  // ---------------------------------------------------------------------------
  // Identifiers
  // ---------------------------------------------------------------------------

  ghost predicate Injective(f: string -> string) {
    forall a, b :: f(a) == f(b) ==> a == b
  }

  lemma Enclosed(before: string, a: string, b: string, after: string)
    requires before + a + after == before + b + after
    ensures a == b
  {
    assert |a| == |b|;
    assert (before + a + after)[|before|..|before| + |a|] == a;
    assert (before + b + after)[|before|..|before| + |b|] == b;
  }

  lemma IndexersInjective()
    ensures Injective(HandleIndexer) && Injective(GpioIndexer) && Injective(InitError)
  {
    forall a, b | HandleIndexer(a) == HandleIndexer(b) ensures a == b {
      Enclosed(PREFIX, a, b, "_HANDLE_INDEXER");
    }
    forall a, b | GpioIndexer(a) == GpioIndexer(b) ensures a == b {
      Enclosed(PREFIX, a, b, "_GPIO_INDEXER");
    }
    forall a, b | InitError(a) == InitError(b) ensures a == b {
      Enclosed(PREFIX, a, b, "_INIT_ERR");
    }
  }

  lemma IndexersDiffer(a: string, b: string)
    ensures HandleIndexer(a) != GpioIndexer(b)
    ensures HandleIndexer(a) != "NOTHING1" && HandleIndexer(a) != "NOTHING"
    ensures GpioIndexer(a) != "NOTHING1" && GpioIndexer(a) != "NOTHING"
  {
    var s, t := HandleIndexer(a), GpioIndexer(b);
    assert s[|s| - 9] == 'E' && t[|t| - 9] == 'O';
    assert s[0] == 'C' && GpioIndexer(a)[0] == 'C';
  }

  lemma IdentifiersDistinct(names: seq<string>, f: string -> string)
    requires Injective(f)
    ensures Distinct(Identifiers(names, f)) <==> Distinct(names)
  {
    var r := Identifiers(names, f);
    if Distinct(names) {
      forall i, j | 0 <= i < j < |r| ensures r[i] != r[j] {
        assert names[i] != names[j];
      }
    }
    if Distinct(r) {
      forall i, j | 0 <= i < j < |names| ensures names[i] != names[j] {
        assert r[i] != r[j];
      }
    }
  }

  // ---------------------------------------------------------------------------
  // Selections
  // ---------------------------------------------------------------------------

  lemma SelectAppend(s: seq<Interface>, i: Interface, p: Interface -> bool)
    ensures Select(s + [i], p) == if p(i) then Select(s, p) + [i] else Select(s, p)
  {
    assert (s + [i])[..|s|] == s;
  }

  /** Whatever holds of ready interfaces only can be selected from the ready ones. */
  lemma {:induction false} SelectFromReady(s: seq<Interface>, p: Interface -> bool)
    requires forall i :: p(i) ==> i.ready
    ensures Select(Ready(s), p) == Select(s, p)
    decreases |s|
  {
    hide Select;
    if s == [] {
      assert Ready(s) == s;
    } else {
      var front, i := s[..|s| - 1], s[|s| - 1];
      assert s == front + [i];
      SelectFromReady(front, p);
      SelectAppend(front, i, p);
      SelectAppend(front, i, IsReady);
      SelectAppend(Ready(front), i, p);
    }
  }

  lemma SelectedName(s: seq<Interface>, p: Interface -> bool, name: string)
    requires name in Names(Select(s, p))
    ensures name in Names(s)
  {
    hide Upper;
    var r := Select(s, p);
    var k :| 0 <= k < |r| && Names(r)[k] == name;
    assert r[k] in s;
    var i :| 0 <= i < |s| && s[i] == r[k];
    assert Names(s)[i] == name;
  }

  lemma NamesAppend(s: seq<Interface>, i: Interface)
    ensures Names(s + [i]) == Names(s) + [Upper(i.name)]
  {
    hide Upper;
  }

  lemma {:induction false} SelectDistinct(s: seq<Interface>, p: Interface -> bool)
    requires Distinct(Names(s))
    ensures Distinct(Names(Select(s, p)))
    decreases |s|
  {
    hide Upper, Names, Select, Distinct;
    if s == [] {
      assert Select(s, p) == s;
    } else {
      var front, i := s[..|s| - 1], s[|s| - 1];
      assert s == front + [i];
      NamesAppend(front, i);
      DistinctConcat(Names(front), [Upper(i.name)]);
      SelectDistinct(front, p);
      SelectAppend(front, i, p);
      if p(i) {
        var r := Select(front, p);
        NamesAppend(r, i);
        forall k | 0 <= k < |Names(r)| ensures Names(r)[k] != Upper(i.name) {
          SelectedName(front, p, Names(r)[k]);
        }
        DistinctConcat(Names(r), [Upper(i.name)]);
      }
    }
  }

  lemma ReadyKinds(s: seq<Interface>)
    ensures General(Ready(s)) == General(s) && Pins(Ready(s)) == Pins(s)
  {
    SelectFromReady(s, IsGeneral);
    SelectFromReady(s, IsPin);
  }

  // ---------------------------------------------------------------------------
  // The program compiles
  // ---------------------------------------------------------------------------

  lemma {:induction false} BlocksContain(s: seq<Interface>, x: Statement)
    ensures x in Blocks(s) <==> exists i :: i in s && x in Block(i)
    decreases |s|
  {
    if s != [] {
      BlocksContain(s[..|s| - 1], x);
    }
  }

  /** Membership among generated identifiers, whose list may be a placeholder. */
  lemma IdentifierDeclared(s: seq<Interface>, f: string -> string, i: Interface)
    requires i in s
    ensures f(Upper(i.name)) in Identifiers(Names(s), f)
  {
    var k :| 0 <= k < |s| && s[k] == i;
    assert Identifiers(Names(s), f)[k] == f(Upper(i.name));
  }

  lemma BlockDeclared(s: seq<Interface>, h: Headers, i: Interface, x: Statement)
    requires i in Ready(s) && Known(i) && x in Block(i)
    requires General(s) != [] ==> h.handles == Identifiers(Names(General(s)), HandleIndexer)
    requires Pins(s) != [] ==> h.pins == Identifiers(Names(Pins(s)), GpioIndexer)
    requires forall c | c in Identifiers(Names(Ready(s)), InitError) :: c in h.codes
    ensures Declares(h, x)
  {
    IdentifierDeclared(Ready(s), InitError, i);
    if i.kind == GPIO {
      IdentifierDeclared(Pins(s), GpioIndexer, i);
    } else {
      IdentifierDeclared(General(s), HandleIndexer, i);
    }
  }

  lemma EnumeratorsDistinct(s: seq<Interface>, cspReady: bool)
    requires Distinct(Names(Ready(s)))
    ensures Distinct(OutputOf(s, cspReady).handles + OutputOf(s, cspReady).pins)
  {
    ReadyKinds(s);
    SelectDistinct(Ready(s), IsGeneral);
    SelectDistinct(Ready(s), IsPin);
    IndexersInjective();
    var o := OutputOf(s, cspReady);
    EnumerationsApart(Names(General(s)), Names(Pins(s)), o.handles, o.pins);
    DistinctConcat(o.handles, o.pins);
  }

  lemma EnumerationsApart(names: seq<string>, names': seq<string>, handles: seq<string>, pins: seq<string>)
    requires Distinct(names) && Distinct(names') && Injective(HandleIndexer) && Injective(GpioIndexer)
    requires handles == if names == [] then ["NOTHING1"] else Identifiers(names, HandleIndexer)
    requires pins == if names' == [] then ["NOTHING"] else Identifiers(names', GpioIndexer)
    ensures Distinct(handles) && Distinct(pins)
    ensures forall i, j | 0 <= i < |handles| && 0 <= j < |pins| :: handles[i] != pins[j]
  {
    hide HandleIndexer, GpioIndexer, Injective;
    IdentifiersDistinct(names, HandleIndexer);
    IdentifiersDistinct(names', GpioIndexer);
    forall i, j | 0 <= i < |handles| && 0 <= j < |pins| ensures handles[i] != pins[j] {
      var a, b := if names == [] then "" else names[i], if names' == [] then "" else names'[j];
      IndexersDiffer(a, b);
      IndexersDiffer(b, a);
    }
  }

  lemma DistinctConcat(s: seq<string>, t: seq<string>)
    ensures Distinct(s + t) <==>
      Distinct(s) && Distinct(t) && forall i, j | 0 <= i < |s| && 0 <= j < |t| :: s[i] != t[j]
  {
    if Distinct(s + t) {
      forall i, j | 0 <= i < |s| && 0 <= j < |t| ensures s[i] != t[j] {
        assert (s + t)[i] != (s + t)[|s| + j];
      }
      forall i, j | 0 <= i < j < |s| ensures s[i] != s[j] {
        assert (s + t)[i] != (s + t)[j];
      }
      forall i, j | 0 <= i < j < |t| ensures t[i] != t[j] {
        assert (s + t)[|s| + i] != (s + t)[|s| + j];
      }
    }
  }

  lemma CodesDistinct(s: seq<Interface>)
    ensures Distinct(Identifiers(TAKEN, InitError) + Identifiers(Names(Ready(s)), InitError))
       <==> Distinct(TAKEN + Names(Ready(s)))
  {
    hide InitError, Names, Ready;
    IndexersInjective();
    var names := Names(Ready(s));
    assert Identifiers(TAKEN, InitError) + Identifiers(names, InitError) == Identifiers(TAKEN + names, InitError);
    IdentifiersDistinct(TAKEN + names, InitError);
  }

  lemma ProgramDeclared(s: seq<Interface>, cspReady: bool)
    requires forall i | i in Ready(s) :: Known(i)
    ensures
      var o := OutputOf(s, cspReady);
      forall x | x in o.program :: Declares(HeadersOf(o), x)
  {
    hide Select, Block, Names, InitError, Identifiers, Blocks, Declares;
    var o := OutputOf(s, cspReady);
    forall x | x in o.program ensures Declares(HeadersOf(o), x) {
      if x in Blocks(Ready(s)) {
        BlocksContain(Ready(s), x);
        var i :| i in Ready(s) && x in Block(i);
        PlaceholdersOnly(s);
        BlockDeclared(s, HeadersOf(o), i, x);
      } else {
        FrameDeclared(s, cspReady, x);
      }
    }
  }

  lemma FrameDeclared(s: seq<Interface>, cspReady: bool, x: Statement)
    requires x in PROLOGUE + Epilogue(cspReady)
    ensures Declares(HeadersOf(OutputOf(s, cspReady)), x)
  {
    hide Select, Names, InitError, Blocks;
    assert TAKEN[4] == "CSP";
    assert HeadersOf(OutputOf(s, cspReady)).codes[4] == InitError("CSP");
  }

  lemma PlaceholdersOnly(s: seq<Interface>)
    ensures General(s) != [] ==> Identifiers(Names(General(s)), HandleIndexer) != []
    ensures Pins(s) != [] ==> Identifiers(Names(Pins(s)), GpioIndexer) != []
  {
    assert |Names(General(s))| == |General(s)| && |Names(Pins(s))| == |Pins(s)|;
  }

  lemma HandleUndeclared(s: seq<Interface>, cspReady: bool, i: Interface)
    requires Distinct(Names(Ready(s))) && i in Ready(s) && !Known(i)
    ensures HandleIndexer(Upper(i.name)) !in OutputOf(s, cspReady).handles
  {
    hide HandleIndexer, GpioIndexer, InitError, Upper, Blocks;
    var id := HandleIndexer(Upper(i.name));
    if General(s) == [] {
      IndexersDiffer(Upper(i.name), "");
    } else if id in OutputOf(s, cspReady).handles {
      IndexersInjective();
      var k :| 0 <= k < |General(s)| && HandleIndexer(Names(General(s))[k]) == id;
      assert Names(General(s))[k] == Upper(i.name);
      assert General(s)[k] in General(s) && General(s)[k] in Ready(s);
      SharedName(Ready(s), i, General(s)[k]);
      assert false;
    }
  }

  /** The log of an interface of unknown kind refers to an enumerator that is nobody's. */
  lemma UnknownKindUndeclared(s: seq<Interface>, cspReady: bool, i: Interface)
    requires Distinct(Names(Ready(s))) && i in Ready(s) && !Known(i)
    ensures
      var o, log := OutputOf(s, cspReady), LogHandle(HandleIndexer(Upper(i.name)));
      log in o.program && !Declares(HeadersOf(o), log)
  {
    hide HandleIndexer, GpioIndexer, InitError, Upper, CallStatement;
    HandleUndeclared(s, cspReady, i);
    assert LogHandle(HandleIndexer(Upper(i.name))) in Block(i);
    BlocksContain(Ready(s), LogHandle(HandleIndexer(Upper(i.name))));
  }

  lemma SharedName(s: seq<Interface>, i: Interface, j: Interface)
    requires Distinct(Names(s)) && i in s && j in s && Upper(i.name) == Upper(j.name)
    ensures i == j
  {
    var a :| 0 <= a < |s| && s[a] == i;
    var b :| 0 <= b < |s| && s[b] == j;
    assert Names(s)[a] == Names(s)[b];
  }

  /**
   * The generated files compile if and only if every ready interface is of a known kind and the upper-cased
   * names of the ready interfaces are distinct and new.
   */
  lemma CompilesExactly(s: seq<Interface>, cspReady: bool)
    ensures Compiles(HeadersOf(OutputOf(s, cspReady)), OutputOf(s, cspReady).program) <==> WellConfigured(s)
  {
    var o := OutputOf(s, cspReady);
    var h := HeadersOf(o);
    CodesDistinct(s);
    DistinctConcat(TAKEN, Names(Ready(s)));
    if WellConfigured(s) {
      EnumeratorsDistinct(s, cspReady);
      ProgramDeclared(s, cspReady);
    }
    if Compiles(h, o.program) {
      forall i | i in Ready(s) ensures Known(i) {
        if !Known(i) {
          UnknownKindUndeclared(s, cspReady, i);
        }
      }
    }
  }

  // ---------------------------------------------------------------------------
  // Names and codes that are already there
  // ---------------------------------------------------------------------------

  /** The macro has the code with the given specific part in the headers of every generated program. */
  ghost predicate Defines(h: Headers, macro: string, specific: nat) {
    && |h.codes| == |h.values| && macro in h.codes
    && IsSerialError(h.values[IndexOf(h.codes, macro)], specific)
  }

  lemma TakenMacro(s: seq<Interface>, cspReady: bool, i: nat)
    requires i < |TAKEN| && WellConfigured(s)
    ensures Defines(HeadersOf(OutputOf(s, cspReady)), InitError(TAKEN[i]), TAKEN_OFFSETS[i])
  {
    hide Select, IsSerialError, SerialError;
    var h := HeadersOf(OutputOf(s, cspReady));
    CodesDistinct(s);
    assert h.codes[i] == InitError(TAKEN[i]);
    IndexOfDistinct(h.codes, i);
    SerialErrorFields(TAKEN_OFFSETS[i]);
  }

  /** The macros of the framework's own header that end as the generated ones do keep their codes. */
  lemma TakenMacros(s: seq<Interface>, cspReady: bool)
    requires WellConfigured(s)
    ensures
      var h := HeadersOf(OutputOf(s, cspReady));
      && Defines(h, "CFE_SRL_PRIOR_INIT_ERR", 8) && Defines(h, "CFE_SRL_HANDLE_INIT_ERR", 9)
      && Defines(h, "CFE_SRL_CSP_CAN_INIT_ERR", 40) && Defines(h, "CFE_SRL_CSP_I2C_INIT_ERR", 41)
      && Defines(h, "CFE_SRL_CSP_INIT_ERR", 44) && Defines(h, "CFE_SRL_CSP_ROUTE_INIT_ERR", 45)
      && Defines(h, "CFE_SRL_MUTEX_ATTR_INIT_ERR", 70) && Defines(h, "CFE_SRL_MUTEX_INIT_ERR", 71)
  {
    hide HeadersOf, OutputOf, WellConfigured, Defines, InitError;
    TakenTexts();
    MoreTakenTexts();
    TakenMacro(s, cspReady, 0);
    TakenMacro(s, cspReady, 1);
    TakenMacro(s, cspReady, 2);
    TakenMacro(s, cspReady, 3);
    TakenMacro(s, cspReady, 4);
    TakenMacro(s, cspReady, 5);
    TakenMacro(s, cspReady, 6);
    TakenMacro(s, cspReady, 7);
  }

  lemma TakenTexts()
    ensures InitError("PRIOR") == "CFE_SRL_PRIOR_INIT_ERR" && InitError("HANDLE") == "CFE_SRL_HANDLE_INIT_ERR"
    ensures InitError("CSP_CAN") == "CFE_SRL_CSP_CAN_INIT_ERR" && InitError("CSP_I2C") == "CFE_SRL_CSP_I2C_INIT_ERR"
  {
  }

  lemma MoreTakenTexts()
    ensures InitError("CSP") == "CFE_SRL_CSP_INIT_ERR" && InitError("CSP_ROUTE") == "CFE_SRL_CSP_ROUTE_INIT_ERR"
    ensures InitError("MUTEX_ATTR") == "CFE_SRL_MUTEX_ATTR_INIT_ERR" && InitError("MUTEX") == "CFE_SRL_MUTEX_INIT_ERR"
  {
  }

  /** A kind is known exactly when the generator has a call for it; it has a handle unless it is a pin. */
  lemma KnownKinds(i: Interface)
    ensures Known(i) <==> CallStatement(i) != []
    ensures i.kind in GENERAL_KINDS <==> CallStatement(i) != [] && CallStatement(i)[0].CallHandleInit?
  {
  }

  // ---------------------------------------------------------------------------
  // The program runs as planned
  // ---------------------------------------------------------------------------

  const POWERED_ON := Machine([], SUCCESS, None)

  /** The first n calls of a run succeed. */
  ghost predicate Succeed(statuses: nat -> int, n: nat) {
    forall k: nat | k < n :: statuses(k) == SUCCESS
  }

  ghost function RunGenerated(s: seq<Interface>, cspReady: bool, statuses: nat -> int): Machine
    requires WellConfigured(s)
  {
    CompilesExactly(s, cspReady);
    var o := OutputOf(s, cspReady);
    Run(HeadersOf(o), o.program, POWERED_ON, statuses)
  }

  /** A machine that has made some calls, all successfully. */
  function After(calls: seq<Call>): Machine {
    Machine(calls, SUCCESS, None)
  }

  lemma {:induction false} SelectPrefix(s: seq<Interface>, k: nat, p: Interface -> bool)
    requires k < |s| && p(s[k])
    ensures |Select(s[..k], p)| < |Select(s, p)| && Select(s, p)[|Select(s[..k], p)|] == s[k]
    decreases |s|
  {
    var front := s[..|s| - 1];
    if k < |s| - 1 {
      assert front[..k] == s[..k];
      SelectPrefix(front, k, p);
    }
  }

  /** The index that an enumerator evaluates to is the rank of its interface. */
  lemma IndexIsRank(s: seq<Interface>, k: nat, cspReady: bool)
    requires WellConfigured(s) && k < |Ready(s)|
    ensures
      var r, h := Ready(s), HeadersOf(OutputOf(s, cspReady));
      var i, name := r[k], Upper(r[k].name);
      && (i.kind == GPIO ==> GpioIndexer(name) in h.pins && IndexOf(h.pins, GpioIndexer(name)) == |Pins(r[..k])|)
      && (i.kind != GPIO ==> HandleIndexer(name) in h.handles
                             && IndexOf(h.handles, HandleIndexer(name)) == |General(r[..k])|)
  {
    hide Upper, HandleIndexer, GpioIndexer, InitError, Block, Blocks, Select, Distinct;
    var r, o := Ready(s), OutputOf(s, cspReady);
    assert r[k] in r;
    ReadyKinds(s);
    DistinctConcat(TAKEN, Names(r));
    EnumeratorsDistinct(s, cspReady);
    DistinctConcat(o.handles, o.pins);
    if r[k].kind == GPIO {
      SelectPrefix(r, k, IsPin);
      IndexOfDistinct(o.pins, |Pins(r[..k])|);
    } else {
      SelectPrefix(r, k, IsGeneral);
      IndexOfDistinct(o.handles, |General(r[..k])|);
    }
  }

  lemma CodeOfReady(s: seq<Interface>, k: nat, cspReady: bool)
    requires WellConfigured(s) && k < |Ready(s)|
    ensures
      var h, code := HeadersOf(OutputOf(s, cspReady)), InitError(Upper(Ready(s)[k].name));
      code in h.codes && h.values[IndexOf(h.codes, code)] == SerialError(FIRST_OFFSET + k)
  {
    hide Select, InitError, Upper, SerialError, Block, Blocks, Distinct, IndexOf, Values, Offsets, Identifiers;
    CodesDistinct(s);
    CodeAt(Names(Ready(s)), k);
  }

  lemma CodeAt(names: seq<string>, k: nat)
    requires k < |names| && Distinct(Identifiers(TAKEN, InitError) + Identifiers(names, InitError))
    ensures
      var codes := Identifiers(TAKEN, InitError) + Identifiers(names, InitError);
      && InitError(names[k]) in codes
      && IndexOf(codes, InitError(names[k])) == |TAKEN| + k
      && Values(TAKEN_OFFSETS + Offsets(|names|))[|TAKEN| + k] == SerialError(FIRST_OFFSET + k)
  {
    hide InitError, SerialError, Distinct, IndexOf;
    var codes := Identifiers(TAKEN, InitError) + Identifiers(names, InitError);
    assert codes[|TAKEN| + k] == InitError(names[k]);
    IndexOfDistinct(codes, |TAKEN| + k);
  }

  lemma UpperSpi()
    ensures Upper("spi") == "SPI"
  {
  }

  /** The call of an interface whose enumerator has the value k. */
  lemma StatementCalls(h: Headers, i: Interface, k: nat, m: Machine, statuses: nat -> int)
    requires Known(i) && m.returned.None? && |h.codes| == |h.values|
    requires i.kind == GPIO ==>
      var x := GpioIndexer(Upper(i.name));
      x in h.pins && IndexOf(h.pins, x) == k
    requires i.kind != GPIO ==>
      var x := HandleIndexer(Upper(i.name));
      x in h.handles && IndexOf(h.handles, x) == k
    ensures
      var c := CallStatement(i);
      |c| == 1 && Declares(h, c[0]) && Execute(h, c[0], m, statuses) == m.Make(CallFor(i, k), statuses)
  {
    hide HandleIndexer, GpioIndexer, Upper, IndexOf;
    UpperSpi();
  }

  lemma LastCall(r: seq<Interface>, k: nat)
    requires k < |r|
    ensures InterfaceCalls(r[..k + 1])[k] ==
      CallFor(r[k], if r[k].kind == GPIO then |Pins(r[..k])| else |General(r[..k])|)
  {
    hide CallFor, Select;
    assert r[..k + 1][..k] == r[..k];
  }

  /** The call that a block makes is the planned one. */
  lemma BlockCalls(s: seq<Interface>, k: nat, cspReady: bool, m: Machine, statuses: nat -> int)
    requires WellConfigured(s) && k < |Ready(s)| && m.returned.None?
    ensures
      var h, r := HeadersOf(OutputOf(s, cspReady)), Ready(s);
      var c := CallStatement(r[k]);
      && |c| == 1 && Declares(h, c[0])
      && Execute(h, c[0], m, statuses) == m.Make(InterfaceCalls(r[..k + 1])[k], statuses)
  {
    hide HandleIndexer, GpioIndexer, Upper, Select, OutputOf, HeadersOf, CallStatement, CallFor, InterfaceCalls, Execute;
    var r := Ready(s);
    assert r[k] in r && Known(r[k]);
    IndexIsRank(s, k, cspReady);
    LastCall(r, k);
    var rank := if r[k].kind == GPIO then |Pins(r[..k])| else |General(r[..k])|;
    StatementCalls(HeadersOf(OutputOf(s, cspReady)), r[k], rank, m, statuses);
  }

  ghost predicate AllDeclared(h: Headers, program: seq<Statement>) {
    |h.codes| == |h.values| && forall x | x in program :: Declares(h, x)
  }

  lemma BlocksDeclared(s: seq<Interface>, k: nat, cspReady: bool)
    requires WellConfigured(s) && k <= |Ready(s)|
    ensures AllDeclared(HeadersOf(OutputOf(s, cspReady)), Blocks(Ready(s)[..k]))
    ensures k < |Ready(s)| ==> AllDeclared(HeadersOf(OutputOf(s, cspReady)), Block(Ready(s)[k]))
  {
    hide Block, Blocks, Select, Declares;
    var r, o := Ready(s), OutputOf(s, cspReady);
    ProgramDeclared(s, cspReady);
    forall x | x in Blocks(r[..k]) || (k < |r| && x in Block(r[k])) ensures x in o.program {
      BlocksContain(r[..k], x);
      BlocksContain(r, x);
    }
  }

  /** One block makes the planned call, and returns the interface's own code when it fails. */
  lemma BlockRuns(s: seq<Interface>, k: nat, cspReady: bool, calls: seq<Call>, statuses: nat -> int)
    requires WellConfigured(s) && k < |Ready(s)| && |calls| == k + 1
    ensures
      var h, r := HeadersOf(OutputOf(s, cspReady)), Ready(s);
      var next := calls + [InterfaceCalls(r[..k + 1])[k]];
      && AllDeclared(h, Block(r[k]))
      && Run(h, Block(r[k]), After(calls), statuses) ==
           if statuses(k + 1) == SUCCESS then After(next)
           else Machine(next, statuses(k + 1), Some(SerialError(FIRST_OFFSET + k)))
  {
    hide OutputOf, HeadersOf, HandleIndexer, InitError, CallStatement, Declares, InterfaceCalls, Ready, SerialError;
    var h, i, m := HeadersOf(OutputOf(s, cspReady)), Ready(s)[k], After(calls);
    BlocksDeclared(s, k, cspReady);
    BlockCalls(s, k, cspReady, m, statuses);
    CodeOfReady(s, k, cspReady);
    var check := ReturnOnFailure(InitError(Upper(i.name)));
    var rest := if i.kind == GPIO then [] else [LogHandle(HandleIndexer(Upper(i.name)))];
    var b := Block(i);
    assert b == CallStatement(i) + [check] + rest;
    assert b[0] == CallStatement(i)[0] && b[1..] == [check] + rest && b[1..][0] == check && b[1..][1..] == rest;
    var made := Execute(h, b[0], m, statuses);
    var checked := Execute(h, check, made, statuses);
    assert Run(h, b, m, statuses) == Run(h, b[1..], made, statuses) == Run(h, rest, checked, statuses);
    assert Run(h, rest, checked, statuses) == checked;
  }

  lemma BlocksStep(r: seq<Interface>, k: nat)
    requires k < |r|
    ensures Blocks(r[..k + 1]) == Blocks(r[..k]) + Block(r[k])
    ensures InterfaceCalls(r[..k + 1]) == InterfaceCalls(r[..k]) + [InterfaceCalls(r[..k + 1])[k]]
  {
    assert r[..k + 1][..k] == r[..k];
  }

  lemma NoBlocks(r: seq<Interface>)
    ensures Blocks(r[..0]) == [] && InterfaceCalls(r[..0]) == []
  {
  }

  lemma RunNothing(h: Headers, m: Machine, statuses: nat -> int)
    requires |h.codes| == |h.values|
    ensures Run(h, [], m, statuses) == m
  {
  }

  lemma {:induction false} BlocksSucceed(s: seq<Interface>, k: nat, cspReady: bool, statuses: nat -> int)
    requires WellConfigured(s) && k <= |Ready(s)| && Succeed(statuses, k + 1)
    ensures
      var h, r := HeadersOf(OutputOf(s, cspReady)), Ready(s);
      && AllDeclared(h, Blocks(r[..k]))
      && Run(h, Blocks(r[..k]), After([PriorInit]), statuses) == After([PriorInit] + InterfaceCalls(r[..k]))
    decreases k
  {
    hide OutputOf, HeadersOf, Block, Blocks, Declares, Ready, WellConfigured, InterfaceCalls, Run;
    var h, r := HeadersOf(OutputOf(s, cspReady)), Ready(s);
    BlocksDeclared(s, k, cspReady);
    if k == 0 {
      NoBlocks(r);
      RunNothing(h, After([PriorInit]), statuses);
    } else {
      BlocksSucceed(s, k - 1, cspReady, statuses);
      BlocksStep(r, k - 1);
      var calls := [PriorInit] + InterfaceCalls(r[..k - 1]);
      BlockRuns(s, k - 1, cspReady, calls, statuses);
      RunConcat(h, Blocks(r[..k - 1]), Block(r[k - 1]), After([PriorInit]), statuses);
      assert calls + [InterfaceCalls(r[..k])[k - 1]] == [PriorInit] + InterfaceCalls(r[..k]);
    }
  }

  lemma {:induction false} BlocksFail(s: seq<Interface>, j: nat, k: nat, cspReady: bool, statuses: nat -> int)
    requires WellConfigured(s) && 0 < j <= k <= |Ready(s)| && Succeed(statuses, j) && statuses(j) != SUCCESS
    ensures
      var h, r := HeadersOf(OutputOf(s, cspReady)), Ready(s);
      && AllDeclared(h, Blocks(r[..k]))
      && Run(h, Blocks(r[..k]), After([PriorInit]), statuses) ==
           Machine([PriorInit] + InterfaceCalls(r[..j]), statuses(j), Some(SerialError(FIRST_OFFSET + j - 1)))
    decreases k
  {
    hide OutputOf, HeadersOf, Block, Blocks, Declares, Ready, WellConfigured, SerialError, InterfaceCalls, Run;
    var h, r := HeadersOf(OutputOf(s, cspReady)), Ready(s);
    BlocksDeclared(s, k, cspReady);
    BlocksDeclared(s, k - 1, cspReady);
    BlocksStep(r, k - 1);
    RunConcat(h, Blocks(r[..k - 1]), Block(r[k - 1]), After([PriorInit]), statuses);
    if j == k {
      BlocksSucceed(s, k - 1, cspReady, statuses);
      var calls := [PriorInit] + InterfaceCalls(r[..k - 1]);
      BlockRuns(s, k - 1, cspReady, calls, statuses);
      assert calls + [InterfaceCalls(r[..k])[k - 1]] == [PriorInit] + InterfaceCalls(r[..k]);
    } else {
      BlocksFail(s, j, k - 1, cspReady, statuses);
      ReturnIsFinal(h, Block(r[k - 1]), Run(h, Blocks(r[..k - 1]), After([PriorInit]), statuses), statuses);
    }
  }

  lemma CspCode(s: seq<Interface>, cspReady: bool)
    requires WellConfigured(s)
    ensures
      var h := HeadersOf(OutputOf(s, cspReady));
      InitError("CSP") in h.codes && h.values[IndexOf(h.codes, InitError("CSP"))] == SerialError(44)
  {
    hide Select;
    var h := HeadersOf(OutputOf(s, cspReady));
    CodesDistinct(s);
    assert TAKEN[4] == "CSP" && TAKEN_OFFSETS[4] == 44;
    assert h.codes[4] == InitError("CSP");
    IndexOfDistinct(h.codes, 4);
  }

  /** The program is its prologue, the blocks, and its epilogue, run in turn. */
  lemma RunInParts(s: seq<Interface>, cspReady: bool, statuses: nat -> int)
    requires WellConfigured(s)
    ensures
      var h, r := HeadersOf(OutputOf(s, cspReady)), Ready(s);
      && AllDeclared(h, PROLOGUE) && AllDeclared(h, Blocks(r)) && AllDeclared(h, Epilogue(cspReady))
      && RunGenerated(s, cspReady, statuses) ==
           Run(h, Epilogue(cspReady), Run(h, Blocks(r), Run(h, PROLOGUE, POWERED_ON, statuses), statuses), statuses)
  {
    hide HeadersOf, Block, Blocks, Declares, Ready, Select, Names, Identifiers, Epilogue;
    var o := OutputOf(s, cspReady);
    var h := HeadersOf(o);
    CompilesExactly(s, cspReady);
    RunConcat(h, PROLOGUE + Blocks(Ready(s)), Epilogue(cspReady), POWERED_ON, statuses);
    RunConcat(h, PROLOGUE, Blocks(Ready(s)), POWERED_ON, statuses);
  }

  lemma PrologueRuns(h: Headers, statuses: nat -> int)
    requires AllDeclared(h, PROLOGUE)
    ensures Run(h, PROLOGUE, POWERED_ON, statuses) ==
      if statuses(0) == SUCCESS then After([PriorInit])
      else Machine([PriorInit], statuses(0), Some(statuses(0)))
  {
    var made := Execute(h, PROLOGUE[0], POWERED_ON, statuses);
    assert PROLOGUE[1..][1..] == [];
    assert Run(h, PROLOGUE, POWERED_ON, statuses) == Run(h, PROLOGUE[1..], made, statuses);
  }

  lemma EpilogueRuns(s: seq<Interface>, cspReady: bool, calls: seq<Call>, statuses: nat -> int)
    requires WellConfigured(s) && AllDeclared(HeadersOf(OutputOf(s, cspReady)), Epilogue(cspReady))
    ensures Run(HeadersOf(OutputOf(s, cspReady)), Epilogue(cspReady), After(calls), statuses) ==
      if !cspReady then Machine(calls, SUCCESS, Some(SUCCESS))
      else Machine(calls + [InitCSP], statuses(|calls|),
                   Some(if statuses(|calls|) == SUCCESS then SUCCESS else SerialError(44)))
  {
    hide HeadersOf, OutputOf, InitError, SerialError, Declares;
    var h, p := HeadersOf(OutputOf(s, cspReady)), Epilogue(cspReady);
    CspCode(s, cspReady);
    if cspReady {
      assert p == [CallInitCSP, ReturnOnFailure(InitError("CSP")), ReturnSuccess];
      var made := Execute(h, p[0], After(calls), statuses);
      var checked := Execute(h, p[1], made, statuses);
      assert p[1..][0] == p[1] && p[1..][1..] == [ReturnSuccess];
      assert Run(h, p, After(calls), statuses) == Run(h, p[1..], made, statuses);
      assert Run(h, p[1..], made, statuses) == Run(h, [ReturnSuccess], checked, statuses);
      assert [ReturnSuccess][0] == ReturnSuccess && [ReturnSuccess][1..] == [];
      assert Run(h, [ReturnSuccess], checked, statuses) == Execute(h, ReturnSuccess, checked, statuses);
    } else {
      assert p == [ReturnSuccess] && p[1..] == [];
    }
  }

  /** An error code of the serial module: severity 3, no service, mission 1, and the specific part in 16 bits. */
  predicate IsSerialError(code: int, specific: nat) {
    var word := code + 0x1_0000_0000;
    && 0x8000_0000 <= word < 0x1_0000_0000
    && word / 0x4000_0000 == 3 && word / 0x200_0000 % 32 == 0 && word / 0x1_0000 % 512 == 1
    && word % 0x1_0000 == specific % 0x1_0000
  }

  lemma SerialErrorFields(offset: nat)
    ensures IsSerialError(SerialError(offset), offset) && SerialError(offset) != SUCCESS
  {
  }

  /** When every call succeeds, exactly the planned calls are made, in order, and success is returned. */
  lemma AllCallsSucceed(s: seq<Interface>, cspReady: bool, statuses: nat -> int)
    requires WellConfigured(s) && Succeed(statuses, |Plan(s, cspReady)|)
    ensures RunGenerated(s, cspReady, statuses) == Machine(Plan(s, cspReady), SUCCESS, Some(SUCCESS))
    ensures RunGenerated(s, cspReady, statuses).returned == Some(0)
  {
    hide HeadersOf, OutputOf, Epilogue, Blocks, Declares, Ready, WellConfigured, RunGenerated, SerialError, Run;
    hide InterfaceCalls;
    var h, r := HeadersOf(OutputOf(s, cspReady)), Ready(s);
    RunInParts(s, cspReady, statuses);
    PrologueRuns(h, statuses);
    BlocksSucceed(s, |r|, cspReady, statuses);
    assert r[..|r|] == r;
    EpilogueRuns(s, cspReady, [PriorInit] + InterfaceCalls(r), statuses);
  }

  /**
   * When call j of the plan is the first to fail, the calls up to it have been made and no other, and the
   * code that belongs to it is returned.
   */
  lemma FirstFailureIsReported(s: seq<Interface>, cspReady: bool, statuses: nat -> int, j: nat)
    requires WellConfigured(s) && j < |Plan(s, cspReady)| && Succeed(statuses, j) && statuses(j) != SUCCESS
    ensures RunGenerated(s, cspReady, statuses) ==
      Machine(Plan(s, cspReady)[..j + 1], statuses(j), Some(FailureCode(s, j, statuses)))
    ensures FailureCode(s, j, statuses) != 0
    ensures j == 0 ==> FailureCode(s, j, statuses) == statuses(0)
    ensures 0 < j <= |Ready(s)| ==> IsSerialError(FailureCode(s, j, statuses), 90 + (j - 1))
    ensures j > |Ready(s)| ==> IsSerialError(FailureCode(s, j, statuses), 44)
  {
    hide HeadersOf, OutputOf, Epilogue, Blocks, Declares, Ready, WellConfigured, RunGenerated, SerialError, Run;
    hide InterfaceCalls, IsSerialError;
    var h, r := HeadersOf(OutputOf(s, cspReady)), Ready(s);
    var plan := Plan(s, cspReady);
    SerialErrorFields(FIRST_OFFSET + (if j > 0 then j - 1 else 0));
    SerialErrorFields(44);
    RunInParts(s, cspReady, statuses);
    PrologueRuns(h, statuses);
    assert r[..|r|] == r;
    if j == 0 {
      var failed := Machine([PriorInit], statuses(0), Some(statuses(0)));
      ReturnIsFinal(h, Blocks(r), failed, statuses);
      ReturnIsFinal(h, Epilogue(cspReady), failed, statuses);
      assert plan[..1] == [PriorInit];
    } else if j <= |r| {
      BlocksFail(s, j, |r|, cspReady, statuses);
      ReturnIsFinal(h, Epilogue(cspReady), Run(h, Blocks(r), After([PriorInit]), statuses), statuses);
      CallsPrefix(r, j);
      assert plan[..j + 1] == [PriorInit] + InterfaceCalls(r)[..j];
    } else {
      BlocksSucceed(s, |r|, cspReady, statuses);
      EpilogueRuns(s, cspReady, [PriorInit] + InterfaceCalls(r), statuses);
      assert plan[..j + 1] == plan;
    }
  }

  lemma {:induction false} CallsPrefix(r: seq<Interface>, j: nat)
    requires j <= |r|
    ensures InterfaceCalls(r)[..j] == InterfaceCalls(r[..j])
    decreases |r|
  {
    if j == |r| {
      assert r[..j] == r;
    } else {
      assert r[..|r| - 1][..j] == r[..j];
      CallsPrefix(r[..|r| - 1], j);
    }
  }

  // ---------------------------------------------------------------------------
  // The plan is what the configuration says
  // ---------------------------------------------------------------------------

  predicate InitializesHandle(c: Call) { c.HandleInit? }

  predicate InitializesPin(c: Call) { c.GpioInit? }

  function SelectCalls(calls: seq<Call>, p: Call -> bool): (r: seq<Call>)
  {
    if calls == [] then []
    else SelectCalls(calls[..|calls| - 1], p) + if p(calls[|calls| - 1]) then [calls[|calls| - 1]] else []
  }

  /** The k-th call initializes index k for the k-th interface. */
  ghost predicate Numbered(calls: seq<Call>, s: seq<Interface>) {
    |calls| == |s| && forall k | 0 <= k < |s| :: calls[k] == CallFor(s[k], k)
  }

  lemma NumberedAppend(calls: seq<Call>, s: seq<Interface>, i: Interface)
    requires Numbered(calls, s)
    ensures Numbered(calls + [CallFor(i, |s|)], s + [i])
  {
    hide CallFor;
  }

  /**
   * Each handle index, from 0 on, is initialized exactly once, for the interface of that rank, and so is each
   * pin index.
   */
  lemma {:induction false} EachIndexOnce(r: seq<Interface>)
    requires forall i | i in r :: i.ready && Known(i)
    ensures Numbered(SelectCalls(InterfaceCalls(r), InitializesHandle), General(r))
    ensures Numbered(SelectCalls(InterfaceCalls(r), InitializesPin), Pins(r))
    decreases |r|
  {
    hide DeviceType, Speed, Select, SelectCalls, Numbered;
    if r == [] {
      NoCalls();
    } else {
      var front, i := r[..|r| - 1], r[|r| - 1];
      assert i in r && r == front + [i];
      EachIndexOnce(front);
      SelectAppend(front, i, IsGeneral);
      SelectAppend(front, i, IsPin);
      NumberedAppend(SelectCalls(InterfaceCalls(front), InitializesHandle), General(front), i);
      NumberedAppend(SelectCalls(InterfaceCalls(front), InitializesPin), Pins(front), i);
      var c := CallFor(i, if i.kind == GPIO then |Pins(front)| else |General(front)|);
      assert InterfaceCalls(r) == InterfaceCalls(front) + [c];
      SelectCallsAppend(InterfaceCalls(front), c, InitializesHandle);
      SelectCallsAppend(InterfaceCalls(front), c, InitializesPin);
    }
  }

  lemma NoCalls()
    ensures Numbered(SelectCalls([], InitializesHandle), General([]))
    ensures Numbered(SelectCalls([], InitializesPin), Pins([]))
  {
  }

  lemma SelectCallsAppend(calls: seq<Call>, c: Call, p: Call -> bool)
    ensures SelectCalls(calls + [c], p) == if p(c) then SelectCalls(calls, p) + [c] else SelectCalls(calls, p)
  {
    assert (calls + [c])[..|calls|] == calls;
  }

  /** The size of the array of handles: one more than the last enumerator, or 0 when there is none. */
  function HandleArraySize(o: Output): nat {
    if o.lastHandle.Some? && o.lastHandle.value in o.handles then IndexOf(o.handles, o.lastHandle.value) + 1 else 0
  }

  /** The size of the array of pins. */
  function PinArraySize(o: Output): nat {
    o.pinNum
  }

  /** The emitted array sizes are the numbers of handles and pins initialized. */
  lemma DeviceCount(s: seq<Interface>, cspReady: bool)
    requires WellConfigured(s)
    ensures HandleArraySize(OutputOf(s, cspReady)) == |General(s)|
    ensures PinArraySize(OutputOf(s, cspReady)) == |Pins(s)|
  {
    var o := OutputOf(s, cspReady);
    DistinctConcat(TAKEN, Names(Ready(s)));
    EnumeratorsDistinct(s, cspReady);
    DistinctConcat(o.handles, o.pins);
    if General(s) != [] {
      IndexOfDistinct(o.handles, |o.handles| - 1);
    }
  }

  /** The files are a conforming program: they compile, and no array has size zero. */
  ghost predicate Conforms(o: Output)
    requires |o.codes| == |o.offsets|
  {
    Compiles(HeadersOf(o), o.program) && HandleArraySize(o) > 0 && PinArraySize(o) > 0
  }

  /** They conform if and only if, beyond what compiling takes, there is a ready device and a ready pin. */
  lemma ConformsExactly(s: seq<Interface>, cspReady: bool)
    ensures Conforms(OutputOf(s, cspReady)) <==> WellConfigured(s) && General(s) != [] && Pins(s) != []
  {
    hide OutputOf, WellConfigured, Compiles, HandleArraySize, PinArraySize;
    CompilesExactly(s, cspReady);
    if WellConfigured(s) {
      DeviceCount(s, cspReady);
    }
  }

  /** The codes of two planned calls after the first differ if and only if the offsets do not wrap. */
  lemma CodesTellCallsApart(s: seq<Interface>, cspReady: bool, statuses: nat -> int)
    ensures
      (forall j, k | 0 < j < k < |Plan(s, cspReady)| :: FailureCode(s, j, statuses) != FailureCode(s, k, statuses))
      <==> |Ready(s)| <= if cspReady then 0x1_0000 - FIRST_OFFSET + 44 else 0x1_0000
  {
    hide Ready;
    var n := |Ready(s)|;
    assert |Plan(s, cspReady)| == 1 + n + if cspReady then 1 else 0;
    if cspReady && n > 0x1_0000 - FIRST_OFFSET + 44 {
      assert FailureCode(s, 0x1_0000 - FIRST_OFFSET + 45, statuses) == FailureCode(s, n + 1, statuses);
    }
    if !cspReady && n > 0x1_0000 {
      assert FailureCode(s, 1, statuses) == FailureCode(s, 0x1_0001, statuses);
    }
  }
}
