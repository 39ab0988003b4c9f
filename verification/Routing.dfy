/** The telemetry routing service: host registration, and the topics that messages are published under. */
module Routing {
  import opened Common
  import opened Bytes

  // ---------------------------------------------------------------------------
  // Numerals
  // ---------------------------------------------------------------------------

  datatype Radix = Decimal | Hexadecimal {
    function Times(n: nat): nat {
      if Decimal? then 10 * n else 16 * n
    }

    /** All digits but the last. */
    function Front(n: nat): (q: nat)
      ensures Times(q) <= n < Times(q + 1)
    {
      if Decimal? then n / 10 else n / 16
    }

    function Last(n: nat): (d: nat)
      ensures d == n - Times(Front(n)) && d < 16
    {
      if Decimal? then n % 10 else n % 16
    }
  }

  function Digit(d: nat): char
    requires d < 16
  {
    if d < 10 then '0' + d as char else 'a' + (d - 10) as char
  }

  predicate IsDigit(c: char) {
    '0' <= c <= '9' || 'a' <= c <= 'f'
  }

  /** A number in positional notation, without leading zeros. */
  function Numeral(n: nat, r: Radix): (s: string)
    ensures |s| > 0 && forall c | c in s :: IsDigit(c)
  {
    if r.Front(n) == 0 then [Digit(r.Last(n))] else Numeral(r.Front(n), r) + [Digit(r.Last(n))]
  }

  lemma {:induction false} LeadingDigit(n: nat, r: Radix)
    requires n > 0
    ensures Numeral(n, r)[0] != '0'
    decreases n
  {
    if r.Front(n) != 0 {
      LeadingDigit(r.Front(n), r);
    }
  }

  function DigitValue(c: char): nat {
    if '0' <= c <= '9' then (c - '0') as nat else if 'a' <= c <= 'f' then 10 + (c - 'a') as nat else 0
  }

  /** The number that a numeral denotes. */
  function Value(s: string, r: Radix): nat {
    if s == "" then 0 else r.Times(Value(s[..|s| - 1], r)) + DigitValue(s[|s| - 1])
  }

  /** Reading a numeral gives the number it was written for. */
  lemma {:induction false} NumeralRoundTrip(n: nat, r: Radix)
    ensures Value(Numeral(n, r), r) == n
    decreases n
  {
    var s := Numeral(n, r);
    assert DigitValue(Digit(r.Last(n))) == r.Last(n);
    if r.Front(n) == 0 {
      assert s[..|s| - 1] == "";
    } else {
      assert s[..|s| - 1] == Numeral(r.Front(n), r);
      NumeralRoundTrip(r.Front(n), r);
    }
  }

  lemma NumeralInjective(m: nat, n: nat, r: Radix)
    requires Numeral(m, r) == Numeral(n, r)
    ensures m == n
  {
    NumeralRoundTrip(m, r);
    NumeralRoundTrip(n, r);
  }

  /** A numeral that extends another is that of a number at least ten (or sixteen) times as large. */
  lemma {:induction false} ExtendedNumeral(m: nat, n: nat, r: Radix)
    requires Numeral(m, r) <= Numeral(n, r)
    ensures m == n || (m > 0 && n >= r.Times(m))
    decreases n
  {
    var s, t := Numeral(m, r), Numeral(n, r);
    if |s| == |t| {
      NumeralInjective(m, n, r);
    } else {
      assert r.Front(n) != 0;
      assert t[..|t| - 1] == Numeral(r.Front(n), r);
      assert s <= t[..|t| - 1];
      LeadingDigit(n, r);
      assert s[0] != '0';
      ExtendedNumeral(m, r.Front(n), r);
    }
  }

  lemma ScaledNumeral(m: nat, r: Radix)
    requires m > 0
    ensures Numeral(r.Times(m), r) == Numeral(m, r) + "0"
  {
    assert r.Front(r.Times(m)) == m;
  }

  // ---------------------------------------------------------------------------
  // Names, topics and subscriptions
  // ---------------------------------------------------------------------------

  const ALL := "All"
  const ROOT := "GroundSystem"
  const SPACECRAFT := "Spacecraft"
  const CHANNEL := "TelemetryPackets"

  /** The name of the host at an index of the registry. */
  function Name(k: nat): (s: string)
    ensures '.' !in s && '\'' !in s
  {
    if k == 0 then ALL else SPACECRAFT + Numeral(k, Decimal)
  }

  function Hex(id: nat): string {
    "0x" + Numeral(id, Hexadecimal)
  }

  /** Parts of a topic, separated by dots. */
  function Dotted(head: string, rest: string): string {
    head + "." + rest
  }

  function Topic(name: string, id: nat): string {
    Dotted(ROOT, Dotted(name, Dotted(CHANNEL, Hex(id))))
  }

  /** What the topics of one host have in common. */
  function HostPrefix(name: string): string {
    Dotted(ROOT, Dotted(name, CHANNEL))
  }

  /** A subscription captures the topics that it is a prefix of. */
  predicate Captures(subscription: string, topic: string) {
    subscription <= topic
  }

  lemma SameHead(head: string, x: string, y: string)
    ensures Dotted(head, x) <= Dotted(head, y) <==> x <= y
    ensures Dotted(head, x) == Dotted(head, y) <==> x == y
  {
    var k := |head| + 1;
    assert Dotted(head, x)[k..] == x && Dotted(head, y)[k..] == y;
  }

  /** A dot ends the head of a topic. */
  lemma HeadsAgree(a: string, b: string, x: string, y: string)
    requires '.' !in a && '.' !in b && Dotted(a, x) <= Dotted(b, y)
    ensures a == b && x <= y
  {
    var s, t := Dotted(a, x), Dotted(b, y);
    assert s[|a|] == '.' && t[|b|] == '.';
    assert forall i | 0 <= i < |a| :: s[i] == a[i];
    assert forall i | 0 <= i < |b| :: t[i] == b[i];
    assert |a| == |b|;
    assert a == s[..|a|] && b == t[..|b|];
    SameHead(a, x, y);
  }

  lemma NameInjective(j: nat, k: nat)
    requires Name(j) == Name(k)
    ensures j == k
  {
    hide Numeral;
    assert forall i | i in {j, k} :: Name(i)[0] == if i == 0 then 'A' else 'S';
    if j > 0 && k > 0 {
      assert Name(j)[|SPACECRAFT|..] == Numeral(j, Decimal) && Name(k)[|SPACECRAFT|..] == Numeral(k, Decimal);
      NumeralInjective(j, k, Decimal);
    }
  }

  lemma HexPrefix(m: nat, n: nat)
    ensures Hex(m) <= Hex(n) <==> Numeral(m, Hexadecimal) <= Numeral(n, Hexadecimal)
  {
    assert Hex(m)[2..] == Numeral(m, Hexadecimal) && Hex(n)[2..] == Numeral(n, Hexadecimal);
  }

  /** A topic determines the host and the packet id. */
  lemma TopicIdentifies(j: nat, k: nat, id: nat, id': nat)
    requires Topic(Name(j), id) == Topic(Name(k), id')
    ensures j == k && id == id'
  {
    SameHead(ROOT, Dotted(Name(j), Dotted(CHANNEL, Hex(id))), Dotted(Name(k), Dotted(CHANNEL, Hex(id'))));
    HeadsAgree(Name(j), Name(k), Dotted(CHANNEL, Hex(id)), Dotted(CHANNEL, Hex(id')));
    NameInjective(j, k);
    SameHead(Name(j), Dotted(CHANNEL, Hex(id)), Dotted(CHANNEL, Hex(id')));
    SameHead(CHANNEL, Hex(id), Hex(id'));
    assert Hex(id)[2..] == Numeral(id, Hexadecimal) && Hex(id')[2..] == Numeral(id', Hexadecimal);
    NumeralInjective(id, id', Hexadecimal);
  }

  /** The prefix captures every topic of its host and no topic of another. */
  lemma HostPrefixIsExact(j: nat, k: nat, id: nat)
    ensures Captures(HostPrefix(Name(j)), Topic(Name(k), id)) <==> j == k
  {
    var rest := Dotted(CHANNEL, Hex(id));
    SameHead(ROOT, Dotted(Name(j), CHANNEL), Dotted(Name(k), rest));
    if Dotted(Name(j), CHANNEL) <= Dotted(Name(k), rest) {
      HeadsAgree(Name(j), Name(k), CHANNEL, rest);
      NameInjective(j, k);
    }
    if j == k {
      SameHead(Name(j), CHANNEL, rest);
      assert CHANNEL <= rest;
    }
  }

  /** So does the same prefix with a part after it, for the packets of that host whose id starts with the part. */
  lemma PacketPrefixIsExact(j: nat, k: nat, part: string, id: nat)
    ensures Captures(Dotted(ROOT, Dotted(Name(j), Dotted(CHANNEL, part))), Topic(Name(k), id)) <==> j == k && part <= Hex(id)
  {
    hide Name, Hex;
    var x, y := Dotted(CHANNEL, part), Dotted(CHANNEL, Hex(id));
    SameHead(ROOT, Dotted(Name(j), x), Dotted(Name(k), y));
    if Dotted(Name(j), x) <= Dotted(Name(k), y) {
      HeadsAgree(Name(j), Name(k), x, y);
      NameInjective(j, k);
    }
    SameHead(Name(j), x, y);
    SameHead(CHANNEL, part, Hex(id));
  }

  // ---------------------------------------------------------------------------
  // The registry over a run
  // ---------------------------------------------------------------------------

  /** What one call of recvfrom comes to. */
  datatype Event =
    | Datagram(data: seq<byte>, host: string)
    | SocketError
  {
    /** A datagram that holds a telemetry header. */
    predicate Counts() {
      Datagram? && |data| >= 6
    }
  }

  datatype Message = Message(topic: string, data: seq<byte>)

  datatype State = State(hosts: seq<string>, names: seq<string>, announced: seq<(string, string)>,
                         published: seq<Message>, errors: nat)

  /** The number of socket errors after which the outer loop is to end. */
  const MAX_ERRORS := 5

  const START := State([ALL], [ALL], [], [], 0)

  /** The big-endian number in the first two bytes. */
  function PacketId(data: seq<byte>): (id: nat)
    requires |data| >= 2
    ensures id < 0x1_0000
  {
    data[0] as nat * 256 + data[1] as nat
  }

  /**
   * A topic spells a host's name and the first two bytes of a datagram, the first one more significant, in
   * hexadecimal without leading zeros.
   */
  predicate Spelled(topic: string, name: string, data: seq<byte>)
    requires |data| >= 2
  {
    var before := "GroundSystem." + name + ".TelemetryPackets.0x";
    && before <= topic
    && var digits := topic[|before|..];
    && digits != "" && (digits[0] == '0' ==> digits == "0")
    && Value(digits, Hexadecimal) / 256 == data[0]
    && Value(digits, Hexadecimal) % 256 == data[1]
  }

  lemma TopicSpelled(name: string, data: seq<byte>)
    requires |data| >= 2
    ensures Spelled(Topic(name, PacketId(data)), name, data)
  {
    hide Numeral, Value;
    var before, id := "GroundSystem." + name + ".TelemetryPackets.0x", PacketId(data);
    var digits := Numeral(id, Hexadecimal);
    assert Topic(name, id) == before + digits by { TopicParts(name, digits, id); }
    NumeralRoundTrip(id, Hexadecimal);
    if id > 0 {
      LeadingDigit(id, Hexadecimal);
    } else {
      ZeroNumeral();
    }
  }

  lemma ZeroNumeral()
    ensures Numeral(0, Hexadecimal) == "0"
  {
  }

  lemma TopicParts(name: string, digits: string, id: nat)
    requires digits == Numeral(id, Hexadecimal)
    ensures Topic(name, id) == "GroundSystem." + name + ".TelemetryPackets.0x" + digits
  {
    hide Numeral;
    var tail := "." + (CHANNEL + ("." + "0x"));
    assert "GroundSystem." == ROOT + "." && ".TelemetryPackets.0x" == tail;
    assert Topic(name, id) == (ROOT + ".") + (name + (tail + digits));
  }

  /** The hosts and names stay in step, without duplicates, and name k is that of index k. */
  ghost predicate Valid(s: State) {
    && |s.hosts| == |s.names| == |s.announced| + 1
    && s.hosts[0] == ALL
    && (forall j, k | 0 <= j < k < |s.hosts| :: s.hosts[j] != s.hosts[k])
    && (forall k | 0 <= k < |s.names| :: s.names[k] == Name(k))
    && (forall k | 0 <= k < |s.announced| :: s.announced[k] == (s.hosts[k + 1], s.names[k + 1]))
  }

  /** No datagram comes from a host whose address is the registry's placeholder. */
  predicate FromHosts(events: seq<Event>) {
    forall e | e in events && e.Datagram? :: e.host != ALL
  }

  function Register(s: State, host: string): State {
    if host in s.hosts then s
    else
      var name := SPACECRAFT + Numeral(|s.names|, Decimal);
      s.(hosts := s.hosts + [host], names := s.names + [name], announced := s.announced + [(host, name)])
  }

  function Publish(s: State, host: string, data: seq<byte>): State
    requires host in s.hosts && |s.hosts| <= |s.names| && |data| >= 2
  {
    s.(published := s.published + [Message(Topic(s.names[IndexOf(s.hosts, host)], PacketId(data)), data)])
  }

  function Step(s: State, e: Event): State
    requires Valid(s)
  {
    if e.SocketError? then s.(errors := s.errors + 1)
    else if !e.Counts() then s
    else Publish(Register(s, e.host), e.host, e.data)
  }

  lemma NameOfHost(k: nat)
    requires k > 0
    ensures Name(k) == SPACECRAFT + Numeral(k, Decimal)
  {
  }

  lemma RegisterKeepsValid(s: State, host: string)
    requires Valid(s)
    ensures Valid(Register(s, host)) && host in Register(s, host).hosts
    ensures s.hosts <= Register(s, host).hosts && s.names <= Register(s, host).names
  {
    hide Numeral, Name;
    var after := Register(s, host);
    if host !in s.hosts {
      assert after.hosts[|s.hosts|] == host;
      assert forall j | 0 <= j < |s.hosts| :: after.hosts[j] == s.hosts[j] != host;
      NameOfHost(|s.names|);
      assert after.names[|s.names|] == Name(|s.names|);
      forall k | 0 <= k < |after.announced| ensures after.announced[k] == (after.hosts[k + 1], after.names[k + 1]) {
        if k < |s.announced| {
          assert s.announced[k] == (s.hosts[k + 1], s.names[k + 1]);
        }
      }
    }
  }

  lemma StepKeepsValid(s: State, e: Event)
    requires Valid(s)
    ensures Valid(Step(s, e))
    ensures s.hosts <= Step(s, e).hosts && s.names <= Step(s, e).names
  {
    hide Topic, PacketId, Register;
    if e.Counts() {
      RegisterKeepsValid(s, e.host);
      assert Valid(Publish(Register(s, e.host), e.host, e.data));
    }
  }

  /** The state after a sequence of events. */
  ghost function RunOn(events: seq<Event>): (s: State)
    ensures Valid(s)
  {
    if events == [] then START
    else
      var before := RunOn(events[..|events| - 1]);
      StepKeepsValid(before, events[|events| - 1]);
      Step(before, events[|events| - 1])
  }

  lemma NothingHandled(events: seq<Event>)
    ensures RunOn(events[..0]) == START
  {
  }

  /** The service: what its fields hold and what it has emitted. */
  class RoutingService {
    var ipAddresses: seq<string>
    var spacecraftNames: seq<string>
    var announced: seq<(string, string)>
    var published: seq<Message>
    var socketErrors: nat

    function Current(): State
      reads this
    {
      State(ipAddresses, spacecraftNames, announced, published, socketErrors)
    }

    constructor ()
      ensures Current() == START
      ensures ipAddresses == ["All"] && spacecraftNames == ["All"]
    {
      ipAddresses, spacecraftNames, announced, published, socketErrors := [ALL], [ALL], [], [], 0;
    }

    method ForwardMessage(data: seq<byte>, name: string)
      requires |data| >= 2
      modifies this
      ensures Current() == old(Current()).(published := old(published) + [Message(Topic(name, PacketId(data)), data)])
    {
      published := published + [Message(Topic(name, PacketId(data)), data)];
    }

    method Handle(e: Event)
      requires Valid(Current())
      modifies this
      ensures Current() == Step(old(Current()), e)
      ensures e.Datagram? && |e.data| >= 6 ==>
        && e.host in ipAddresses
        && published[..|published| - 1] == old(published) && published[|published| - 1].data == e.data
        && Spelled(published[|published| - 1].topic, spacecraftNames[IndexOf(ipAddresses, e.host)], e.data)
      ensures e.SocketError? || |e.data| < 6 ==>
        published == old(published) && ipAddresses == old(ipAddresses) && spacecraftNames == old(spacecraftNames)
    {
      hide Topic, PacketId, Spelled;
      match e
      case SocketError => socketErrors := socketErrors + 1;
      case Datagram(data, host) =>
        if |data| < 6 {
          return;
        }
        if host !in ipAddresses {
          var name := SPACECRAFT + Numeral(|spacecraftNames|, Decimal);
          ipAddresses := ipAddresses + [host];
          spacecraftNames := spacecraftNames + [name];
          announced := announced + [(host, name)];
        }
        TopicSpelled(spacecraftNames[IndexOf(ipAddresses, host)], data);
        ForwardMessage(data, spacecraftNames[IndexOf(ipAddresses, host)]);
    }

    /**
     * The two receive loops, for as long as the events last. The count of errors is looked at only when the
     * inner loop ends, which no event makes it do: all events are handled, however many of them are errors.
     */
    method Run(events: seq<Event>) returns (handled: nat)
      requires Current() == START
      modifies this
      ensures handled == |events|
      ensures Current() == RunOn(events)
    {
      hide Step, Valid, Spelled;
      NothingHandled(events);
      handled := 0;
      while socketErrors < MAX_ERRORS && handled < |events|
        invariant handled <= |events|
        invariant Current() == RunOn(events[..handled])
        invariant handled == 0 ==> socketErrors == 0
        invariant handled > 0 ==> handled == |events|
        decreases |events| - handled
      {
        while handled < |events|
          invariant handled <= |events|
          invariant Current() == RunOn(events[..handled])
        {
          assert events[..handled + 1][..handled] == events[..handled];
          Handle(events[handled]);
          handled := handled + 1;
        }
      }
      assert events[..handled] == events;
    }
  }

  // ---------------------------------------------------------------------------
  // What every run keeps
  // ---------------------------------------------------------------------------

  lemma RunOnNext(events: seq<Event>, e: Event)
    ensures RunOn(events + [e]) == Step(RunOn(events), e)
  {
    assert (events + [e])[..|events + [e]| - 1] == events;
  }

  /** A host's place and name never change. */
  lemma {:induction false} RegistryOnlyGrows(events: seq<Event>, more: seq<Event>)
    ensures RunOn(events).hosts <= RunOn(events + more).hosts
    ensures RunOn(events).names <= RunOn(events + more).names
    decreases |more|
  {
    if more == [] {
      assert events + more == events;
    } else {
      var front, e := more[..|more| - 1], more[|more| - 1];
      assert events + more == (events + front) + [e];
      RegistryOnlyGrows(events, front);
      RunOnNext(events + front, e);
      StepKeepsValid(RunOn(events + front), e);
    }
  }

  /** The hosts that sent a telemetry header. */
  ghost function Senders(events: seq<Event>): set<string> {
    set e | e in events && e.Counts() :: e.host
  }

  lemma SendersNext(events: seq<Event>, e: Event)
    ensures Senders(events + [e]) == Senders(events) + if e.Counts() then {e.host} else {}
    ensures |Senders(events + [e])| == |Senders(events)| + if e.Counts() && e.host !in Senders(events) then 1 else 0
  {
    if e.Counts() && e.host in Senders(events) {
      assert Senders(events + [e]) == Senders(events);
    }
  }

  lemma NoSenders()
    ensures Senders([]) == {}
  {
  }

  lemma StepHosts(s: State, e: Event)
    requires Valid(s)
    ensures forall h :: h in Step(s, e).hosts <==> h in s.hosts || (e.Counts() && h == e.host)
    ensures |Step(s, e).hosts| == |s.hosts| + if e.Counts() && e.host !in s.hosts then 1 else 0
    ensures e.Counts() && e.host !in s.hosts ==> Step(s, e).hosts[|s.hosts|] == e.host
  {
    hide Numeral, Topic, PacketId;
    StepKeepsValid(s, e);
  }

  /** The registry holds the placeholder and the senders, and one entry for each. */
  lemma {:induction false} HostsAreSenders(events: seq<Event>)
    requires FromHosts(events)
    ensures forall h :: h in RunOn(events).hosts <==> h == ALL || h in Senders(events)
    ensures |RunOn(events).hosts| == 1 + |Senders(events)|
    decreases |events|
  {
    hide Step, Valid, Senders;
    if events == [] {
      NoSenders();
    } else {
      var front, e := events[..|events| - 1], events[|events| - 1];
      assert events == front + [e];
      HostsAreSenders(front);
      SendersNext(front, e);
      RunOnNext(front, e);
      StepHosts(RunOn(front), e);
      assert e in events;
    }
  }

  /** Hosts are numbered in the order of their first telemetry header. */
  lemma HostNumber(events: seq<Event>, i: nat)
    requires FromHosts(events) && i < |events|
    requires events[i].Counts() && events[i].host !in Senders(events[..i])
    ensures
      var k, s := 1 + |Senders(events[..i])|, RunOn(events);
      k < |s.hosts| && s.hosts[k] == events[i].host && s.names[k] == "Spacecraft" + Numeral(k, Decimal)
  {
    hide Step, Valid, Senders, RunOn, Numeral;
    var front, s := events[..i], RunOn(events);
    HostsAreSenders(front);
    StepHosts(RunOn(front), events[i]);
    RunOnNext(front, events[i]);
    assert events == (front + [events[i]]) + events[i + 1..];
    RegistryOnlyGrows(front + [events[i]], events[i + 1..]);
    NameAt(s, |RunOn(front).hosts|);
  }

  lemma NameAt(s: State, k: nat)
    requires Valid(s) && 0 < k < |s.hosts|
    ensures k < |s.names| && s.names[k] == SPACECRAFT + Numeral(k, Decimal)
  {
    assert s.names[k] == Name(k);
  }

  /** The topic of an event, given all the hosts. */
  function TopicOf(e: Event, hosts: seq<string>): string
    requires e.Counts() && e.host in hosts
  {
    Topic(Name(IndexOf(hosts, e.host)), PacketId(e.data))
  }

  /** Messages as a second pass over the events would publish them, with all the hosts known in advance. */
  ghost function Forwarded(events: seq<Event>, hosts: seq<string>): seq<Message>
    requires forall e | e in events && e.Counts() :: e.host in hosts
  {
    if events == [] then []
    else
      var front, e := events[..|events| - 1], events[|events| - 1];
      if e.Counts() then Forwarded(front, hosts) + [Message(TopicOf(e, hosts), e.data)] else Forwarded(front, hosts)
  }

  lemma IndexInPrefix(s: seq<string>, t: seq<string>, x: string)
    requires s <= t && x in s
    ensures IndexOf(t, x) == IndexOf(s, x)
  {
    var i, j := IndexOf(s, x), IndexOf(t, x);
    assert t[i] == x && (j < |s| ==> s[j] == x);
  }

  /** Every telemetry datagram is forwarded once, in order, under the topic that the final registry gives it. */
  lemma {:induction false} OnePassIsTwoPasses(events: seq<Event>, hosts: seq<string>)
    requires RunOn(events).hosts <= hosts
    ensures forall e | e in events && e.Counts() :: e.host in hosts
    ensures RunOn(events).published == Forwarded(events, hosts)
    decreases |events|
  {
    hide Topic, PacketId;
    if events != [] {
      var front, e := events[..|events| - 1], events[|events| - 1];
      assert events == front + [e];
      RunOnNext(front, e);
      var before := RunOn(front);
      StepKeepsValid(before, e);
      OnePassIsTwoPasses(front, hosts);
      if e.Counts() {
        RegisterKeepsValid(before, e.host);
        var after := Register(before, e.host);
        IndexInPrefix(after.hosts, hosts, e.host);
        assert after.names[IndexOf(after.hosts, e.host)] == Name(IndexOf(after.hosts, e.host));
      }
    }
  }

  lemma SamePacketId(x: seq<byte>, y: seq<byte>)
    requires |x| >= 2 && |y| >= 2
    ensures PacketId(x) == PacketId(y) <==> x[..2] == y[..2]
  {
    assert x[..2] == [x[0], x[1]] && y[..2] == [y[0], y[1]];
  }

  /** In every run, two datagrams have the same topic exactly when host and first two bytes are the same. */
  lemma RoutingIsExact(events: seq<Event>, d: Event, e: Event)
    requires d in events && d.Counts() && e in events && e.Counts()
    ensures d.host in RunOn(events).hosts && e.host in RunOn(events).hosts
    ensures
      TopicOf(d, RunOn(events).hosts) == TopicOf(e, RunOn(events).hosts)
      <==> d.host == e.host && d.data[..2] == e.data[..2]
    ensures
      Captures(HostPrefix(Name(IndexOf(RunOn(events).hosts, d.host))), TopicOf(e, RunOn(events).hosts))
      <==> d.host == e.host
  {
    hide Topic, PacketId, HostPrefix, Captures;
    var hosts := RunOn(events).hosts;
    OnePassIsTwoPasses(events, hosts);
    var j, k := IndexOf(hosts, d.host), IndexOf(hosts, e.host);
    SamePacketId(d.data, e.data);
    if TopicOf(d, hosts) == TopicOf(e, hosts) {
      TopicIdentifies(j, k, PacketId(d.data), PacketId(e.data));
    }
    HostPrefixIsExact(j, k, PacketId(e.data));
  }

  /** Socket errors are counted and change nothing else. No number of them ends a run. */
  ghost function WithoutErrors(events: seq<Event>): (r: seq<Event>)
    ensures forall e | e in r :: !e.SocketError?
    ensures |r| <= |events|
  {
    if events == [] then []
    else WithoutErrors(events[..|events| - 1]) + if events[|events| - 1].SocketError? then [] else [events[|events| - 1]]
  }

  lemma StepIgnoresErrors(s: State, n: nat, e: Event)
    requires Valid(s) && !e.SocketError?
    ensures Valid(s.(errors := n)) && Step(s.(errors := n), e) == Step(s, e).(errors := n)
  {
    hide Numeral, Topic, PacketId;
  }

  lemma {:induction false} ErrorsAreHarmless(events: seq<Event>)
    ensures RunOn(events) == RunOn(WithoutErrors(events)).(errors := |events| - |WithoutErrors(events)|)
    decreases |events|
  {
    hide Valid, Register, Publish;
    if events != [] {
      var front, e := events[..|events| - 1], events[|events| - 1];
      assert events == front + [e];
      RunOnNext(front, e);
      ErrorsAreHarmless(front);
      if !e.SocketError? {
        StepIgnoresErrors(RunOn(WithoutErrors(front)), RunOn(front).errors, e);
        RunOnNext(WithoutErrors(front), e);
      } else {
        assert WithoutErrors(events) == WithoutErrors(front);
      }
    }
  }
}
