/**
 * What the windows of the ground system subscribe to: the main window starts the telemetry system for a selected
 * host, and the telemetry system opens pages. Each passes a string to the next on a command line.
 */
module Subscriptions {
  import opened Common
  import opened Routing

  // ---------------------------------------------------------------------------
  // The main window
  // ---------------------------------------------------------------------------

  /** The lists of the main window, to which it appends every host and name that is announced to it. */
  function WindowHosts(announced: seq<(string, string)>): (r: seq<string>)
    ensures |r| == |announced| + 1
  {
    [ALL] + seq(|announced|, i requires 0 <= i < |announced| => announced[i].0)
  }

  function WindowNames(announced: seq<(string, string)>): (r: seq<string>)
    ensures |r| == |announced| + 1
  {
    [ALL] + seq(|announced|, i requires 0 <= i < |announced| => announced[i].1)
  }

  lemma WindowOfValid(s: State)
    requires Valid(s)
    ensures WindowHosts(s.announced) == s.hosts && WindowNames(s.announced) == s.names
  {
    hide Name;
    var h, n := WindowHosts(s.announced), WindowNames(s.announced);
    forall k | 0 <= k < |s.hosts| ensures h[k] == s.hosts[k] && n[k] == s.names[k] {
      if k == 0 {
        assert s.names[0] == Name(0) == ALL by { NameOfAll(); }
      } else {
        assert s.announced[k - 1] == (s.hosts[k], s.names[k]);
      }
    }
  }

  lemma NameOfAll()
    ensures Name(0) == ALL
  {
  }

  /** After every run the window's lists are the service's. */
  lemma WindowMirrorsRegistry(events: seq<Event>)
    ensures WindowHosts(RunOn(events).announced) == RunOn(events).hosts
    ensures WindowNames(RunOn(events).announced) == RunOn(events).names
  {
    WindowOfValid(RunOn(events));
  }

  /** A name as a format string shows it: the placeholder is text, every other name is a byte string. */
  function NameText(k: nat): string {
    if k == 0 then ALL else "b'" + Name(k) + "'"
  }

  /** What a command line leaves of a word of which parts are quoted. */
  function Unquoted(word: string): string {
    if word == "" then "" else (if word[0] == '\'' then "" else [word[0]]) + Unquoted(word[1..])
  }

  lemma {:induction false} UnquotedConcat(s: string, t: string)
    ensures Unquoted(s + t) == Unquoted(s) + Unquoted(t)
    decreases |s|
  {
    if s == "" {
      assert s + t == t;
    } else {
      assert (s + t)[1..] == s[1..] + t;
      UnquotedConcat(s[1..], t);
    }
  }

  lemma {:induction false} NothingToUnquote(s: string)
    requires '\'' !in s
    ensures Unquoted(s) == s
    decreases |s|
  {
    if s != "" {
      NothingToUnquote(s[1..]);
    }
  }

  /** What the telemetry system is started with when entry k is selected. */
  function SystemArgument(k: nat): string {
    if k == 0 then ROOT else Unquoted(Dotted(ROOT, Dotted(NameText(k), CHANNEL)))
  }

  /** The name that is left of a host's name. */
  function Garbled(k: nat): (s: string)
    ensures '.' !in s && '\'' !in s
  {
    "b" + Name(k)
  }

  lemma QuotesDropped(k: nat)
    requires k > 0
    ensures Unquoted(NameText(k)) == Garbled(k)
  {
    hide Name, Unquoted;
    assert NameText(k) == "b'" + (Name(k) + "'");
    UnquotedConcat("b'", Name(k) + "'");
    UnquotedConcat(Name(k), "'");
    NothingToUnquote(Name(k));
    QuotesUnquoted();
  }

  lemma QuotesUnquoted()
    ensures Unquoted("'") == "" && Unquoted("b'") == "b"
  {
    assert "b'"[1..] == "'" && "'"[1..] == "";
  }

  lemma DottedUnquoted(head: string, rest: string)
    ensures Unquoted(Dotted(head, rest)) == Dotted(Unquoted(head), Unquoted(rest))
  {
    UnquotedConcat(head + ".", rest);
    UnquotedConcat(head, ".");
    assert "."[1..] == "";
    assert Unquoted(".") == ".";
  }

  lemma SystemArgumentOfHost(k: nat)
    requires k > 0
    ensures SystemArgument(k) == Dotted(ROOT, Dotted(Garbled(k), CHANNEL))
  {
    hide NameText, Garbled, Unquoted;
    DottedUnquoted(ROOT, Dotted(NameText(k), CHANNEL));
    DottedUnquoted(NameText(k), CHANNEL);
    QuotesDropped(k);
    NothingToUnquote(ROOT);
    NothingToUnquote(CHANNEL);
  }

  lemma GarbledStart(k: nat, rest: string)
    ensures Dotted(Garbled(k), rest)[0] == 'b'
  {
  }

  /** No topic has a garbled name in it. */
  lemma GarbledCapturesNothing(k: nat, rest: string, j: nat, id: nat)
    ensures !Captures(Dotted(ROOT, Dotted(Garbled(k), rest)), Topic(Name(j), id))
  {
    hide Hex;
    var y := Dotted(CHANNEL, Hex(id));
    SameHead(ROOT, Dotted(Garbled(k), rest), Dotted(Name(j), y));
    assert Dotted(Garbled(k), rest)[0] == 'b' && Dotted(Name(j), y)[0] != 'b';
  }

  /**
   * The telemetry system, which subscribes to its argument, hears every topic when all hosts are selected, and
   * none when one host is.
   */
  lemma SystemHearsAllOrNothing(k: nat, j: nat, id: nat)
    ensures Captures(SystemArgument(k), Topic(Name(j), id)) <==> k == 0
  {
    if k == 0 {
      assert ROOT <= Topic(Name(j), id);
    } else {
      SystemArgumentOfHost(k);
      GarbledCapturesNothing(k, CHANNEL, j, id);
    }
  }

  ghost predicate IsTopic(topic: string) {
    exists j: nat, id: nat :: topic == Topic(Name(j), id)
  }

  lemma {:induction false} PublishedTopics(events: seq<Event>)
    ensures forall m | m in RunOn(events).published :: IsTopic(m.topic)
    decreases |events|
  {
    hide Topic, Name, PacketId, IsTopic;
    if events != [] {
      var front, e := events[..|events| - 1], events[|events| - 1];
      PublishedTopics(front);
      StepPublishes(RunOn(front), e);
    }
  }

  lemma StepPublishes(s: State, e: Event)
    requires Valid(s) && forall m | m in s.published :: IsTopic(m.topic)
    ensures forall m | m in Step(s, e).published :: IsTopic(m.topic)
  {
    hide Topic, Name, PacketId, Register;
    if e.Counts() {
      RegisterKeepsValid(s, e.host);
      RegisterPublishesNothing(s, e.host);
      var r := Register(s, e.host);
      assert r.names[IndexOf(r.hosts, e.host)] == Name(IndexOf(r.hosts, e.host));
      assert IsTopic(Topic(Name(IndexOf(r.hosts, e.host)), PacketId(e.data)));
    }
  }

  lemma RegisterPublishesNothing(s: State, host: string)
    ensures Register(s, host).published == s.published
  {
  }

  /** In every run a telemetry system hears all messages, or none of them. */
  lemma SystemHears(events: seq<Event>, k: nat)
    ensures forall m | m in RunOn(events).published :: Captures(SystemArgument(k), m.topic) <==> k == 0
  {
    hide Captures, SystemArgument, Topic, Name;
    PublishedTopics(events);
    forall m | m in RunOn(events).published ensures Captures(SystemArgument(k), m.topic) <==> k == 0 {
      var j: nat, id: nat :| m.topic == Topic(Name(j), id);
      SystemHearsAllOrNothing(k, j, id);
    }
  }

  /** The file transfer manager is to be started with an argument that no topic starts with. */
  lemma ManagerArgumentCapturesNothing(k: nat, j: nat, id: nat)
    requires k > 0
    ensures !Captures(Dotted(ROOT, NameText(k)), Topic(Name(j), id))
  {
    hide Hex;
    var y := Dotted(Name(j), Dotted(CHANNEL, Hex(id)));
    SameHead(ROOT, NameText(k), y);
    assert NameText(k)[0] == 'b' && y[0] != 'b';
  }

  // ---------------------------------------------------------------------------
  // Pages
  // ---------------------------------------------------------------------------

  /** The host whose packets the pages are written for. */
  const FIRST := "Spacecraft1"

  lemma FirstName()
    ensures Name(1) == FIRST
  {
    assert Decimal.Front(1) == 0;
    assert Numeral(1, Decimal) == "1";
  }

  lemma DottedAssociates(a: string, b: string, c: string)
    ensures Dotted(Dotted(a, b), c) == Dotted(a, Dotted(b, c))
  {
    assert a + "." + b + "." + c == a + "." + (b + "." + c);
  }

  /** What a page with a packet id is started with, by a telemetry system that was started for entry k. */
  function PageArgument(k: nat, id: nat): string {
    Unquoted(Dotted(SystemArgument(k), Hex(id)))
  }

  /** What follows the first dot. */
  function AfterDot(s: string): Option<string> {
    if s == "" then None else if s[0] == '.' then Some(s[1..]) else AfterDot(s[1..])
  }

  lemma {:induction false} AfterDotOf(head: string, rest: string)
    requires '.' !in head
    ensures AfterDot(Dotted(head, rest)) == Some(rest)
    decreases |head|
  {
    if head == "" {
      assert Dotted(head, rest)[1..] == rest;
    } else {
      assert Dotted(head, rest)[1..] == Dotted(head[1..], rest);
      AfterDotOf(head[1..], rest);
    }
  }

  function Dots(s: string): nat {
    if s == "" then 0 else (if s[0] == '.' then 1 else 0) + Dots(s[1..])
  }

  lemma {:induction false} DotsOfDotted(head: string, rest: string)
    requires '.' !in head
    ensures Dots(Dotted(head, rest)) == 1 + Dots(rest)
    decreases |head|
  {
    if head == "" {
      assert Dotted(head, rest)[1..] == rest;
    } else {
      assert Dotted(head, rest)[1..] == Dotted(head[1..], rest);
      DotsOfDotted(head[1..], rest);
    }
  }

  lemma {:induction false} NoDots(s: string)
    requires '.' !in s
    ensures Dots(s) == 0
    decreases |s|
  {
    if s != "" {
      NoDots(s[1..]);
    }
  }

  /** The subscription of a generic page; without a dot in its argument the page fails. */
  function GenericSubscription(argument: string): Option<string> {
    var rest := AfterDot(if argument == "" then ROOT else argument);
    if rest.None? then None else Some(Dotted(ROOT, Dotted(FIRST, Dotted(CHANNEL, rest.value))))
  }

  /** The subscription of the event page; an argument of fewer than three parts stands for the root. */
  function EventSubscription(argument: string, appId: string): string {
    var root := if argument == "" || Dots(argument) < 2 then ROOT else argument;
    Dotted(root, Dotted(FIRST, Dotted(CHANNEL, appId)))
  }

  predicate Contains(s: string, t: string) {
    exists i: nat | i <= |s| :: t <= s[i..]
  }

  lemma ContainsAfter(before: string, part: string, s: string)
    requires before + part <= s
    ensures Contains(s, part)
  {
    assert part <= s[|before|..];
  }

  /** The event page shows a message that it receives when the topic contains its id. */
  predicate EventShows(argument: string, appId: string, topic: string) {
    Captures(EventSubscription(argument, appId), topic) && Contains(topic, appId)
  }

  lemma HexIsPlain(id: nat)
    ensures '.' !in Hex(id) && '\'' !in Hex(id) && Hex(id)[0] == '0'
  {
    hide Numeral;
  }

  lemma PageArgumentOfAll(id: nat)
    ensures PageArgument(0, id) == Dotted(ROOT, Hex(id))
  {
    hide Hex, Unquoted;
    HexIsPlain(id);
    DottedUnquoted(ROOT, Hex(id));
    NothingToUnquote(ROOT);
    NothingToUnquote(Hex(id));
  }

  lemma PageArgumentOfHost(k: nat, id: nat)
    requires k > 0
    ensures PageArgument(k, id) == Dotted(ROOT, Dotted(Garbled(k), Dotted(CHANNEL, Hex(id))))
  {
    hide Hex, Unquoted, Garbled, Dotted, SystemArgument;
    HexIsPlain(id);
    SystemArgumentOfHost(k);
    DottedUnquoted(SystemArgument(k), Hex(id));
    DottedUnquoted(ROOT, Dotted(Garbled(k), CHANNEL));
    DottedUnquoted(Garbled(k), CHANNEL);
    NothingToUnquote(ROOT);
    NothingToUnquote(Garbled(k));
    NothingToUnquote(CHANNEL);
    NothingToUnquote(Hex(id));
    DottedAssociates(ROOT, Dotted(Garbled(k), CHANNEL), Hex(id));
    DottedAssociates(Garbled(k), CHANNEL, Hex(id));
  }

  /** A page of a telemetry system that was started for one host hears no topic, whatever its id and class. */
  lemma PagesOfHostHearNothing(k: nat, id: nat, j: nat, other: nat)
    requires k > 0
    ensures GenericSubscription(PageArgument(k, id)).Some?
    ensures !Captures(GenericSubscription(PageArgument(k, id)).value, Topic(Name(j), other))
    ensures !Captures(EventSubscription(PageArgument(k, id), Hex(id)), Topic(Name(j), other))
  {
    hide Hex, PageArgument, Garbled, Dots, AfterDot;
    var rest := Dotted(Garbled(k), Dotted(CHANNEL, Hex(id)));
    PageArgumentOfHost(k, id);
    AfterDotOf(ROOT, rest);
    FirstName();
    PacketPrefixIsExact(1, j, rest, other);
    HexIsPlain(other);
    GarbledStart(k, Dotted(CHANNEL, Hex(id)));
    DotsOfDotted(ROOT, rest);
    DotsOfDotted(Garbled(k), Dotted(CHANNEL, Hex(id)));
    var tail := Dotted(FIRST, Dotted(CHANNEL, Hex(id)));
    DottedAssociates(ROOT, rest, tail);
    DottedAssociates(Garbled(k), Dotted(CHANNEL, Hex(id)), tail);
    GarbledCapturesNothing(k, Dotted(Dotted(CHANNEL, Hex(id)), tail), j, other);
  }

  /** With all hosts selected, both classes of page subscribe to the first host's packets, by the start of the id. */
  lemma PageOfAllSubscription(id: nat)
    ensures GenericSubscription(PageArgument(0, id)) == Some(EventSubscription(PageArgument(0, id), Hex(id)))
    ensures EventSubscription(PageArgument(0, id), Hex(id)) == Dotted(ROOT, Dotted(Name(1), Dotted(CHANNEL, Hex(id))))
  {
    hide Hex, PageArgument;
    PageArgumentOfAll(id);
    AfterDotOf(ROOT, Hex(id));
    FirstName();
    HexIsPlain(id);
    DotsOfDotted(ROOT, Hex(id));
    NoDots(Hex(id));
  }

  /** They hear exactly the first host's packets whose ids extend the page's; the event page's filter drops none. */
  lemma PagesOfAllHearFirst(id: nat, j: nat, other: nat)
    ensures
      var page := EventSubscription(PageArgument(0, id), Hex(id));
      && GenericSubscription(PageArgument(0, id)) == Some(page)
      && (Captures(page, Topic(Name(j), other)) <==> j == 1 && Hex(id) <= Hex(other))
      && (EventShows(PageArgument(0, id), Hex(id), Topic(Name(j), other)) <==> Captures(page, Topic(Name(j), other)))
  {
    hide Hex, PageArgument, Name, Contains, EventSubscription, GenericSubscription, Topic;
    PageOfAllSubscription(id);
    PacketPrefixIsExact(1, j, Hex(id), other);
    var before := ROOT + "." + (Name(1) + "." + (CHANNEL + "."));
    assert Dotted(ROOT, Dotted(Name(1), Dotted(CHANNEL, Hex(id)))) == before + Hex(id);
    if before + Hex(id) <= Topic(Name(j), other) {
      ContainsAfter(before, Hex(id), Topic(Name(j), other));
    }
  }

  /** Such a page hears its own packets, and no others if and only if its id is 0 or has at least four digits. */
  lemma PageOfAllIsExact(id: nat)
    ensures Captures(EventSubscription(PageArgument(0, id), Hex(id)), Topic(Name(1), id))
    ensures
      (forall j: nat, other: nat | other < 0x1_0000 &&
         Captures(EventSubscription(PageArgument(0, id), Hex(id)), Topic(Name(j), other)) :: j == 1 && other == id)
      <==> id == 0 || id >= 0x1000
  {
    hide Hex, PageArgument, EventSubscription, Name, Captures;
    var page := EventSubscription(PageArgument(0, id), Hex(id));
    PagesOfAllHearFirst(id, 1, id);
    forall j: nat, other: nat | other < 0x1_0000 && Captures(page, Topic(Name(j), other))
      ensures j == 1 && (other == id || 0 < id < 0x1000)
    {
      PagesOfAllHearFirst(id, j, other);
      HexPrefix(id, other);
      ExtendedNumeral(id, other, Hexadecimal);
    }
    if 0 < id < 0x1000 {
      var other := Hexadecimal.Times(id);
      ScaledNumeral(id, Hexadecimal);
      HexPrefix(id, other);
      PagesOfAllHearFirst(id, 1, other);
      assert Captures(page, Topic(Name(1), other));
    }
  }
}
