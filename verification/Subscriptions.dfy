/** One browser, its socket and the subscription manager as one system: whatever the
    interleaving, the commands still on their way turn the manager's subscriptions of the
    socket into what the browser has subscribed to, and no change of a counter is lost. */
module Subscriptions {
  import opened Collections
  import opened Text
  import opened SubscriptionManager
  import opened UpdateService
  import opened Wrappers
  import Decimal

  // -------------------------------------------------------------- uris and commands

  /** A uri the messages can carry. */
  predicate PlainUri(u: string) {
    u != "" && u != "*" && ',' !in u && '=' !in u
  }

  datatype Message = Subscribing(uri: string, counter: Counter) | Unsubscribing(uri: string)

  function TextOf(m: Message): string {
    match m
    case Subscribing(u, c) => AddText(u, c)
    case Unsubscribing(u) => RemoveText(u)
  }

  ghost predicate IsMessage(text: string) {
    exists m: Message :: PlainUri(m.uri) && text == TextOf(m)
  }

  lemma NoSeparators(s: string)
    requires Decimal.AllDigits(s)
    ensures ',' !in s && '=' !in s
  {
    assert !Decimal.IsDigit(',') && !Decimal.IsDigit('=');
  }

  lemma CounterTextClean(c: Counter)
    ensures ',' !in CounterText(c) && '=' !in CounterText(c)
  {
    if c.Some? {
      NoSeparators(Decimal.Digits(Decimal.Abs(c.value)));
    }
  }

  /** The keys of a socket's uris after a command, and after a message. */
  function CommandKeys(keys: set<string>, command: Command): set<string> {
    match command
    case Add(u, _) => keys + {u}
    case RemoveAll => {}
    case Remove(u) => keys - {u}
    case _ => keys
  }

  function ItemsKeys(keys: set<string>, items: seq<string>): set<string>
    decreases |items|
  {
    if items == [] || CommandOf(items[0]).Handshake? then keys
    else ItemsKeys(CommandKeys(keys, CommandOf(items[0])), items[1..])
  }

  /** A message of the browser is understood as the command it stands for. */
  lemma Understood(m: Message)
    requires PlainUri(m.uri)
    ensures CommandOf(TextOf(m)) == match m { case Subscribing(u, c) => Add(u, ParseCounter(CounterText(c)))
                                              case Unsubscribing(u) => Remove(u) }
    ensures ',' !in TextOf(m) && TextOf(m) != "-*" && TextOf(m) != "=" && TextOf(m)[0] != 'c'
  {
    match m {
      case Subscribing(u, c) =>
        var ds := CounterText(c);
        CounterTextClean(c);
        SplitFirst("+" + u, ds, '=');
        SplitLast(ds, '=');
        assert "+" + u + ['='] + ds == TextOf(m);
        assert ("+" + u)[1..] == u;
        assert Split(TextOf(m), '=') == ["+" + u, ds];
        assert ("+" + u)[0] != "ccus"[0];
      case Unsubscribing(u) =>
        SplitLast("-" + u, '=');
        assert ("-" + u)[1..] == u;
        assert ("-" + u)[0] == '-';
        assert "-*"[1..] == "*";
    }
  }

  /** A 64-bit counter written in digits is read back. */
  lemma CounterRead(c: nat)
    requires c < U64_LIMIT
    ensures ParseCounter(CounterText(Some(c))) == c
  {
    hide Decimal.Digits, Decimal.ValueOf, Decimal.DigitPrefix;
    var ds := Decimal.Digits(c);
    assert CounterText(Some(c)) == "" + ds == ds;
    Decimal.ValueOfDigits(c);
    assert ds[0] in ds;
    assert Decimal.Unsigned(ds) == ds;
  }

  // ------------------------------------------------------------- what the server keeps

  lemma {:induction false} KeysOfItems(sv: Server, from: nat, items: seq<string>)
    ensures UrisOf(DoItems(sv, from, items), from).Keys == ItemsKeys(UrisOf(sv, from).Keys, items)
    decreases |items|
  {
    hide CommandOf;
    if items != [] && !CommandOf(items[0]).Handshake? {
      KeysOfCommand(sv, from, CommandOf(items[0]));
      KeysOfItems(Do(sv, from, CommandOf(items[0])), from, items[1..]);
    }
  }

  lemma KeysOfCommand(sv: Server, from: nat, command: Command)
    ensures UrisOf(Do(sv, from, command), from).Keys == CommandKeys(UrisOf(sv, from).Keys, command)
  {
  }

  /** A command changes neither another socket's uris nor the counter of a known uri. */
  lemma OthersKept(sv: Server, from: nat, command: Command, other: nat)
    requires from != other
    ensures UrisOf(Do(sv, from, command), other) == UrisOf(sv, other)
  {
  }

  lemma CurrentKept(sv: Server, from: nat, command: Command, u: string)
    requires u in sv.uri2counter
    ensures u in Do(sv, from, command).uri2counter && Do(sv, from, command).uri2counter[u].current == sv.uri2counter[u].current
  {
  }

  lemma {:induction false} OthersKeptByItems(sv: Server, from: nat, items: seq<string>, other: nat)
    requires from != other
    ensures UrisOf(DoItems(sv, from, items), other) == UrisOf(sv, other)
    decreases |items|
  {
    hide CommandOf, Do;
    if items != [] && !CommandOf(items[0]).Handshake? {
      OthersKept(sv, from, CommandOf(items[0]), other);
      OthersKeptByItems(Do(sv, from, CommandOf(items[0])), from, items[1..], other);
    }
  }

  lemma {:induction false} CurrentKeptByItems(sv: Server, from: nat, items: seq<string>, u: string)
    requires u in sv.uri2counter
    ensures var after := DoItems(sv, from, items);
            u in after.uri2counter && after.uri2counter[u].current == sv.uri2counter[u].current
    decreases |items|
  {
    hide CommandOf, Do;
    if items != [] && !CommandOf(items[0]).Handshake? {
      CurrentKept(sv, from, CommandOf(items[0]), u);
      CurrentKeptByItems(Do(sv, from, CommandOf(items[0])), from, items[1..], u);
    }
  }

  /** Every subscribed uri has a counter. */
  ghost predicate Counted(sv: Server) {
    forall ws, u | ws in sv.idws2uris && u in sv.idws2uris[ws] :: u in sv.uri2counter
  }

  lemma CountedAfter(sv: Server, from: nat, command: Command)
    requires Counted(sv)
    ensures Counted(Do(sv, from, command))
  {
  }

  lemma {:induction false} CountedAfterItems(sv: Server, from: nat, items: seq<string>)
    requires Counted(sv)
    ensures Counted(DoItems(sv, from, items))
    decreases |items|
  {
    hide CommandOf, Do, Counted;
    if items != [] && !CommandOf(items[0]).Handshake? {
      CountedAfter(sv, from, CommandOf(items[0]));
      CountedAfterItems(Do(sv, from, CommandOf(items[0])), from, items[1..]);
    }
  }

  /** After a poll every uri of the socket has been told its current counter, so that a
      second poll tells nothing; nothing else changes. */
  lemma PollTellsAll(sv: Server, ws: nat)
    requires Counted(sv)
    ensures var after := Do(sv, ws, GetChanges);
            && Changes(after, ws) == map[]
            && UrisOf(after, ws).Keys == UrisOf(sv, ws).Keys && after.uri2counter == sv.uri2counter
            && forall u | u in UrisOf(after, ws) :: UrisOf(after, ws)[u] == sv.uri2counter[u].current
  {
    var after := Do(sv, ws, GetChanges);
    assert UrisOf(after, ws) == Told(sv, ws);
    assert Changes(after, ws) == map[];
  }

  // ------------------------------------------------------------------------ the system

  datatype System = System(client: Client, server: Server)

  datatype Step =
    | Subscribes(uri: string, known: int)
    | Unsubscribes(uri: string)
    | Timer
    | Deliver
    | Poll
    | Receives(text: string, settled: (string, Counter) -> bool)
    | OtherSocket(from: nat, text: string)
    | FromQueue(uri: string, count: nat)

  /** A step of the system whose socket is `ws`. A timer that is not set does not fire, and
      nothing is delivered from an empty wire. */
  function Next(sys: System, ws: nat, step: Step): System {
    var c, sv := sys.client, sys.server;
    match step
    case Subscribes(u, known) => sys.(client := Subscribe(c, u, known))
    case Unsubscribes(u) => sys.(client := Unsubscribe(c, u))
    case Timer => if c.timer then sys.(client := TimerFires(c)) else sys
    case Deliver => if c.wire == [] then sys else System(c.(wire := c.wire[1..]), Handle(sv, ws, c.wire[0]))
    case Poll => sys.(server := Handle(sv, ws, "?"))
    case Receives(text, settled) => sys.(client := c.(list := Received(c.list, Split(text, ','), settled)))
    case OtherSocket(from, text) => sys.(server := Handle(sv, from, text))
    case FromQueue(u, count) => sys.(server := Queue(sv, u, count))
  }

  function Run(sys: System, ws: nat, steps: seq<Step>): System
    decreases |steps|
  {
    if steps == [] then sys else Run(Next(sys, ws, steps[0]), ws, steps[1..])
  }

  predicate Fair(step: Step, ws: nat) {
    match step
    case Subscribes(u, _) => PlainUri(u)
    case Unsubscribes(u) => PlainUri(u)
    case OtherSocket(from, _) => from != ws
    case _ => true
  }

  /** What is on the wire, and what the timer would put there. */
  function Unhandled(c: Client): seq<string> {
    if c.buffer == [] then c.wire else c.wire + [JoinAll(c.buffer)]
  }

  function HandleAll(sv: Server, ws: nat, texts: seq<string>): Server
    decreases |texts|
  {
    if texts == [] then sv else HandleAll(Handle(sv, ws, texts[0]), ws, texts[1..])
  }

  /** Handling everything that is on its way leaves the socket with exactly the uris the
      browser has subscribed to. */
  ghost predicate Agrees(sys: System, ws: nat) {
    UrisOf(HandleAll(sys.server, ws, Unhandled(sys.client)), ws).Keys == sys.client.list.Keys
  }

  ghost predicate Inv(sys: System, ws: nat) {
    && Agrees(sys, ws)
    && Counted(sys.server)
    && (forall text | text in sys.client.buffer :: IsMessage(text))
    && (sys.client.timer <==> sys.client.buffer != [])
  }

  // ------------------------------------------------------------------- keys in flight

  function TextsKeys(keys: set<string>, texts: seq<string>): set<string>
    decreases |texts|
  {
    if texts == [] then keys else TextsKeys(ItemsKeys(keys, Split(texts[0], ',')), texts[1..])
  }

  lemma {:induction false} KeysOfTexts(sv: Server, ws: nat, texts: seq<string>)
    ensures UrisOf(HandleAll(sv, ws, texts), ws).Keys == TextsKeys(UrisOf(sv, ws).Keys, texts)
    decreases |texts|
  {
    hide DoItems, ItemsKeys, UrisOf;
    if texts != [] {
      KeysOfItems(sv, ws, Split(texts[0], ','));
      KeysOfTexts(Handle(sv, ws, texts[0]), ws, texts[1..]);
    }
  }

  lemma {:induction false} TextsKeysSnoc(keys: set<string>, texts: seq<string>, text: string)
    ensures TextsKeys(keys, texts + [text]) == ItemsKeys(TextsKeys(keys, texts), Split(text, ','))
    decreases |texts|
  {
    hide ItemsKeys;
    if texts == [] {
      assert ([text])[1..] == [];
    } else {
      TextsKeysSnoc(ItemsKeys(keys, Split(texts[0], ',')), texts[1..], text);
      assert (texts + [text])[1..] == texts[1..] + [text];
    }
  }

  ghost predicate AllMessages(items: seq<string>) {
    forall text | text in items :: IsMessage(text)
  }

  lemma MessageUnderstood(text: string) returns (m: Message)
    requires IsMessage(text)
    ensures PlainUri(m.uri) && text == TextOf(m) && ',' !in text && !CommandOf(text).Handshake?
  {
    m :| PlainUri(m.uri) && text == TextOf(m);
    Understood(m);
  }

  lemma {:induction false} ItemsKeysSnoc(keys: set<string>, items: seq<string>, text: string)
    requires AllMessages(items) && IsMessage(text)
    ensures ItemsKeys(keys, items + [text]) == CommandKeys(ItemsKeys(keys, items), CommandOf(text))
    decreases |items|
  {
    hide IsMessage, CommandKeys, CommandOf;
    var m := MessageUnderstood(text);
    if items == [] {
      assert ([text])[1..] == [];
    } else {
      var first := MessageUnderstood(items[0]);
      ItemsKeysSnoc(CommandKeys(keys, CommandOf(items[0])), items[1..], text);
      assert (items + [text])[1..] == items[1..] + [text];
    }
  }

  lemma BufferSplits(buffer: seq<string>)
    requires AllMessages(buffer) && buffer != []
    ensures Split(JoinAll(buffer), ',') == buffer
  {
    hide IsMessage;
    forall text | text in buffer ensures ',' !in text {
      var m := MessageUnderstood(text);
    }
    SplitJoin(buffer, ',');
  }

  /** The keys once everything is handled. */
  function FinalKeys(keys: set<string>, c: Client): set<string> {
    ItemsKeys(TextsKeys(keys, c.wire), c.buffer)
  }

  lemma FinalKeysAre(sys: System, ws: nat)
    requires AllMessages(sys.client.buffer)
    ensures UrisOf(HandleAll(sys.server, ws, Unhandled(sys.client)), ws).Keys == FinalKeys(UrisOf(sys.server, ws).Keys, sys.client)
  {
    hide IsMessage, UrisOf, JoinAll;
    var c := sys.client;
    KeysOfTexts(sys.server, ws, Unhandled(c));
    if c.buffer != [] {
      TextsKeysSnoc(UrisOf(sys.server, ws).Keys, c.wire, JoinAll(c.buffer));
      BufferSplits(c.buffer);
    }
  }

  /** Sending a message of the browser adds its command to what is on its way. */
  lemma SendMessage(keys: set<string>, c: Client, m: Message)
    requires PlainUri(m.uri) && AllMessages(c.buffer)
    ensures var after := Send(c, TextOf(m));
            && AllMessages(after.buffer) && after.timer && after.buffer != [] && after.list == c.list && after.wire == c.wire
            && FinalKeys(keys, after)
            == match m { case Subscribing(u, _) => FinalKeys(keys, c) + {u} case Unsubscribing(u) => FinalKeys(keys, c) - {u} }
  {
    hide CommandOf, TextsKeys;
    Understood(m);
    assert IsMessage(TextOf(m));
    ItemsKeysSnoc(TextsKeys(keys, c.wire), c.buffer, TextOf(m));
  }

  lemma ReceivedKeys(list: map<string, Entry>, items: seq<string>, settled: (string, Counter) -> bool)
    ensures Received(list, items, settled).Keys == list.Keys
  {
  }

  // --------------------------------------------------------------- every step keeps it

  ghost predicate KeysInv(sys: System, ws: nat) {
    && FinalKeys(UrisOf(sys.server, ws).Keys, sys.client) == sys.client.list.Keys
    && AllMessages(sys.client.buffer)
    && (sys.client.timer <==> sys.client.buffer != [])
  }

  lemma InvIs(sys: System, ws: nat)
    ensures Inv(sys, ws) <==> KeysInv(sys, ws) && Counted(sys.server)
  {
    hide IsMessage, UrisOf, Unhandled, HandleAll, FinalKeys;
    if AllMessages(sys.client.buffer) {
      FinalKeysAre(sys, ws);
    }
  }

  lemma ClientKeeps(sys: System, ws: nat, step: Step)
    requires KeysInv(sys, ws) && Fair(step, ws)
    requires step.Subscribes? || step.Unsubscribes? || step.Receives?
    ensures KeysInv(Next(sys, ws, step), ws)
  {
    hide UrisOf, ItemsKeys, TextsKeys, IsMessage;
    var keys := UrisOf(sys.server, ws).Keys;
    match step {
      case Subscribes(u, known) =>
        if u !in sys.client.list {
          SendMessage(keys, sys.client.(list := sys.client.list[u := Entry(1, Some(known))]), Subscribing(u, Some(known)));
        }
      case Unsubscribes(u) =>
        if !(u in sys.client.list && sys.client.list[u].subscribeCounter > 1) {
          SendMessage(keys, sys.client.(list := sys.client.list - {u}), Unsubscribing(u));
        }
      case Receives(text, settled) => ReceivedKeys(sys.client.list, Split(text, ','), settled);
    }
  }

  lemma WireKeeps(sys: System, ws: nat, step: Step)
    requires KeysInv(sys, ws) && (step.Timer? || step.Deliver?)
    ensures KeysInv(Next(sys, ws, step), ws)
  {
    hide UrisOf, CommandOf, IsMessage, DoItems, JoinAll;
    var c, keys := sys.client, UrisOf(sys.server, ws).Keys;
    if step.Timer? {
      if c.timer {
        TextsKeysSnoc(keys, c.wire, JoinAll(c.buffer));
        BufferSplits(c.buffer);
      }
    } else if c.wire != [] {
      KeysOfItems(sys.server, ws, Split(c.wire[0], ','));
    }
  }

  lemma PollItem()
    ensures Split("?", ',') == ["?"] && CommandOf("?") == GetChanges
  {
    SplitLast("?", ',');
    SplitLast("?", '=');
  }

  /** The messages the server understands, as they are spelled. */
  lemma Spelled(u: string, n: nat)
    requires PlainUri(u) && n < 0x1_0000_0000_0000_0000
    ensures CommandOf("+" + u + "=" + Decimal.Digits(n)) == Add(u, n)
    ensures CommandOf("-" + u) == Remove(u)
  {
    Understood(Subscribing(u, Some(n)));
    Understood(Unsubscribing(u));
    CounterRead(n);
    DigitsOfCounter(n);
    hide CommandOf, ParseCounter, Decimal.Digits, CounterText;
  }

  lemma SpelledAlone(ticket: string)
    requires '=' !in ticket
    ensures CommandOf("?") == GetChanges && CommandOf("N") == NewSocket && CommandOf("-*") == RemoveAll
    ensures CommandOf("ccus=" + ticket) == Handshake
  {
    SplitLast("?", '=');
    SplitLast("N", '=');
    SplitLast("-*", '=');
    SplitFirst("ccus", ticket, '=');
    SplitLast(ticket, '=');
    hide ParseCounter, Split;
    assert "ccus=" + ticket == "ccus" + ['='] + ticket;
    assert "-*"[1..] == "*";
  }

  lemma ServerKeeps(sys: System, ws: nat, step: Step)
    requires KeysInv(sys, ws) && Fair(step, ws) && (step.Poll? || step.OtherSocket? || step.FromQueue?)
    ensures KeysInv(Next(sys, ws, step), ws)
  {
    hide ItemsKeys, TextsKeys, IsMessage, CommandOf, Do, DoItems;
    match step {
      case Poll =>
        PollItem();
        KeysOfItems(sys.server, ws, ["?"]);
        PollKeys(UrisOf(sys.server, ws).Keys);
      case OtherSocket(from, text) => OthersKeptByItems(sys.server, from, Split(text, ','), ws);
      case FromQueue(_, _) =>
    }
  }

  lemma PollKeys(keys: set<string>)
    ensures ItemsKeys(keys, ["?"]) == keys
  {
    PollItem();
    assert ["?"][1..] == [];
    assert ItemsKeys(keys, []) == keys;
  }

  lemma StepKeeps(sys: System, ws: nat, step: Step)
    requires Inv(sys, ws) && Fair(step, ws)
    ensures Inv(Next(sys, ws, step), ws)
  {
    hide Inv, KeysInv, DoItems, Counted;
    InvIs(sys, ws);
    match step {
      case Subscribes(_, _) => ClientKeeps(sys, ws, step);
      case Unsubscribes(_) => ClientKeeps(sys, ws, step);
      case Receives(_, _) => ClientKeeps(sys, ws, step);
      case Timer => WireKeeps(sys, ws, step);
      case Deliver =>
        WireKeeps(sys, ws, step);
        if sys.client.wire != [] {
          CountedAfterItems(sys.server, ws, Split(sys.client.wire[0], ','));
        }
      case Poll =>
        ServerKeeps(sys, ws, step);
        CountedAfterItems(sys.server, ws, Split("?", ','));
      case OtherSocket(from, text) =>
        ServerKeeps(sys, ws, step);
        CountedAfterItems(sys.server, from, Split(text, ','));
      case FromQueue(u, count) =>
        ServerKeeps(sys, ws, step);
        CountedAfterQueue(sys.server, u, count);
    }
    InvIs(Next(sys, ws, step), ws);
  }

  lemma CountedAfterQueue(sv: Server, u: string, count: nat)
    requires Counted(sv)
    ensures Counted(Queue(sv, u, count))
  {
  }

  /** Over any run within one open connection, the commands in flight and in the buffer turn
      the server's uris into the browser's, and every subscribed uri has a counter. */
  lemma {:induction false} RunKeeps(sys: System, ws: nat, steps: seq<Step>)
    requires Inv(sys, ws) && forall step | step in steps :: Fair(step, ws)
    ensures Inv(Run(sys, ws, steps), ws)
    decreases |steps|
  {
    hide Inv, Next;
    if steps != [] {
      StepKeeps(sys, ws, steps[0]);
      RunKeeps(Next(sys, ws, steps[0]), ws, steps[1..]);
    }
  }

  // -------------------------------------------------------------------- the beginning

  lemma {:induction false} AddsSent(keys: set<string>, c: Client, order: seq<string>)
    requires (forall u | u in order :: u in c.list && PlainUri(u)) && AllMessages(c.buffer) && (c.timer <==> c.buffer != [])
    ensures var after := SendAdds(c, order);
            && AllMessages(after.buffer) && (after.timer <==> after.buffer != []) && after.list == c.list
            && FinalKeys(keys, after) == FinalKeys(keys, c) + set u | u in order
    decreases |order|
  {
    hide FinalKeys, IsMessage, Send, CounterText;
    if order != [] {
      var init, u := order[..|order| - 1], order[|order| - 1];
      AddsSent(keys, c, init);
      SendMessage(keys, SendAdds(c, init), Subscribing(u, c.list[u].updateCounter));
      assert order == init + [u];
      assert (set v | v in order) == (set v | v in init) + {u};
    }
  }

  /** A socket that opens brings the invariant about, whatever the server holds for it. */
  lemma OpeningEstablishes(c: Client, sv: Server, ws: nat, ticket: string, order: seq<string>)
    requires Counted(sv) && c.buffer == [] && !c.timer && c.wire == []
    requires forall u | u in c.list :: PlainUri(u)
    requires forall u :: u in order <==> u in c.list
    ensures Inv(System(Opened(c, ticket, order), sv), ws)
  {
    hide Counted, IsMessage, UrisOf, CommandOf;
    var keys := UrisOf(sv, ws).Keys;
    var hello := "ccus=" + ticket;
    assert "ccus" <= hello;
    var greeted := Send(Send(c, hello), "-*");
    assert greeted == c.(wire := [hello, "-*"]);
    ClearedKeys(keys, hello);
    AddsSent(keys, greeted, order);
    assert (set u | u in order) == c.list.Keys;
    InvIs(System(Opened(c, ticket, order), sv), ws);
  }

  lemma ClearedKeys(keys: set<string>, hello: string)
    ensures TextsKeys(keys, [hello, "-*"]) == {}
  {
    hide CommandOf;
    var first := ItemsKeys(keys, Split(hello, ','));
    ClearItem();
    assert [hello, "-*"][1..] == ["-*"] && ["-*"][1..] == [];
    assert ItemsKeys(first, ["-*"]) == ItemsKeys(CommandKeys(first, RemoveAll), []);
    assert TextsKeys(first, ["-*"]) == TextsKeys(ItemsKeys(first, ["-*"]), []);
  }

  lemma ClearItem()
    ensures Split("-*", ',') == ["-*"] && CommandOf("-*") == RemoveAll
  {
    SplitLast("-*", ',');
    SplitLast("-*", '=');
    assert "-*"[1..] == "*";
  }

  /** When nothing is on its way, the socket's uris are the browser's. */
  lemma Quiescent(sys: System, ws: nat)
    requires Inv(sys, ws) && sys.client.wire == [] && !sys.client.timer
    ensures UrisOf(sys.server, ws).Keys == sys.client.list.Keys
  {
  }

  /** Giving up a subscription of a known uri takes back what subscribing to it counted. */
  lemma RemoveUndoesAdd(sv: Server, ws: nat, u: string, n: nat)
    requires u in sv.uri2counter
    ensures var added := Do(sv, ws, Add(u, n));
            && added.uri2counter[u].subscribers == sv.uri2counter[u].subscribers + 1
            && Do(added, ws, Remove(u)).uri2counter == sv.uri2counter
            && UrisOf(Do(added, ws, Remove(u)), ws) == UrisOf(sv, ws) - {u}
  {
    hide Changes, Told;
  }

  // ------------------------------------------------------------- what a counter is

  /** An individual from the queue sets the counter of its uri, if the uri is known, and
      nothing else. */
  lemma QueueCounts(sv: Server, u: string, n: nat)
    ensures var after := Queue(sv, u, n);
            && after.uri2counter.Keys == sv.uri2counter.Keys && after.idws2uris == sv.idws2uris && after.wsIdGen == sv.wsIdGen
            && (u in sv.uri2counter ==> after.uri2counter[u] == Counters(n, sv.uri2counter[u].subscribers))
            && forall v | v in sv.uri2counter && v != u :: after.uri2counter[v] == sv.uri2counter[v]
  {
  }

  /** The count of the last entry for `u` that came from the queue, or else `n`. */
  function LastCount(steps: seq<Step>, u: string, n: nat): nat
    decreases |steps|
  {
    if steps == [] then n
    else LastCount(steps[1..], u, if steps[0].FromQueue? && steps[0].uri == u then steps[0].count else n)
  }

  lemma StepCounts(sys: System, ws: nat, step: Step, u: string)
    requires u in sys.server.uri2counter
    ensures var after := Next(sys, ws, step).server;
            && u in after.uri2counter
            && after.uri2counter[u].current
            == if step.FromQueue? && step.uri == u then step.count else sys.server.uri2counter[u].current
  {
    hide DoItems, JoinAll, CommandOf;
    match step {
      case Deliver =>
        if sys.client.wire != [] {
          CurrentKeptByItems(sys.server, ws, Split(sys.client.wire[0], ','), u);
        }
      case Poll => CurrentKeptByItems(sys.server, ws, Split("?", ','), u);
      case OtherSocket(from, text) => CurrentKeptByItems(sys.server, from, Split(text, ','), u);
      case FromQueue(v, n) => QueueCounts(sys.server, v, n);
      case _ =>
    }
  }

  /** Over any run the counter of a known uri is that of the last entry for it from the
      queue, or what it was: neither polls nor sockets change it, and no entry is missed. */
  lemma {:induction false} CounterIsLast(sys: System, ws: nat, steps: seq<Step>, u: string)
    requires u in sys.server.uri2counter
    ensures var later := Run(sys, ws, steps).server;
            u in later.uri2counter && later.uri2counter[u].current == LastCount(steps, u, sys.server.uri2counter[u].current)
    decreases |steps|
  {
    hide Next;
    if steps != [] {
      StepCounts(sys, ws, steps[0], u);
      CounterIsLast(Next(sys, ws, steps[0]), ws, steps[1..], u);
    }
  }

  /** A uri becomes known with the counter of the first subscription to it. */
  lemma {:induction false} BecomesKnown(sv: Server, from: nat, items: seq<string>, u: string) returns (i: nat)
    requires u !in sv.uri2counter && u in DoItems(sv, from, items).uri2counter
    ensures i < |items| && CommandOf(items[i]).Add? && CommandOf(items[i]).uri == u
    ensures DoItems(sv, from, items).uri2counter[u].current == CommandOf(items[i]).counter
    ensures forall j | 0 <= j < i :: !CommandOf(items[j]).Handshake? && !(CommandOf(items[j]).Add? && CommandOf(items[j]).uri == u)
    decreases |items|
  {
    hide CommandOf, Do;
    var command := CommandOf(items[0]);
    var next := Do(sv, from, command);
    NewlyKnown(sv, from, command, u);
    if u in next.uri2counter {
      CurrentKeptByItems(next, from, items[1..], u);
      i := 0;
    } else {
      i := BecomesKnown(next, from, items[1..], u);
      i := i + 1;
    }
  }

  lemma NewlyKnown(sv: Server, from: nat, command: Command, u: string)
    requires u !in sv.uri2counter
    ensures u in Do(sv, from, command).uri2counter <==> command.Add? && command.uri == u
    ensures command.Add? && command.uri == u ==> Do(sv, from, command).uri2counter[u].current == command.counter
  {
  }

  // ------------------------------------------------------------- no change is lost

  predicate FromOutside(step: Step, ws: nat) {
    step.FromQueue? || (step.OtherSocket? && step.from != ws)
  }

  lemma {:induction false} OutsideKeeps(sys: System, ws: nat, steps: seq<Step>)
    requires Counted(sys.server) && forall step | step in steps :: FromOutside(step, ws)
    ensures UrisOf(Run(sys, ws, steps).server, ws) == UrisOf(sys.server, ws)
    ensures Counted(Run(sys, ws, steps).server)
    decreases |steps|
  {
    hide Counted, DoItems, UrisOf;
    if steps != [] {
      var next := Next(sys, ws, steps[0]);
      assert FromOutside(steps[0], ws);
      if steps[0].OtherSocket? {
        OthersKeptByItems(sys.server, steps[0].from, Split(steps[0].text, ','), ws);
        CountedAfterItems(sys.server, steps[0].from, Split(steps[0].text, ','));
      } else {
        QueueKeeps(sys.server, steps[0].uri, steps[0].count, ws);
      }
      OutsideKeeps(next, ws, steps[1..]);
    }
  }

  lemma QueueKeeps(sv: Server, u: string, count: nat, ws: nat)
    requires Counted(sv)
    ensures UrisOf(Queue(sv, u, count), ws) == UrisOf(sv, ws) && Counted(Queue(sv, u, count))
  {
  }

  /** However many individuals came from the queue and whatever other sockets did since a
      poll, the next poll tells exactly the uris for which the last count from the queue is
      not the one they had, with that count. */
  lemma PollTellsWhatChanged(sys: System, ws: nat, steps: seq<Step>)
    requires Counted(sys.server) && forall step | step in steps :: FromOutside(step, ws)
    ensures var later := Run(Next(sys, ws, Poll), ws, steps).server;
            var was := sys.server.uri2counter;
            && UrisOf(sys.server, ws).Keys <= was.Keys
            && Changes(later, ws)
            == map u | u in UrisOf(sys.server, ws) && LastCount(steps, u, was[u].current) != was[u].current
                 :: LastCount(steps, u, was[u].current)
  {
    hide CommandOf, Run, LastCount;
    forall u | u in sys.server.uri2counter
      ensures var later := Run(Next(sys, ws, Poll), ws, steps).server;
              u in later.uri2counter && later.uri2counter[u].current == LastCount(steps, u, sys.server.uri2counter[u].current)
    {
      StepCounts(sys, ws, Poll, u);
      CounterIsLast(Next(sys, ws, Poll), ws, steps, u);
    }
    var polled := Next(sys, ws, Poll);
    PollItem();
    assert ["?"][1..] == [];
    assert polled.server == DoItems(Do(sys.server, ws, GetChanges), ws, []);
    PollTellsAll(sys.server, ws);
    CountedAfter(sys.server, ws, GetChanges);
    OutsideKeeps(polled, ws, steps);
  }

  // ------------------------------------------- the same, whatever the socket itself does

  /** A command that neither gives `u` up nor polls. */
  predicate Spares(command: Command, u: string) {
    !command.RemoveAll? && !command.GetChanges? && command != Remove(u)
  }

  predicate AllSpare(items: seq<string>, u: string) {
    forall item | item in items :: Spares(CommandOf(item), u)
  }

  /** A run in which the socket does not poll and no message of it that is handled gives `u`
      up; it may subscribe, unsubscribe from others, and send what it likes. */
  predicate KeptBy(sys: System, ws: nat, steps: seq<Step>, u: string)
    decreases |steps|
  {
    steps == [] ||
    (&& !steps[0].Poll? && (steps[0].OtherSocket? ==> steps[0].from != ws)
     && (steps[0].Deliver? && sys.client.wire != [] ==> AllSpare(Split(sys.client.wire[0], ','), u))
     && KeptBy(Next(sys, ws, steps[0]), ws, steps[1..], u))
  }

  /** The counter the socket was last told for `u`, and the current one, stand still. */
  ghost predicate ToldKept(sv: Server, after: Server, ws: nat, u: string) {
    u in UrisOf(sv, ws) ==> u in UrisOf(after, ws) && UrisOf(after, ws)[u] == UrisOf(sv, ws)[u]
  }

  lemma SpareKeeps(sv: Server, ws: nat, command: Command, u: string)
    requires Spares(command, u)
    ensures ToldKept(sv, Do(sv, ws, command), ws, u)
  {
  }

  lemma {:induction false} SpareItemsKeep(sv: Server, ws: nat, items: seq<string>, u: string)
    requires AllSpare(items, u)
    ensures ToldKept(sv, DoItems(sv, ws, items), ws, u)
    decreases |items|
  {
    hide CommandOf, Do, Spares, UrisOf;
    if items != [] && !CommandOf(items[0]).Handshake? {
      assert Spares(CommandOf(items[0]), u);
      SpareKeeps(sv, ws, CommandOf(items[0]), u);
      SpareItemsKeep(Do(sv, ws, CommandOf(items[0])), ws, items[1..], u);
    }
  }

  lemma StepKeepsTold(sys: System, ws: nat, step: Step, u: string)
    requires Counted(sys.server) && KeptBy(sys, ws, [step], u)
    ensures var after := Next(sys, ws, step).server; ToldKept(sys.server, after, ws, u) && Counted(after)
  {
    hide Counted, DoItems, AllSpare, CommandOf, JoinAll;
    match step {
      case Deliver =>
        if sys.client.wire != [] {
          SpareItemsKeep(sys.server, ws, Split(sys.client.wire[0], ','), u);
          CountedAfterItems(sys.server, ws, Split(sys.client.wire[0], ','));
        }
      case OtherSocket(from, text) =>
        OthersKeptByItems(sys.server, from, Split(text, ','), ws);
        CountedAfterItems(sys.server, from, Split(text, ','));
      case FromQueue(v, count) => QueueKeeps(sys.server, v, count, ws);
      case _ =>
    }
  }

  lemma {:induction false} RunKeepsTold(sys: System, ws: nat, steps: seq<Step>, u: string)
    requires Counted(sys.server) && u in UrisOf(sys.server, ws) && KeptBy(sys, ws, steps, u)
    ensures var after := Run(sys, ws, steps).server; ToldKept(sys.server, after, ws, u) && Counted(after)
    decreases |steps|
  {
    hide Counted, AllSpare, Next, UrisOf;
    if steps != [] {
      assert [steps[0]][1..] == [];
      StepKeepsTold(sys, ws, steps[0], u);
      RunKeepsTold(Next(sys, ws, steps[0]), ws, steps[1..], u);
    }
  }

  /** Between two polls the socket may also subscribe, unsubscribe from others and deliver
      what it likes: a uri it keeps throughout is told by the second poll if and only if the
      last count that came from the queue for it, if any came, is not the one it had at the
      first poll, and then it is told that count. */
  lemma PollTellsKept(sys: System, ws: nat, steps: seq<Step>, u: string)
    requires Counted(sys.server) && u in UrisOf(sys.server, ws) && KeptBy(Next(sys, ws, Poll), ws, steps, u)
    ensures var later := Run(Next(sys, ws, Poll), ws, steps).server;
            && u in sys.server.uri2counter
            && var was := sys.server.uri2counter[u].current;
            && (u in Changes(later, ws) <==> LastCount(steps, u, was) != was)
            && (u in Changes(later, ws) ==> Changes(later, ws)[u] == LastCount(steps, u, was))
  {
    hide CommandOf, Run, KeptBy;
    StepCounts(sys, ws, Poll, u);
    CounterIsLast(Next(sys, ws, Poll), ws, steps, u);
    var polled := Next(sys, ws, Poll);
    PollItem();
    assert ["?"][1..] == [];
    assert polled.server == DoItems(Do(sys.server, ws, GetChanges), ws, []);
    PollTellsAll(sys.server, ws);
    CountedAfter(sys.server, ws, GetChanges);
    RunKeepsTold(polled, ws, steps, u);
  }

  /** What a browser that subscribes with one counter learns of an update with another. */
  lemma UpdateIsTold(sv: Server, ws: nat, u: string, known: nat, n: nat)
    requires PlainUri(u) && known < U64_LIMIT && u !in sv.uri2counter && Counted(sv)
    ensures var after := Queue(Handle(sv, ws, "+" + u + "=" + Decimal.Digits(known)), u, n);
            && (u in Changes(after, ws) <==> n != known)
            && (n != known ==> Changes(after, ws)[u] == n)
  {
    var text := "+" + u + "=" + Decimal.Digits(known);
    assert text == AddText(u, Some(known)) by { DigitsOfCounter(known); }
    NewSubscription(sv, ws, u, known);
    Understood(Subscribing(u, Some(known)));
    CounterRead(known);
    hide CommandOf, ParseCounter;
    SplitLast(text, ',');
    assert [text][1..] == [];
    assert DoItems(sv, ws, [text]) == DoItems(Do(sv, ws, Add(u, known)), ws, []);
    NewlyKnown(sv, ws, Add(u, known), u);
    QueueCounts(Handle(sv, ws, text), u, n);
  }

  /** The answer that tells one change. */
  lemma OneChangeText(data: string, u: string, n: nat)
    ensures Tells(data, map[u := n]) <==> data == u + "=" + Decimal.Digits(n)
  {
    hide Decimal.Digits;
    var m: Uris := map[u := n];
    assert [u][..0] == [];
    assert Listed([u], m) == "" + Pair(u, n);
    assert IsOrder([u], m.Keys);
    if Tells(data, m) {
      var order :| IsOrder(order, m.Keys) && data == Listed(order, m);
      assert u in order;
      forall i | 0 <= i < |order| ensures order[i] == u {
        assert order[i] in order;
      }
      if |order| > 1 {
        NotDistinct(order, u);
      }
      assert order == [u];
    }
  }

  lemma NotDistinct(order: seq<string>, u: string)
    requires |order| > 1 && forall i | 0 <= i < |order| :: order[i] == u
    ensures !Distinct(order)
  {
    assert order[0] == order[1];
  }

  lemma DigitsOfCounter(n: nat)
    ensures CounterText(Some(n)) == Decimal.Digits(n)
  {
  }

  /** A new subscription starts with the counter the browser knows; the next poll tells the
      uri if and only if the server knows another one. */
  lemma NewSubscription(sv: Server, ws: nat, u: string, known: nat)
    requires PlainUri(u) && known < U64_LIMIT && u !in UrisOf(sv, ws)
    ensures var after := Handle(sv, ws, AddText(u, Some(known)));
            && UrisOf(after, ws) == UrisOf(sv, ws)[u := known]
            && (u in Changes(after, ws) <==> u in sv.uri2counter && sv.uri2counter[u].current != known)
  {
    Understood(Subscribing(u, Some(known)));
    CounterRead(known);
    hide CommandOf, ParseCounter;
    SplitLast(AddText(u, Some(known)), ',');
    assert [AddText(u, Some(known))][1..] == [];
    assert DoItems(sv, ws, [AddText(u, Some(known))]) == DoItems(Do(sv, ws, Add(u, known)), ws, []);
  }

  // ------------------------------------------------------------ subscribers are counted

  /** How many subscriptions of `u` are held after the steps, when `n` were before. */
  function Held(n: nat, steps: seq<Step>, u: string): nat
    decreases |steps|
  {
    if steps == [] then n
    else match steps[0]
      case Subscribes(v, _) => Held(if v == u then n + 1 else n, steps[1..], u)
      case Unsubscribes(v) => Held(if v == u && n > 0 then n - 1 else n, steps[1..], u)
      case _ => Held(n, steps[1..], u)
  }

  predicate CountIs(c: Client, u: string, n: nat) {
    if n == 0 then u !in c.list else u in c.list && c.list[u].subscribeCounter == n
  }

  lemma {:induction false} ReceivedCounts(list: map<string, Entry>, items: seq<string>, settled: (string, Counter) -> bool)
    ensures var after := Received(list, items, settled);
            after.Keys == list.Keys && forall u | u in list :: after[u].subscribeCounter == list[u].subscribeCounter
    decreases |items|
  {
    if items != [] {
      ReceivedCounts(ReceivedItem(list, items[0], settled), items[1..], settled);
    }
  }

  /** Over any run a uri is given up only when every subscription of it has been. */
  lemma {:induction false} SubscribersCounted(sys: System, ws: nat, steps: seq<Step>, u: string, n: nat)
    requires CountIs(sys.client, u, n) && forall step | step in steps :: Fair(step, ws)
    ensures CountIs(Run(sys, ws, steps).client, u, Held(n, steps, u))
    decreases |steps|
  {
    hide Handle, Queue, JoinAll;
    if steps != [] {
      var next := Next(sys, ws, steps[0]);
      assert Fair(steps[0], ws);
      match steps[0] {
        case Subscribes(v, _) => SubscribersCounted(next, ws, steps[1..], u, if v == u then n + 1 else n);
        case Unsubscribes(v) => SubscribersCounted(next, ws, steps[1..], u, if v == u && n > 0 then n - 1 else n);
        case Receives(text, settled) =>
          ReceivedCounts(sys.client.list, Split(text, ','), settled);
          SubscribersCounted(next, ws, steps[1..], u, n);
        case _ => SubscribersCounted(next, ws, steps[1..], u, n);
      }
    }
  }

  // ------------------------------------------------------- what the browser is told

  function Pairs(order: seq<string>, m: Uris): seq<string>
    requires forall u | u in order :: u in m
  {
    if order == [] then [] else Pairs(order[..|order| - 1], m) + [Pair(order[|order| - 1], m[order[|order| - 1]])]
  }

  lemma {:induction false} SplitSnoc(s: string, token: string, sep: char)
    requires sep !in token
    ensures Split(s + [sep] + token, sep) == Split(s, sep) + [token]
  {
    var t := s + [sep] + token;
    if s == "" {
      SplitLast(token, sep);
      assert t[1..] == token;
    } else {
      SplitSnoc(s[1..], token, sep);
      assert t[1..] == s[1..] + [sep] + token;
    }
  }

  lemma PairSplits(u: string, counter: nat)
    requires PlainUri(u)
    ensures Split(Pair(u, counter), '=') == [u, Decimal.Digits(counter)] && ',' !in Pair(u, counter)
    ensures ParseInt(Decimal.Digits(counter)) == Some(counter)
  {
    assert Decimal.Digits(counter)[0] in Decimal.Digits(counter);
    NoSeparators(Decimal.Digits(counter));
    SplitFirst(u, Decimal.Digits(counter), '=');
    SplitLast(Decimal.Digits(counter), '=');
    Decimal.ValueOfDigits(counter);
  }

  lemma {:induction false} ListedSplits(order: seq<string>, m: Uris)
    requires order != [] && forall u | u in order :: u in m && PlainUri(u)
    ensures Listed(order, m) != "" && Split(Listed(order, m), ',') == Pairs(order, m)
    decreases |order|
  {
    hide Pair;
    var init, u := order[..|order| - 1], order[|order| - 1];
    PairSplits(u, m[u]);
    PairIsText(u, m[u]);
    if init == [] {
      SplitLast(Pair(u, m[u]), ',');
      NothingListed(m);
      assert Listed(order, m) == "" + Pair(u, m[u]) == Pair(u, m[u]);
      assert Pairs(order, m) == [] + [Pair(u, m[u])];
    } else {
      ListedSplits(init, m);
      SplitSnoc(Listed(init, m), Pair(u, m[u]), ',');
    }
  }

  lemma PairIsText(u: string, counter: nat)
    ensures Pair(u, counter) != ""
  {
  }

  lemma ReceivedOne(list: map<string, Entry>, u: string, counter: nat, settled: (string, Counter) -> bool)
    requires PlainUri(u)
    ensures Received(list, [Pair(u, counter)], settled)
         == if u in list && !settled(u, Some(counter)) then list[u := list[u].(updateCounter := Some(counter))] else list
  {
    PairSplits(u, counter);
    assert [Pair(u, counter)][1..] == [];
  }

  lemma {:induction false} ReceivedSnoc(list: map<string, Entry>, items: seq<string>, item: string,
          settled: (string, Counter) -> bool)
    ensures Received(list, items + [item], settled) == Received(Received(list, items, settled), [item], settled)
    decreases |items|
  {
    if items == [] {
      assert items + [item] == [item];
    } else {
      assert (items + [item])[1..] == items[1..] + [item];
      ReceivedSnoc(ReceivedItem(list, items[0], settled), items[1..], item, settled);
    }
  }

  /** What the browser holds after it is told the changes `m`. */
  predicate IsTold(list: map<string, Entry>, after: map<string, Entry>, done: seq<string>, m: Uris,
          settled: (string, Counter) -> bool)
    requires forall u | u in done :: u in m
  {
    && after.Keys == list.Keys
    && forall u | u in list ::
         after[u] == if u in done && !settled(u, Some(m[u])) then list[u].(updateCounter := Some(m[u])) else list[u]
  }

  lemma {:induction false} ReceivedPairs(list: map<string, Entry>, order: seq<string>, m: Uris,
          settled: (string, Counter) -> bool)
    requires forall u | u in order :: u in m && PlainUri(u)
    ensures IsTold(list, Received(list, Pairs(order, m), settled), order, m, settled)
    decreases |order|
  {
    if order != [] {
      var init, u := order[..|order| - 1], order[|order| - 1];
      assert order == init + [u];
      ReceivedPairs(list, init, m, settled);
      ReceivedSnoc(list, Pairs(init, m), Pair(u, m[u]), settled);
      ReceivedOne(Received(list, Pairs(init, m), settled), u, m[u], settled);
    }
  }

  /** The answer to a poll, in whatever order it was written, brings the browser's list up to
      date: every uri told that is still subscribed, and whose individual did not have the
      counter already, gets the current counter, and no other entry changes. */
  lemma PollIsUnderstood(sv: Server, ws: nat, data: string, list: map<string, Entry>, settled: (string, Counter) -> bool)
    requires Tells(data, Changes(sv, ws)) && (forall u | u in Changes(sv, ws) :: PlainUri(u)) && data != ""
    ensures var after := Received(list, Split(data, ','), settled);
            && after.Keys == list.Keys
            && forall u | u in list ::
                 after[u] == if u in Changes(sv, ws) && !settled(u, Some(Changes(sv, ws)[u]))
                             then list[u].(updateCounter := Some(Changes(sv, ws)[u])) else list[u]
  {
    hide Changes, Received;
    var m := Changes(sv, ws);
    var order :| IsOrder(order, m.Keys) && data == Listed(order, m);
    ListedSplits(order, m);
    ReceivedPairs(list, order, m, settled);
  }

  // ------------------------------------------------------------ uris that do not work

  lemma {:induction false} SplitPieces(s: string, sep: char)
    ensures forall token | token in Split(s, sep) :: sep !in token && forall c | c in token :: c in s
  {
    if s != "" {
      SplitPieces(s[1..], sep);
      var rest := Split(s[1..], sep);
      assert rest[0] in rest;
      forall token | token in Split(s, sep) ensures sep !in token && forall c | c in token :: c in s {
        if token !in rest && s[0] != sep {
          assert token == [s[0]] + rest[0];
        }
      }
    }
  }

  lemma CommandIsClean(item: string)
    requires ',' !in item
    ensures var command := CommandOf(item); command.Add? ==> ',' !in command.uri && '=' !in command.uri
  {
    SplitPieces(item, '=');
    var first := Split(item, '=')[0];
    assert first in Split(item, '=');
    if first != "" {
      assert forall c | c in first[1..] :: c in first;
    }
  }

  /** A command never adds a uri with a separator in it. */
  lemma {:induction false} KeysAreClean(keys: set<string>, items: seq<string>)
    requires (forall u | u in keys :: ',' !in u && '=' !in u) && forall item | item in items :: ',' !in item
    ensures forall u | u in ItemsKeys(keys, items) :: ',' !in u && '=' !in u
    decreases |items|
  {
    if items != [] && !CommandOf(items[0]).Handshake? {
      CommandIsClean(items[0]);
      KeysAreClean(CommandKeys(keys, CommandOf(items[0])), items[1..]);
    }
  }

  /** A subscription arrives, next to any others, if and only if the uri holds none of the
      two separators. */
  lemma SubscriptionArrives(keys: set<string>, uri: string, counter: Counter)
    requires forall u | u in keys :: ',' !in u && '=' !in u
    ensures ItemsKeys(keys, Split(AddText(uri, counter), ',')) == keys + {uri} <==> ',' !in uri && '=' !in uri
  {
    hide CommandKeys, ItemsKeys, CommandOf;
    var text := AddText(uri, counter);
    if ',' !in uri && '=' !in uri {
      AddArrives(keys, uri, counter);
    } else {
      SplitPieces(text, ',');
      KeysAreClean(keys, Split(text, ','));
      assert uri in keys + {uri};
    }
  }

  lemma AddArrives(keys: set<string>, uri: string, counter: Counter)
    requires ',' !in uri && '=' !in uri
    ensures ItemsKeys(keys, Split(AddText(uri, counter), ',')) == keys + {uri}
  {
    var text, ds := AddText(uri, counter), CounterText(counter);
    CounterTextClean(counter);
    SplitFirst("+" + uri, ds, '=');
    SplitLast(ds, '=');
    assert ("+" + uri)[1..] == uri && ("+" + uri)[0] == '+' && "ccus"[0] == 'c';
    assert text == "+" + uri + ['='] + ds;
    assert ',' !in text;
    SplitLast(text, ',');
    assert [text][1..] == [];
    assert ItemsKeys(keys + {uri}, []) == keys + {uri};
  }
}
