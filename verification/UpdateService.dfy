/** The browser's side of the subscriptions: what is subscribed, and the commands that
    wait in a buffer until a timer sends them. */
module UpdateService {
  import opened Collections
  import opened Text
  import opened Wrappers
  import Decimal

  /** A number, or `None` for JavaScript's NaN. */
  type Counter = Option<int>

  datatype Entry = Entry(subscribeCounter: nat, updateCounter: Counter)

  /** `wire` holds the messages sent and not handled yet, oldest first. */
  datatype Client = Client(list: map<string, Entry>, buffer: seq<string>, timer: bool, wire: seq<string>)

  function CounterText(counter: Counter): string {
    match counter
    case None => "NaN"
    case Some(n) => Decimal.SignOf(n) + Decimal.Digits(Decimal.Abs(n))
  }

  function AddText(uri: string, counter: Counter): string {
    "+" + uri + "=" + CounterText(counter)
  }

  function RemoveText(uri: string): string {
    "-" + uri
  }

  predicate StartsWith(s: string, prefix: string) {
    prefix <= s
  }

  function JoinAll(tokens: seq<string>): string {
    if tokens == [] then "" else Join(tokens, ',')
  }

  /** On an open socket: handshakes and `-*` are sent at once, the rest is buffered. */
  function Send(c: Client, msg: string): Client {
    if msg == "=" || msg == "-*" || StartsWith(msg, "ccus") then c.(wire := c.wire + [msg])
    else c.(buffer := c.buffer + [msg], timer := true)
  }

  function TimerFires(c: Client): Client {
    c.(wire := c.wire + [JoinAll(c.buffer)], buffer := [], timer := false)
  }

  /** `known` is the counter the individual itself has, or zero. */
  function Subscribe(c: Client, uri: string, known: int): Client {
    if uri in c.list then c.(list := c.list[uri := c.list[uri].(subscribeCounter := c.list[uri].subscribeCounter + 1)])
    else Send(c.(list := c.list[uri := Entry(1, Some(known))]), AddText(uri, Some(known)))
  }

  function Unsubscribe(c: Client, uri: string): Client {
    if uri == "" then Send(c.(list := map[]), "-*")
    else if uri in c.list && c.list[uri].subscribeCounter > 1 then
      c.(list := c.list[uri := c.list[uri].(subscribeCounter := c.list[uri].subscribeCounter - 1)])
    else Send(c.(list := c.list - {uri}), RemoveText(uri))
  }

  /** What a restored subscription of the uris `order` sends. */
  function SendAdds(c: Client, order: seq<string>): Client
    requires forall u | u in order :: u in c.list
  {
    if order == [] then c
    else
      var init := order[..|order| - 1];
      var u := order[|order| - 1];
      var before := SendAdds(c, init);
      Send(before, AddText(u, c.list[u].updateCounter))
  }

  /** A socket opened: the handshake, `-*`, and every subscription again. */
  function Opened(c: Client, ticket: string, order: seq<string>): Client
    requires forall u | u in order :: u in c.list
  {
    SendAdds(Send(Send(c, "ccus=" + ticket), "-*"), order)
  }

  /** What one item of a message from the server changes in the list: `settled(uri, counter)`
      says that the individual has that counter already or is a draft. */
  function ReceivedItem(list: map<string, Entry>, item: string, settled: (string, Counter) -> bool): map<string, Entry> {
    var tmp := Split(item, '=');
    var counter := if |tmp| > 1 then ParseInt(tmp[1]) else None;
    if tmp[0] != "" && !settled(tmp[0], counter) && tmp[0] in list
    then list[tmp[0] := list[tmp[0]].(updateCounter := counter)]
    else list
  }

  function Received(list: map<string, Entry>, items: seq<string>, settled: (string, Counter) -> bool): map<string, Entry> {
    if items == [] then list else Received(ReceivedItem(list, items[0], settled), items[1..], settled)
  }

  /** `parseInt`: a sign and the digits after it, whatever follows them; NaN when there are
      none. */
  function ParseInt(s: string): Counter {
    var digits := Decimal.DigitPrefix(Decimal.Unsigned(s));
    if digits == "" then None
    else Some(if Decimal.IsNegative(s) then -(Decimal.ValueOf(digits) as int) else Decimal.ValueOf(digits) as int)
  }

  class Service {
    var list: map<string, Entry>
    var buffer: seq<string>
    var timer: bool
    var wire: seq<string>

    ghost function State(): Client
      reads this
    {
      Client(list, buffer, timer, wire)
    }

    constructor ()
      ensures State() == Client(map[], [], false, [])
    {
      list := map[];
      buffer := [];
      timer := false;
      wire := [];
    }

    method SendMessage(msg: string)
      modifies this
      ensures State() == Send(old(State()), msg)
    {
      if msg == "=" || msg == "-*" || StartsWith(msg, "ccus") {
        wire := wire + [msg];
        return;
      }
      buffer := buffer + [msg];
      if !timer {
        timer := true;
      }
    }

    method OnTimer()
      requires timer
      modifies this
      ensures State() == TimerFires(old(State()))
    {
      var message := JoinAll(buffer);
      wire := wire + [message];
      buffer := [];
      timer := false;
    }

    method SubscribeTo(uri: string, known: int)
      modifies this
      ensures State() == Subscribe(old(State()), uri, known)
    {
      if uri in list {
        list := list[uri := list[uri].(subscribeCounter := list[uri].subscribeCounter + 1)];
      } else {
        list := list[uri := Entry(1, Some(known))];
        SendMessage("+" + uri + "=" + CounterText(Some(known)));
      }
    }

    method UnsubscribeFrom(uri: string)
      modifies this
      ensures State() == Unsubscribe(old(State()), uri)
    {
      if uri == "" {
        list := map[];
        SendMessage("-*");
      } else if uri in list && list[uri].subscribeCounter > 1 {
        list := list[uri := list[uri].(subscribeCounter := list[uri].subscribeCounter - 1)];
      } else {
        list := list - {uri};
        SendMessage("-" + uri);
      }
    }

    method OnOpen(ticket: string) returns (ghost order: seq<string>)
      modifies this
      ensures IsOrder(order, old(list).Keys)
      ensures State() == Opened(old(State()), ticket, order)
    {
      SendMessage("ccus=" + ticket);
      order := Restore();
    }

    method Restore() returns (ghost order: seq<string>)
      modifies this
      ensures IsOrder(order, old(list).Keys)
      ensures State() == SendAdds(Send(old(State()), "-*"), order)
    {
      SendMessage("-*");
      ghost var start := State();
      order := [];
      var todo := list.Keys;
      while todo != {}
        invariant todo <= list.Keys && list == start.list
        invariant IsOrder(order, list.Keys - todo)
        invariant State() == SendAdds(start, order)
        decreases todo
      {
        var uri :| uri in todo;
        todo := todo - {uri};
        SendMessage("+" + uri + "=" + CounterText(list[uri].updateCounter));
        assert (order + [uri])[..|order|] == order;
        order := order + [uri];
      }
    }

    /** A message from the server; a first `=` is dropped. */
    method ReceiveMessage(msg: string, settled: (string, Counter) -> bool)
      modifies this`list
      ensures var text := if StartsWith(msg, "=") then msg[1..] else msg;
              list == if text == "" then old(list) else Received(old(list), Split(text, ','), settled)
    {
      var text := if StartsWith(msg, "=") then msg[1..] else msg;
      if text == "" {
        return;
      }
      var uris := Split(text, ',');
      var i := 0;
      while i < |uris|
        invariant 0 <= i <= |uris|
        invariant Received(list, uris[i..], settled) == Received(old(list), uris, settled)
      {
        assert uris[i..][0] == uris[i] && uris[i..][1..] == uris[i + 1..];
        var tmp := Split(uris[i], '=');
        var uri := tmp[0];
        if uri != "" {
          var counter := if |tmp| > 1 then ParseInt(tmp[1]) else None;
          if !settled(uri, counter) && uri in list {
            list := list[uri := list[uri].(updateCounter := counter)];
          }
        }
        i := i + 1;
      }
    }
  }
}
