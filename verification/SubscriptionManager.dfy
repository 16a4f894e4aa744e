/** The manager of subscriptions: for every web socket the counters it was last told, and
    for every uri the current counter, changed by the commands of the sockets and by the
    queue of changed individuals. */
module SubscriptionManager {
  import opened Collections
  import opened Text
  import opened Wrappers
  import Decimal

  type Uris = map<string, nat>

  datatype Counters = Counters(current: nat, subscribers: nat)

  datatype Server = Server(idws2uris: map<nat, Uris>, uri2counter: map<string, Counters>, wsIdGen: nat)

  const U64_LIMIT: int := 0x1_0000_0000_0000_0000
  const U32_LIMIT: int := 0x1_0000_0000

  // ------------------------------------------------------------------ the text of items

  /** `parse` of a 64-bit number; what cannot be read counts as zero. */
  function ParseCounter(s: string): nat {
    var body := if s != "" && s[0] == '+' then s[1..] else s;
    if body != "" && Decimal.AllDigits(body) && Decimal.ValueOf(body) < U64_LIMIT then Decimal.ValueOf(body) else 0
  }

  /** `get(1..)`: what follows a first character of one byte. */
  function AfterFirst(s: string): Option<string> {
    if s != "" && s[0] as int < 128 then Some(s[1..]) else None
  }

  datatype Command =
    | Handshake
    | Add(uri: string, counter: nat)
    | NewSocket
    | GetChanges
    | RemoveAll
    | Remove(uri: string)
    | Nothing
    | NoCommand

  /** What an item of a message asks for. `Nothing` still makes an entry for the socket. */
  function CommandOf(item: string): Command {
    var els := Split(item, '=');
    if |els| == 2 then
      if els[0] == "ccus" then Handshake
      else if AfterFirst(els[0]).Some? then Add(AfterFirst(els[0]).value, ParseCounter(els[1]))
      else NoCommand
    else if |els| == 1 then
      if els[0] == "N" then NewSocket
      else if els[0] == "?" then GetChanges
      else match AfterFirst(els[0])
        case Some(uri) => if uri == "*" then RemoveAll else Remove(uri)
        case None => Nothing
    else NoCommand
  }

  // ------------------------------------------------------------------ what items do

  function UrisOf(sv: Server, from: nat): Uris {
    if from in sv.idws2uris then sv.idws2uris[from] else map[]
  }

  function Less(c: Counters): Counters {
    if c.subscribers > 0 then c.(subscribers := c.subscribers - 1) else c
  }

  /** The counters of `uris`, each with one subscriber less. */
  function AllLess(counters: map<string, Counters>, uris: set<string>): map<string, Counters> {
    map u | u in counters :: if u in uris then Less(counters[u]) else counters[u]
  }

  /** What a socket has to be told: the uris whose counter is not the one it was told. */
  function Changes(sv: Server, from: nat): Uris {
    map u | u in UrisOf(sv, from) && u in sv.uri2counter && sv.uri2counter[u].current != UrisOf(sv, from)[u]
      :: sv.uri2counter[u].current
  }

  function Told(sv: Server, from: nat): Uris {
    map u | u in UrisOf(sv, from)
      :: if u in sv.uri2counter then sv.uri2counter[u].current else UrisOf(sv, from)[u]
  }

  function SetUris(sv: Server, from: nat, uris: Uris): Server {
    sv.(idws2uris := sv.idws2uris[from := uris])
  }

  function Do(sv: Server, from: nat, command: Command): Server {
    var uris := UrisOf(sv, from);
    match command
    case Add(uri, counter) =>
      var told := if uri in uris then uris else uris[uri := counter];
      var c := if uri in sv.uri2counter then sv.uri2counter[uri].(subscribers := sv.uri2counter[uri].subscribers + 1)
               else Counters(counter, 0);
      SetUris(sv, from, told).(uri2counter := sv.uri2counter[uri := c])
    case NewSocket => SetUris(sv, from, uris).(wsIdGen := (sv.wsIdGen + 1) % U32_LIMIT)
    case GetChanges => SetUris(sv, from, Told(sv, from))
    case RemoveAll => SetUris(sv, from, map[]).(uri2counter := AllLess(sv.uri2counter, uris.Keys))
    case Remove(uri) => SetUris(sv, from, uris - {uri}).(uri2counter := AllLess(sv.uri2counter, {uri}))
    case Nothing => SetUris(sv, from, uris)
    case Handshake => sv
    case NoCommand => sv
  }

  /** A handshake ends the handling of a message. */
  function DoItems(sv: Server, from: nat, items: seq<string>): Server
    decreases |items|
  {
    if items == [] || CommandOf(items[0]).Handshake? then sv
    else DoItems(Do(sv, from, CommandOf(items[0])), from, items[1..])
  }

  function Handle(sv: Server, from: nat, data: string): Server {
    DoItems(sv, from, Split(data, ','))
  }

  /** An individual from the queue. */
  function Queue(sv: Server, uri: string, count: nat): Server {
    if uri in sv.uri2counter then
      sv.(uri2counter := sv.uri2counter[uri := sv.uri2counter[uri].(current := count)])
    else sv
  }

  // ---------------------------------------------------------------------- the answer

  function Pair(uri: string, counter: nat): string {
    uri + "=" + Decimal.Digits(counter)
  }

  /** The text of changes told in the order `order`. */
  function Listed(order: seq<string>, m: Uris): string
    requires forall u | u in order :: u in m
  {
    if order == [] then ""
    else
      var init := Listed(order[..|order| - 1], m);
      var u := order[|order| - 1];
      (if |init| > 0 then init + "," else init) + Pair(u, m[u])
  }

  /** `data` tells exactly the changes `m`, each once, in some order. */
  ghost predicate Tells(data: string, m: Uris) {
    exists order :: IsOrder(order, m.Keys) && data == Listed(order, m)
  }

  /** A message of the manager to a socket: its text, and the socket's id. */
  datatype Reply = Reply(data: string, from: nat)

  /** What an item makes of the answer so far. */
  ghost predicate ItemAnswers(sv: Server, from: nat, item: string, was: Reply, now: Reply) {
    match CommandOf(item)
    case GetChanges => Tells(now.data, Changes(sv, from)) && now.from == was.from
    case NewSocket => now == was.(from := Do(sv, from, NewSocket).wsIdGen)
    case _ => now == was
  }

  /** `answer` answers the items, when the answer so far is `was`: the last request for
      changes and the last new socket decide. */
  ghost predicate Answers(sv: Server, from: nat, items: seq<string>, was: Reply, answer: Reply)
    decreases |items|
  {
    if items == [] || CommandOf(items[0]).Handshake? then answer == was
    else
      exists now :: ItemAnswers(sv, from, items[0], was, now)
                    && Answers(Do(sv, from, CommandOf(items[0])), from, items[1..], now, answer)
  }

  lemma SetTwice(m: map<nat, Uris>, from: nat, was: Uris, uris: Uris)
    ensures m[from := was][from := uris] == m[from := uris]
  {
  }

  lemma DoAdd(sv: Server, from: nat, uri: string, counter: nat)
    ensures Do(sv, from, Add(uri, counter))
         == SetUris(sv, from, if uri in UrisOf(sv, from) then UrisOf(sv, from) else UrisOf(sv, from)[uri := counter])
            .(uri2counter := sv.uri2counter[uri :=
                if uri in sv.uri2counter then sv.uri2counter[uri].(subscribers := sv.uri2counter[uri].subscribers + 1)
                else Counters(counter, 0)])
  {
    hide Changes, Told, AllLess;
  }

  lemma NothingListed(m: Uris)
    ensures Listed([], m) == ""
  {
  }

  lemma ListedMore(order: seq<string>, m: Uris, u: string)
    requires u in m && forall v | v in order :: v in m
    ensures Listed(order + [u], m)
         == (if |Listed(order, m)| > 0 then Listed(order, m) + "," else Listed(order, m)) + Pair(u, m[u])
  {
    assert (order + [u])[..|order|] == order;
  }

  /** The counters told when those of `done` have been brought up to date. */
  ghost function PartlyTold(sv: Server, from: nat, done: set<string>): (told: Uris)
    ensures told.Keys == UrisOf(sv, from).Keys
  {
    map u | u in UrisOf(sv, from)
      :: if u in done && u in sv.uri2counter then sv.uri2counter[u].current else UrisOf(sv, from)[u]
  }

  lemma PartlyToldMore(start: Server, before: Server, from: nat, done: set<string>, uri: string)
    requires before == SetUris(start, from, PartlyTold(start, from, done))
    ensures SetUris(before, from, PartlyTold(before, from, {uri})) == SetUris(start, from, PartlyTold(start, from, done + {uri}))
  {
    assert PartlyTold(before, from, {uri}) == PartlyTold(start, from, done + {uri});
  }

  lemma PartlyToldEnds(sv: Server, from: nat)
    ensures PartlyTold(sv, from, {}) == UrisOf(sv, from)
    ensures PartlyTold(sv, from, UrisOf(sv, from).Keys) == Told(sv, from)
    ensures Changes(sv, from).Keys <= UrisOf(sv, from).Keys
  {
  }

  /** A uri that has not been told yet is still to be told what it was at the start. */
  lemma StillChanged(start: Server, before: Server, from: nat, done: set<string>, uri: string)
    requires before == SetUris(start, from, PartlyTold(start, from, done)) && uri !in done
    ensures uri in Changes(before, from) <==> uri in Changes(start, from)
    ensures uri in Changes(start, from) ==> Changes(before, from)[uri] == Changes(start, from)[uri]
  {
  }

  // ------------------------------------------------------------------------ the loop

  class Manager {
    var idws2uris: map<nat, Uris>
    var uri2counter: map<string, Counters>
    var wsIdGen: nat

    ghost function State(): Server
      reads this
    {
      Server(idws2uris, uri2counter, wsIdGen)
    }

    constructor ()
      ensures State() == Server(map[], map[], 0)
    {
      idws2uris := map[];
      uri2counter := map[];
      wsIdGen := 0;
    }

    /** `entry(from).or_default()`. */
    method Entry(from: nat) returns (uris: Uris)
      modifies this
      ensures uris == UrisOf(old(State()), from)
      ensures State() == SetUris(old(State()), from, uris)
    {
      if from !in idws2uris {
        idws2uris := idws2uris[from := map[]];
      }
      uris := idws2uris[from];
      assert idws2uris == idws2uris[from := uris];
    }

    method AddSubscription(from: nat, uri: string, counter: nat)
      modifies this
      ensures State() == Do(old(State()), from, Add(uri, counter))
    {
      hide Do;
      DoAdd(State(), from, uri, counter);
      var uris := Entry(from);
      hide UrisOf;
      if uri !in uris {
        SetTwice(old(idws2uris), from, uris, uris[uri := counter]);
        idws2uris := idws2uris[from := uris[uri := counter]];
      }
      if uri in uri2counter {
        uri2counter := uri2counter[uri := uri2counter[uri].(subscribers := uri2counter[uri].subscribers + 1)];
      } else {
        uri2counter := uri2counter[uri := Counters(counter, 0)];
      }
    }

    /** One uri of the socket: told if its counter has changed. */
    method TellChange(from: nat, uri: string, changes: string) returns (text: string)
      requires from in idws2uris && uri in idws2uris[from]
      modifies this`idws2uris
      ensures var m := Changes(old(State()), from);
              text == if uri !in m then changes
                      else (if |changes| > 0 then changes + "," else changes) + Pair(uri, m[uri])
      ensures State() == SetUris(old(State()), from, PartlyTold(old(State()), from, {uri}))
    {
      var told: Uris := idws2uris[from];
      text := changes;
      if uri in uri2counter && uri2counter[uri].current != told[uri] {
        if |text| > 0 {
          text := text + ",";
        }
        text := text + Pair(uri, uri2counter[uri].current);
        var counter: nat := uri2counter[uri].current;
        told := told[uri := counter];
        idws2uris := idws2uris[from := told];
      }
      assert idws2uris[from] == PartlyTold(old(State()), from, {uri});
    }

    /** Every changed counter is written down and told; the map is visited in no
        particular order. */
    method TellChanges(from: nat) returns (changes: string)
      modifies this
      ensures State() == Do(old(State()), from, GetChanges)
      ensures Tells(changes, Changes(old(State()), from))
    {
      hide Listed, Pair, Changes, Told, PartlyTold, AllLess;
      var uris := Entry(from);
      ghost var start := old(State());
      ghost var all := Changes(start, from);
      ghost var order: seq<string> := [];
      changes := "";
      var todo := uris.Keys;
      ghost var done: set<string> := {};
      PartlyToldEnds(start, from);
      NothingListed(all);
      while todo != {}
        invariant todo + done == uris.Keys && todo !! done
        invariant State() == SetUris(start, from, PartlyTold(start, from, done))
        invariant Distinct(order) && forall u :: u in order <==> u in all && u in done
        invariant changes == Listed(order, all)
        decreases todo
      {
        var uri :| uri in todo;
        todo := todo - {uri};
        ghost var before := State();
        StillChanged(start, before, from, done, uri);
        changes := TellChange(from, uri, changes);
        PartlyToldMore(start, before, from, done, uri);
        if uri in all {
          ListedMore(order, all, uri);
          order := order + [uri];
        }
        done := done + {uri};
      }
      assert done == uris.Keys;
      assert IsOrder(order, all.Keys);
    }

    method RemoveSubscription(from: nat, uri: string)
      modifies this
      ensures State() == Do(old(State()), from, Remove(uri))
    {
      var uris := Entry(from);
      if uri in uris {
        idws2uris := idws2uris[from := uris - {uri}];
      }
      assert uris - {uri} == idws2uris[from];
      OneLess(uri);
    }

    method OneLess(uri: string)
      modifies this`uri2counter
      ensures uri2counter == AllLess(old(uri2counter), {uri})
    {
      if uri in uri2counter && uri2counter[uri].subscribers > 0 {
        uri2counter := uri2counter[uri := Less(uri2counter[uri])];
      }
    }

    method RemoveSubscriptions(from: nat)
      modifies this
      ensures State() == Do(old(State()), from, RemoveAll)
    {
      var uris := Entry(from);
      var todo := uris.Keys;
      ghost var done: set<string> := {};
      while todo != {}
        invariant todo + done == uris.Keys && todo !! done
        invariant wsIdGen == old(wsIdGen) && idws2uris == old(idws2uris)[from := uris]
        invariant uri2counter == AllLess(old(uri2counter), done)
        decreases todo
      {
        var uri :| uri in todo;
        todo := todo - {uri};
        OneLess(uri);
        done := done + {uri};
      }
      assert done == uris.Keys;
      idws2uris := idws2uris[from := map[]];
    }

    /** One item: whether the handling stops, and the answer so far. */
    method HandleItem(from: nat, item: string, was: Reply) returns (stop: bool, out: Reply)
      modifies this
      ensures stop == CommandOf(item).Handshake? && (stop ==> State() == old(State()))
      ensures State() == Do(old(State()), from, CommandOf(item))
      ensures ItemAnswers(old(State()), from, item, was, out)
    {
      stop, out := false, was;
      var els := Split(item, '=');
      if |els| == 2 {
        if els[0] == "ccus" {
          stop := true;
        } else {
          var uri := AfterFirst(els[0]);
          if uri.Some? {
            var counter := ParseCounter(els[1]);
            AddSubscription(from, uri.value, counter);
          }
        }
      } else if |els| == 1 {
        if els[0] == "N" {
          var uris := Entry(from);
          wsIdGen := (wsIdGen + 1) % U32_LIMIT;
          out := Reply(was.data, wsIdGen);
        } else if els[0] == "?" {
          var changes := TellChanges(from);
          out := Reply(changes, was.from);
        } else {
          var uri := AfterFirst(els[0]);
          if uri.None? {
            var uris := Entry(from);
          } else if uri.value == "*" {
            RemoveSubscriptions(from);
          } else {
            RemoveSubscription(from, uri.value);
          }
        }
      }
    }

    /** A message of the socket `from`. */
    method HandleMessage(from: nat, text: string) returns (out: Reply)
      modifies this
      ensures State() == Handle(old(State()), from, text)
      ensures Answers(old(State()), from, Split(text, ','), Reply("", from), out)
    {
      hide Do, CommandOf, ItemAnswers;
      var items := Split(text, ',');
      out := Reply("", from);
      var i := 0;
      while i < |items|
        invariant 0 <= i <= |items|
        invariant DoItems(State(), from, items[i..]) == Handle(old(State()), from, text)
        invariant forall r :: Answers(State(), from, items[i..], out, r)
                              ==> Answers(old(State()), from, items, Reply("", from), r)
      {
        assert items[i..][0] == items[i] && items[i..][1..] == items[i + 1..];
        var stop, next := HandleItem(from, items[i], out);
        if stop {
          return;
        }
        out := next;
        i := i + 1;
      }
    }

    method TakeFromQueue(uri: string, count: nat)
      modifies this
      ensures State() == Queue(old(State()), uri, count)
      ensures uri2counter.Keys == old(uri2counter).Keys && (uri in uri2counter ==> uri2counter[uri].current == count)
    {
      if uri in uri2counter {
        uri2counter := uri2counter[uri := uri2counter[uri].(current := count)];
      }
    }
  }
}
