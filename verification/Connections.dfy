/** The connection bookkeeping of src/pyomb/simulators/server.py, in its processing mode. */
module Connections {
  import opened Bytes

  // Connections are told apart by identity; addresses are only recorded.
  datatype Conn = Conn(id: nat)
  type Address = int

  // The four records the server keeps. The first entry of the read list is the listener.
  datatype Book = Book(
    readList: seq<Conn>, clients: seq<Conn>, peerNames: map<Conn, Address>, lastActivity: map<Conn, real>)

  datatype Settings = Settings(listener: Conn, limit: int, timeout: real)

  // What serving a readable connection comes to: a transport failure or a close, a frame
  // whose handling raised, or a frame handled.
  datatype Event = Gone | Failed | Handled

  // What one pass through the loop meets.
  datatype Input = Input(incoming: Option<(Conn, Address)>, ready: seq<(Conn, Event)>, now: real)

  /** list.remove, where the entry is there. */
  function Without(s: seq<Conn>, c: Conn): seq<Conn> {
    if s == [] then [] else if s[0] == c then s[1..] else [s[0]] + Without(s[1..], c)
  }

  function Forget(b: Book, c: Conn): Book {
    Book(Without(b.readList, c), Without(b.clients, c), b.peerNames - {c}, b.lastActivity - {c})
  }

  function Accept(b: Book, limit: int, c: Conn, address: Address, now: real): Book {
    if |b.readList| - 1 >= limit then b
    else Book(b.readList + [c], b.clients + [c], b.peerNames[c := address], b.lastActivity[c := now])
  }

  function Seen(b: Book, c: Conn, now: real): Book {
    b.(lastActivity := b.lastActivity[c := now])
  }

  function Serve(b: Book, c: Conn, event: Event, now: real): Book {
    match event
    case Gone => Forget(b, c)
    case Failed => Forget(Seen(b, c, now), c)
    case Handled => Seen(b, c, now)
  }

  function ServeAll(b: Book, listener: Conn, ready: seq<(Conn, Event)>, now: real): Book
    decreases |ready|
  {
    if ready == [] then b
    else
      var (c, event) := ready[0];
      ServeAll(if c == listener then b else Serve(b, c, event, now), listener, ready[1..], now)
  }

  predicate Expired(b: Book, s: Settings, c: Conn, now: real) {
    c != s.listener && c in b.lastActivity && b.lastActivity[c] + s.timeout < now
  }

  /** The sweep, over the entries of the list it copied that are still to come. */
  function SweepFrom(b: Book, s: Settings, todo: seq<Conn>, now: real): Book
    decreases |todo|
  {
    if todo == [] then b
    else SweepFrom(if Expired(b, s, todo[0], now) then Forget(b, todo[0]) else b, s, todo[1..], now)
  }

  function Pass(b: Book, s: Settings, input: Input): Book {
    var accepted :=
      match input.incoming
      case Some((c, address)) => Accept(b, s.limit, c, address, input.now)
      case None => b;
    var served := ServeAll(accepted, s.listener, input.ready, input.now);
    SweepFrom(served, s, served.readList, input.now)
  }

  class ModbusServerSimulator {
    const settings: Settings
    var readList: seq<Conn>
    var clients: seq<Conn>
    var peerNames: map<Conn, Address>
    var lastActivity: map<Conn, real>

    function View(): Book
      reads this
    {
      Book(readList, clients, peerNames, lastActivity)
    }

    constructor (settings: Settings)
      ensures this.settings == settings && View() == Opened(settings)
    {
      this.settings := settings;
      readList, clients := [settings.listener], [];
      peerNames, lastActivity := map[], map[];
    }

    method ForgetConnection(c: Conn)
      modifies this
      ensures View() == Forget(old(View()), c)
    {
      WithoutAbsent(readList, c);
      WithoutAbsent(clients, c);
      if c in readList {
        readList := Without(readList, c);
      }
      if c in clients {
        clients := Without(clients, c);
      }
      peerNames := peerNames - {c};
      lastActivity := lastActivity - {c};
    }

    method AcceptConnection(c: Conn, address: Address, now: real)
      modifies this
      ensures View() == Accept(old(View()), settings.limit, c, address, now)
    {
      var clientCount := |readList| - 1;
      if clientCount >= settings.limit {
        return;
      }
      peerNames := peerNames[c := address];
      readList := readList + [c];
      lastActivity := lastActivity[c := now];
      clients := clients + [c];
    }

    method ServeConnection(c: Conn, event: Event, now: real)
      modifies this
      ensures View() == Serve(old(View()), c, event, now)
    {
      if event.Gone? {
        ForgetConnection(c);
        return;
      }
      lastActivity := lastActivity[c := now];
      if event.Failed? {
        ForgetConnection(c);
      }
    }

    method SweepInactive(now: real)
      modifies this
      ensures View() == SweepFrom(old(View()), settings, old(readList), now)
    {
      var copy := readList;
      assert copy[0..] == copy;
      for i := 0 to |copy|
        invariant SweepFrom(View(), settings, copy[i..], now) == SweepFrom(old(View()), settings, copy, now)
      {
        var c := copy[i];
        if c != settings.listener && c in lastActivity && lastActivity[c] + settings.timeout < now {
          ForgetConnection(c);
        }
      }
    }

    /** One pass of run(), once select() has returned. */
    method RunPass(input: Input)
      modifies this
      ensures View() == Pass(old(View()), settings, input)
    {
      if input.incoming.Some? {
        AcceptConnection(input.incoming.value.0, input.incoming.value.1, input.now);
      }
      ghost var accepted := View();
      assert input.ready[0..] == input.ready;
      for i := 0 to |input.ready|
        invariant ServeAll(View(), settings.listener, input.ready[i..], input.now)
               == ServeAll(accepted, settings.listener, input.ready, input.now)
      {
        if input.ready[i].0 != settings.listener {
          ServeConnection(input.ready[i].0, input.ready[i].1, input.now);
        }
      }
      SweepInactive(input.now);
    }
  }

  lemma {:induction false} WithoutAbsent(s: seq<Conn>, c: Conn)
    ensures c !in s ==> Without(s, c) == s
  {
    if s != [] {
      WithoutAbsent(s[1..], c);
      assert s == [s[0]] + s[1..];
    }
  }

  // What every pass keeps.

  function Opened(s: Settings): Book {
    Book([s.listener], [], map[], map[])
  }

  predicate Distinct(s: seq<Conn>) {
    forall i, j :: 0 <= i < j < |s| ==> s[i] != s[j]
  }

  /** The records agree: the same clients, each once, in the order they came, and within the limit. */
  ghost predicate Consistent(b: Book, s: Settings) {
    && b.readList == [s.listener] + b.clients
    && Distinct(b.readList)
    && b.peerNames.Keys == (set c | c in b.clients)
    && b.lastActivity.Keys == (set c | c in b.clients)
    && |b.clients| <= (if s.limit < 0 then 0 else s.limit)
  }

  /** What select() and accept() can return: known connections, each once, and a new one. */
  ghost predicate Possible(b: Book, input: Input) {
    && (input.incoming.Some? ==> input.incoming.value.0 !in b.readList)
    && (forall i :: 0 <= i < |input.ready| ==> input.ready[i].0 in b.readList)
    && DistinctReady(input.ready)
  }

  ghost predicate DistinctReady(ready: seq<(Conn, Event)>) {
    forall i, j :: 0 <= i < j < |ready| ==> ready[i].0 != ready[j].0
  }

  /** The entries of a list that are not in a set, in order. */
  function Filter(s: seq<Conn>, drop: set<Conn>): (kept: seq<Conn>)
    ensures |kept| <= |s|
    ensures forall c :: c in kept <==> c in s && c !in drop
  {
    if s == [] then []
    else if s[0] in drop then Filter(s[1..], drop)
    else [s[0]] + Filter(s[1..], drop)
  }

  function Discard(b: Book, drop: set<Conn>): Book {
    Book(Filter(b.readList, drop), Filter(b.clients, drop), b.peerNames - drop, b.lastActivity - drop)
  }

  lemma {:induction false} FilterNothing(s: seq<Conn>, drop: set<Conn>)
    requires forall c :: c in drop ==> c !in s
    ensures Filter(s, drop) == s
  {
    if s != [] {
      assert s[0] in s && forall c :: c in s[1..] ==> c in s;
      FilterNothing(s[1..], drop);
      assert s == [s[0]] + s[1..];
    }
  }

  lemma {:induction false} WithoutIsFilter(s: seq<Conn>, c: Conn)
    requires Distinct(s)
    ensures Without(s, c) == Filter(s, {c})
  {
    if s != [] {
      if s[0] == c {
        FilterNothing(s[1..], {c});
      } else {
        WithoutIsFilter(s[1..], c);
      }
    }
  }

  lemma {:induction false} FilterTwice(s: seq<Conn>, a: set<Conn>, b: set<Conn>)
    ensures Filter(Filter(s, a), b) == Filter(s, a + b)
  {
    if s != [] {
      FilterTwice(s[1..], a, b);
      if s[0] !in a {
        var rest := Filter(s[1..], a);
        assert Filter(s, a) == [s[0]] + rest && ([s[0]] + rest)[1..] == rest;
      }
    }
  }

  lemma {:induction false} FilterDistinct(s: seq<Conn>, drop: set<Conn>)
    requires Distinct(s)
    ensures Distinct(Filter(s, drop))
  {
    if s != [] {
      FilterDistinct(s[1..], drop);
      assert s[0] !in s[1..];
    }
  }

  lemma {:induction false} DiscardKeeps(b: Book, s: Settings, drop: set<Conn>)
    requires Consistent(b, s) && s.listener !in drop
    ensures Consistent(Discard(b, drop), s)
  {
    FilterDistinct(b.readList, drop);
    assert b.readList[1..] == b.clients;
  }

  lemma {:induction false} ForgetIsDiscard(b: Book, s: Settings, c: Conn)
    requires Consistent(b, s)
    ensures Forget(b, c) == Discard(b, {c})
  {
    assert b.readList[1..] == b.clients;
    WithoutIsFilter(b.readList, c);
    WithoutIsFilter(b.clients, c);
  }

  /** The connections a sweep closes. */
  ghost function ExpiredIn(b: Book, s: Settings, todo: seq<Conn>, now: real): set<Conn> {
    set c | c in todo && Expired(b, s, c, now)
  }

  lemma {:induction false} DiscardTwice(b: Book, x: set<Conn>, y: set<Conn>)
    ensures Discard(Discard(b, x), y) == Discard(b, x + y)
  {
    FilterTwice(b.readList, x, y);
    FilterTwice(b.clients, x, y);
    assert b.peerNames - x - y == b.peerNames - (x + y);
    assert b.lastActivity - x - y == b.lastActivity - (x + y);
  }

  lemma {:induction false} ExpiredElsewhere(b: Book, s: Settings, c: Conn, rest: seq<Conn>, now: real)
    requires c !in rest
    ensures ExpiredIn(Discard(b, {c}), s, rest, now) == ExpiredIn(b, s, rest, now)
  {
  }

  lemma {:induction false} ExpiredSplits(b: Book, s: Settings, todo: seq<Conn>, now: real)
    requires todo != []
    ensures ExpiredIn(b, s, todo, now) ==
      (if Expired(b, s, todo[0], now) then {todo[0]} else {}) + ExpiredIn(b, s, todo[1..], now)
  {
    assert todo == [todo[0]] + todo[1..];
  }

  lemma {:induction false} DiscardNothing(b: Book)
    ensures Discard(b, {}) == b
  {
    FilterNothing(b.readList, {});
    FilterNothing(b.clients, {});
    assert b.peerNames - {} == b.peerNames && b.lastActivity - {} == b.lastActivity;
  }

  lemma {:induction false} SweepIsDiscard(b: Book, s: Settings, todo: seq<Conn>, now: real)
    requires Consistent(b, s) && Distinct(todo)
    ensures SweepFrom(b, s, todo, now) == Discard(b, ExpiredIn(b, s, todo, now))
    decreases |todo|
  {
    hide Consistent, Discard, Forget, ExpiredIn;
    if todo == [] {
      assert ExpiredIn(b, s, todo, now) == {} by { NoneExpired(b, s, now); }
      DiscardNothing(b);
    } else {
      var c, rest := todo[0], todo[1..];
      assert c !in rest && Distinct(rest);
      ExpiredSplits(b, s, todo, now);
      if Expired(b, s, c, now) {
        ForgetIsDiscard(b, s, c);
        DiscardKeeps(b, s, {c});
        SweepIsDiscard(Discard(b, {c}), s, rest, now);
        ExpiredElsewhere(b, s, c, rest, now);
        DiscardTwice(b, {c}, ExpiredIn(b, s, rest, now));
      } else {
        SweepIsDiscard(b, s, rest, now);
        assert {} + ExpiredIn(b, s, rest, now) == ExpiredIn(b, s, rest, now);
      }
    }
  }

  lemma {:induction false} NoneExpired(b: Book, s: Settings, now: real)
    ensures ExpiredIn(b, s, [], now) == {}
  {
  }

  /** A sweep removes exactly the expired connections, from every record, and keeps the rest in order. */
  lemma {:induction false} SweepRemovesExpired(b: Book, s: Settings, now: real)
    requires Consistent(b, s)
    ensures var swept := SweepFrom(b, s, b.readList, now);
      && Consistent(swept, s)
      && swept.clients == Filter(b.clients, set c | c in b.clients && b.lastActivity[c] + s.timeout < now)
      && forall c :: c in swept.clients ==>
        swept.lastActivity[c] == b.lastActivity[c] && swept.peerNames[c] == b.peerNames[c]
  {
    hide Consistent, Discard, Filter, SweepFrom, ExpiredIn;
    ClientsKnown(b, s);
    var drop := set c | c in b.clients && b.lastActivity[c] + s.timeout < now;
    SweepIsDiscard(b, s, b.readList, now);
    ExpiredAre(b, s, now);
    ListenerIsNoClient(b, s);
    DiscardKeeps(b, s, drop);
    DiscardLeaves(b, s, drop);
  }

  lemma {:induction false} ClientsKnown(b: Book, s: Settings)
    requires Consistent(b, s)
    ensures Distinct(b.readList) && forall c :: c in b.clients ==> c in b.lastActivity && c in b.peerNames
  {
  }

  lemma {:induction false} ExpiredAre(b: Book, s: Settings, now: real)
    requires Consistent(b, s)
    ensures ExpiredIn(b, s, b.readList, now) == set c | c in b.clients && b.lastActivity[c] + s.timeout < now
  {
    ListenerIsNoClient(b, s);
  }

  lemma {:induction false} DiscardLeaves(b: Book, s: Settings, drop: set<Conn>)
    requires Consistent(b, s)
    ensures var left := Discard(b, drop);
      && left.clients == Filter(b.clients, drop)
      && forall c :: c in left.clients ==>
        && c in left.lastActivity && left.lastActivity[c] == b.lastActivity[c]
        && c in left.peerNames && left.peerNames[c] == b.peerNames[c]
  {
  }

  lemma {:induction false} AcceptKeeps(b: Book, s: Settings, c: Conn, address: Address, now: real)
    requires Consistent(b, s) && c !in b.readList
    ensures Consistent(Accept(b, s.limit, c, address, now), s)
    ensures c in Accept(b, s.limit, c, address, now).clients <==> |b.clients| < s.limit
  {
    var after := Accept(b, s.limit, c, address, now);
    if after != b {
      assert after.clients == b.clients + [c];
      assert b.readList + [c] == [s.listener] + (b.clients + [c]);
      assert (set x | x in after.clients) == (set x | x in b.clients) + {c};
    }
  }

  lemma {:induction false} SeenKeeps(b: Book, s: Settings, c: Conn, now: real)
    requires Consistent(b, s) && c in b.clients
    ensures Consistent(Seen(b, c, now), s)
  {
    assert Seen(b, c, now).lastActivity.Keys == b.lastActivity.Keys + {c};
  }

  lemma {:induction false} ListenerIsNoClient(b: Book, s: Settings)
    requires Consistent(b, s)
    ensures s.listener !in b.clients
  {
    assert b.readList[0] == s.listener && b.readList[1..] == b.clients;
    assert forall j :: 0 <= j < |b.clients| ==> b.clients[j] == b.readList[j + 1];
  }

  lemma {:induction false} ServeKeeps(b: Book, s: Settings, c: Conn, event: Event, now: real)
    requires Consistent(b, s) && c in b.clients
    ensures Consistent(Serve(b, c, event, now), s)
    ensures forall x :: x in b.clients && x != c ==> x in Serve(b, c, event, now).clients
    ensures event == Handled ==> Serve(b, c, event, now).clients == b.clients
    ensures event != Handled ==> Serve(b, c, event, now).clients == Filter(b.clients, {c})
  {
    hide Consistent, Forget, Filter;
    SeenKeeps(b, s, c, now);
    ListenerIsNoClient(b, s);
    if event != Handled {
      var at := if event == Gone then b else Seen(b, c, now);
      ForgetIsDiscard(at, s, c);
      DiscardKeeps(at, s, {c});
    }
  }

  lemma {:induction false} ServeAllKeeps(b: Book, s: Settings, ready: seq<(Conn, Event)>, now: real)
    requires Consistent(b, s) && DistinctReady(ready)
    requires forall i :: 0 <= i < |ready| ==> ready[i].0 in b.readList
    ensures Consistent(ServeAll(b, s.listener, ready, now), s)
    decreases |ready|
  {
    if ready != [] {
      var (c, event) := ready[0];
      assert ready[0].0 in b.readList;
      var after := if c == s.listener then b else Serve(b, c, event, now);
      if c != s.listener {
        ServeKeeps(b, s, c, event, now);
      }
      forall i | 0 <= i < |ready[1..]| ensures ready[1..][i].0 in after.readList {
        assert ready[1..][i] == ready[i + 1] && ready[0].0 != ready[i + 1].0;
      }
      ServeAllKeeps(after, s, ready[1..], now);
    }
  }

  lemma {:induction false} PassKeeps(b: Book, s: Settings, input: Input)
    requires Consistent(b, s) && Possible(b, input)
    ensures Consistent(Pass(b, s, input), s)
  {
    var accepted := match input.incoming
      case Some((c, address)) => Accept(b, s.limit, c, address, input.now)
      case None => b;
    if input.incoming.Some? {
      AcceptKeeps(b, s, input.incoming.value.0, input.incoming.value.1, input.now);
    }
    ServeAllKeeps(accepted, s, input.ready, input.now);
    SweepRemovesExpired(ServeAll(accepted, s.listener, input.ready, input.now), s, input.now);
  }

  function After(s: Settings, inputs: seq<Input>): Book {
    if inputs == [] then Opened(s) else Pass(After(s, inputs[..|inputs| - 1]), s, inputs[|inputs| - 1])
  }

  /** Every input was possible when it came. */
  ghost predicate PossibleRun(s: Settings, inputs: seq<Input>) {
    inputs != [] ==>
      && PossibleRun(s, inputs[..|inputs| - 1])
      && Possible(After(s, inputs[..|inputs| - 1]), inputs[|inputs| - 1])
  }

  /** After every pass of every run the records agree and the limit holds. */
  lemma {:induction false} EveryRunConsistent(s: Settings, inputs: seq<Input>)
    requires PossibleRun(s, inputs)
    ensures Consistent(After(s, inputs), s)
    decreases |inputs|
  {
    if inputs != [] {
      EveryRunConsistent(s, inputs[..|inputs| - 1]);
      PassKeeps(After(s, inputs[..|inputs| - 1]), s, inputs[|inputs| - 1]);
    }
  }

  // What becomes of one connection in a pass.

  /** What serving a connection came to, if it was ready. */
  function EventOf(ready: seq<(Conn, Event)>, c: Conn): Option<Event> {
    if ready == [] then None
    else if ready[0].0 == c then Some(ready[0].1)
    else EventOf(ready[1..], c)
  }

  /** Known by an address, and last heard from at `time`. */
  ghost predicate HeardAt(b: Book, c: Conn, address: Address, time: real) {
    && c in b.clients
    && c in b.peerNames && b.peerNames[c] == address
    && c in b.lastActivity && b.lastActivity[c] == time
  }

  lemma {:induction false} ServeOthers(
      b: Book, s: Settings, c: Conn, event: Event, now: real, x: Conn, address: Address, time: real)
    requires Consistent(b, s) && c in b.clients && x != c
    ensures HeardAt(Serve(b, c, event, now), x, address, time) <==> HeardAt(b, x, address, time)
    ensures x in Serve(b, c, event, now).clients <==> x in b.clients
  {
    hide Consistent;
    WithoutOthers(b.clients, c, x);
  }

  lemma {:induction false} WithoutOthers(s: seq<Conn>, c: Conn, x: Conn)
    requires x != c
    ensures x in Without(s, c) <==> x in s
  {
    if s != [] {
      WithoutOthers(s[1..], c, x);
      assert s == [s[0]] + s[1..];
    }
  }

  lemma {:induction false} NeverReady(ready: seq<(Conn, Event)>, c: Conn)
    requires forall i :: 0 <= i < |ready| ==> ready[i].0 != c
    ensures EventOf(ready, c) == None
  {
    if ready != [] {
      NeverReady(ready[1..], c);
    }
  }

  /** Serving drops whoever failed, stamps whoever was heard, and leaves the others alone. */
  lemma {:induction false} ServeAllOn(
      b: Book, s: Settings, ready: seq<(Conn, Event)>, now: real, x: Conn, address: Address, time: real)
    requires Consistent(b, s) && DistinctReady(ready) && HeardAt(b, x, address, time)
    requires forall i :: 0 <= i < |ready| ==> ready[i].0 in b.readList
    ensures var served := ServeAll(b, s.listener, ready, now);
      match EventOf(ready, x)
      case None => HeardAt(served, x, address, time)
      case Some(Handled) => HeardAt(served, x, address, now)
      case Some(_) => x !in served.clients
    decreases |ready|
  {
    hide Consistent, Serve;
    if ready != [] {
      var (c, event) := ready[0];
      var after := if c == s.listener then b else Serve(b, c, event, now);
      ReadyStep(b, s, ready, now);
      ListenerIsNoClient(b, s);
      if c == x {
        ServedNow(b, s, x, event, now, address);
        NeverReady(ready[1..], x);
        if event == Handled {
          ServeAllOn(after, s, ready[1..], now, x, address, now);
        } else {
          ServeAllAddsNone(after, s, ready[1..], now, x);
        }
      } else {
        if c != s.listener {
          ServeOthers(b, s, c, event, now, x, address, time);
        }
        ServeAllOn(after, s, ready[1..], now, x, address, time);
      }
    }
  }

  lemma {:induction false} ServedNow(b: Book, s: Settings, c: Conn, event: Event, now: real, address: Address)
    requires Consistent(b, s) && c in b.clients && c in b.peerNames && b.peerNames[c] == address
    ensures if event == Handled then HeardAt(Serve(b, c, event, now), c, address, now)
      else c !in Serve(b, c, event, now).clients
  {
    ServeKeeps(b, s, c, event, now);
  }

  /** One connection served, the others can still be. */
  lemma {:induction false} ReadyStep(b: Book, s: Settings, ready: seq<(Conn, Event)>, now: real)
    requires Consistent(b, s) && DistinctReady(ready) && ready != []
    requires forall i :: 0 <= i < |ready| ==> ready[i].0 in b.readList
    ensures var (c, event) := ready[0];
      var after := if c == s.listener then b else Serve(b, c, event, now);
      && Consistent(after, s) && DistinctReady(ready[1..])
      && (c != s.listener ==> c in b.clients)
      && (forall i :: 0 <= i < |ready[1..]| ==> ready[1..][i].0 in after.readList)
      && (forall i :: 0 <= i < |ready[1..]| ==> ready[1..][i].0 != c)
  {
    var (c, event) := ready[0];
    assert ready[0].0 in b.readList;
    var after := if c == s.listener then b else Serve(b, c, event, now);
    if c != s.listener {
      ServeKeeps(b, s, c, event, now);
    }
    forall i | 0 <= i < |ready[1..]| ensures ready[1..][i].0 in after.readList && ready[1..][i].0 != c {
      assert ready[1..][i] == ready[i + 1] && ready[0].0 != ready[i + 1].0;
    }
  }

  lemma {:induction false} ServeAllAddsNone(b: Book, s: Settings, ready: seq<(Conn, Event)>, now: real, x: Conn)
    requires Consistent(b, s) && DistinctReady(ready) && x !in b.clients
    requires forall i :: 0 <= i < |ready| ==> ready[i].0 in b.readList
    ensures x !in ServeAll(b, s.listener, ready, now).clients
    decreases |ready|
  {
    hide Consistent, Serve;
    if ready != [] {
      var (c, event) := ready[0];
      ReadyStep(b, s, ready, now);
      var after := if c == s.listener then b else Serve(b, c, event, now);
      if c != s.listener {
        ServeOthers(b, s, c, event, now, x, 0, now);
      }
      ServeAllAddsNone(after, s, ready[1..], now, x);
    }
  }

  /** When a connection was last heard from once a pass has served it, if it is still there. */
  function LastHeard(last: real, event: Option<Event>, now: real): Option<real> {
    match event
    case None => Some(last)
    case Some(Handled) => Some(now)
    case Some(_) => None
  }

  /**
   A client survives a pass exactly when serving it did not fail and it has been heard from
   within the timeout, this pass included; the time it was heard is what is remembered, and
   its address is still the one it had.
   */
  lemma {:induction false} PassOutcome(b: Book, s: Settings, input: Input, c: Conn)
    requires Consistent(b, s) && Possible(b, input) && c in b.clients
    ensures var passed := Pass(b, s, input);
      match LastHeard(b.lastActivity[c], EventOf(input.ready, c), input.now)
      case None => c !in passed.clients
      case Some(time) =>
        && (c in passed.clients <==> time + s.timeout >= input.now)
        && (c in passed.clients ==> HeardAt(passed, c, b.peerNames[c], time))
  {
    hide Accept, SweepFrom, ServeAll, Filter;
    var accepted := match input.incoming
      case Some((n, address)) => Accept(b, s.limit, n, address, input.now)
      case None => b;
    if input.incoming.Some? {
      AcceptKeeps(b, s, input.incoming.value.0, input.incoming.value.1, input.now);
      AcceptAdds(b, s, input.incoming.value.0, input.incoming.value.1, input.now, c);
    }
    ServeAllKeeps(accepted, s, input.ready, input.now);
    ServeAllOn(accepted, s, input.ready, input.now, c, b.peerNames[c], b.lastActivity[c]);
    var served := ServeAll(accepted, s.listener, input.ready, input.now);
    SweepRemovesExpired(served, s, input.now);
  }

  /**
   A connection that was not a client is one after the pass exactly when it is the one that
   came in, there was room for it, and the timeout is no negative time. Its address is the
   one it came from.
   */
  lemma {:induction false} PassAdmits(b: Book, s: Settings, input: Input, c: Conn)
    requires Consistent(b, s) && Possible(b, input) && c !in b.clients
    ensures var passed := Pass(b, s, input);
      && (c in passed.clients <==>
        && input.incoming.Some? && input.incoming.value.0 == c
        && |b.clients| < s.limit && s.timeout >= 0.0)
      && (c in passed.clients ==> HeardAt(passed, c, input.incoming.value.1, input.now))
  {
    hide SweepFrom, ServeAll, Filter;
    var accepted := match input.incoming
      case Some((n, address)) => Accept(b, s.limit, n, address, input.now)
      case None => b;
    if input.incoming.Some? {
      AcceptKeeps(b, s, input.incoming.value.0, input.incoming.value.1, input.now);
    }
    assert b.readList <= accepted.readList;
    assert forall i :: 0 <= i < |input.ready| ==> input.ready[i].0 in accepted.readList;
    hide Accept;
    ServeAllKeeps(accepted, s, input.ready, input.now);
    var served := ServeAll(accepted, s.listener, input.ready, input.now);
    SweepRemovesExpired(served, s, input.now);
    if c in accepted.clients {
      NeverReady(input.ready, c);
      ServeAllOn(accepted, s, input.ready, input.now, c, input.incoming.value.1, input.now);
    } else {
      ServeAllAddsNone(accepted, s, input.ready, input.now, c);
    }
  }

  lemma {:induction false} AcceptAdds(b: Book, s: Settings, n: Conn, address: Address, now: real, c: Conn)
    requires Consistent(b, s) && n !in b.readList && c in b.clients
    ensures HeardAt(Accept(b, s.limit, n, address, now), c, b.peerNames[c], b.lastActivity[c])
    ensures forall x :: x in b.readList ==> x in Accept(b, s.limit, n, address, now).readList
  {
  }

  /** Serving takes clients out of the list and leaves the others in their order. */
  lemma {:induction false} ServeAllFilters(b: Book, s: Settings, ready: seq<(Conn, Event)>, now: real)
      returns (gone: set<Conn>)
    requires Consistent(b, s) && DistinctReady(ready)
    requires forall i :: 0 <= i < |ready| ==> ready[i].0 in b.readList
    ensures ServeAll(b, s.listener, ready, now).clients == Filter(b.clients, gone)
    decreases |ready|
  {
    hide Consistent, Serve, Filter;
    gone := {};
    FilterNothing(b.clients, {});
    if ready != [] {
      var (c, event) := ready[0];
      var after := if c == s.listener then b else Serve(b, c, event, now);
      ReadyStep(b, s, ready, now);
      var later := ServeAllFilters(after, s, ready[1..], now);
      var first: set<Conn> := if c == s.listener || event == Handled then {} else {c};
      if c != s.listener {
        ServeKeeps(b, s, c, event, now);
      }
      FilterTwice(b.clients, first, later);
      gone := first + later;
    }
  }

  /** Clients stay in the order they came: a pass adds the newcomer at the end and takes some out. */
  lemma {:induction false} PassKeepsOrder(b: Book, s: Settings, input: Input) returns (gone: set<Conn>)
    requires Consistent(b, s) && Possible(b, input)
    ensures var newcomer := if input.incoming.Some? && |b.clients| < s.limit then [input.incoming.value.0] else [];
      Pass(b, s, input).clients == Filter(b.clients + newcomer, gone)
  {
    hide SweepFrom, ServeAll, Filter;
    var accepted := match input.incoming
      case Some((n, address)) => Accept(b, s.limit, n, address, input.now)
      case None => b;
    if input.incoming.Some? {
      AcceptKeeps(b, s, input.incoming.value.0, input.incoming.value.1, input.now);
    }
    assert b.clients + [] == b.clients && b.readList <= accepted.readList;
    assert forall i :: 0 <= i < |input.ready| ==> input.ready[i].0 in accepted.readList;
    ServeAllKeeps(accepted, s, input.ready, input.now);
    var served := ServeAll(accepted, s.listener, input.ready, input.now);
    var dropped := ServeAllFilters(accepted, s, input.ready, input.now);
    var expired := set c | c in served.clients && served.lastActivity[c] + s.timeout < input.now;
    SweepRemovesExpired(served, s, input.now);
    FilterTwice(accepted.clients, dropped, expired);
    gone := dropped + expired;
  }
}
