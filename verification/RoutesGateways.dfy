/** Which gateway the routes go through, and which routes are taken away. */
module RoutesGateways {
  import opened Common
  import opened Strings
  import opened Routes
  import opened RoutesProperties

  // ---- a routing table with gateways ----

  datatype Entry = Entry(route: Route, gw: string)

  type GwTable = set<Entry>

  function Without(table: GwTable, r: Route): GwTable {
    set e | e in table && e.route != r
  }

  /** An added route goes through its gateway; a deleted one goes whatever its gateway. */
  function PerformOne(table: GwTable, o: Out): GwTable {
    match o
    case AddCmd(r, gw) => table + {Entry(r, gw)}
    case DelCmd(r, _) => Without(table, r)
    case Purge(r) => Without(table, r)
    case _ => table
  }

  function Perform(table: GwTable, out: seq<Out>): GwTable {
    if out == [] then table else PerformOne(Perform(table, out[..|out| - 1]), out[|out| - 1])
  }

  // ---- netdefs ----

  /** A plain address is a host, one with a mask a network, and one with more parts a host again;
      an invalid one is none, and its address is empty. */
  lemma NetdefParses(ip: string, mask: string, more: string, valid: AddressCheck)
    requires '/' !in ip && '/' !in mask
    ensures ParseNetdef(ip + "/" + mask + "/" + more, valid) ==
            if valid(ip) then Some(Route(ip, "255.255.255.255")) else None
    ensures Ip(ip, valid) == (if valid(ip) then ip else "")
    ensures Ip(ip + "/" + mask, valid) == (if valid(ip) && valid(mask) then ip else "")
    ensures ParseNetdef(ip, valid) == if valid(ip) then Some(Route(ip, "255.255.255.255")) else None
    ensures ParseNetdef(ip + "/" + mask, valid) == if valid(ip) && valid(mask) then Some(Route(ip, mask)) else None
  {
    hide Split;
    SplitWhole(ip, '/');
    SplitNetdef(ip, mask);
    SplitAfter(ip, '/', mask + ['/'] + more);
    SplitAfter(mask, '/', more);
    assert ip + "/" + mask == ip + ['/'] + mask;
    assert ip + "/" + mask + "/" + more == ip + ['/'] + (mask + ['/'] + more);
  }

  // ---- stopping ----

  /** A row shows a route of the gateway. */
  predicate RowShows(row: Row, gateway: string, r: Route, valid: AddressCheck) {
    row.dest != "default" && row.gateway == gateway && ParseNetdef(row.dest, valid) == Some(r)
  }

  ghost predicate SomeRowShows(rows: seq<Row>, gateway: string, r: Route, valid: AddressCheck) {
    exists i :: 0 <= i < |rows| && RowShows(rows[i], gateway, r, valid)
  }

  lemma ShowsLast(rows: seq<Row>, gateway: string, r: Route, valid: AddressCheck)
    requires rows != []
    ensures SomeRowShows(rows, gateway, r, valid) <==>
            SomeRowShows(rows[..|rows| - 1], gateway, r, valid) || RowShows(rows[|rows| - 1], gateway, r, valid)
  {
    hide RowShows;
    var front := rows[..|rows| - 1];
    assert forall i :: 0 <= i < |front| ==> front[i] == rows[i];
    if SomeRowShows(front, gateway, r, valid) {
      var i :| 0 <= i < |front| && RowShows(front[i], gateway, r, valid);
      assert RowShows(rows[i], gateway, r, valid);
    }
  }

  /** The removing loop removes exactly the routes that some row shows with the gateway. */
  lemma {:induction false} PurgesIff(rows: seq<Row>, gateway: string, r: Route, valid: AddressCheck)
    ensures Purge(r) in Purges(rows, gateway, valid) <==> SomeRowShows(rows, gateway, r, valid)
  {
    if rows != [] {
      var front, row := rows[..|rows| - 1], rows[|rows| - 1];
      PurgesIff(front, gateway, r, valid);
      ShowsLast(rows, gateway, r, valid);
      hide ParseNetdef, SomeRowShows;
    }
  }

  lemma {:induction false} PerformPurges(table: GwTable, out: seq<Out>, e: Entry)
    requires forall o :: o in out ==> o.Purge?
    ensures e in Perform(table, out) <==> e in table && Purge(e.route) !in out
  {
    if out != [] {
      var front, o := out[..|out| - 1], out[|out| - 1];
      assert out == front + [o] && o in out;
      PerformPurges(table, front, e);
    }
  }

  /** A stop with no read failed or in flight takes away exactly the entries whose route is
      shown with the gateway; with one, it takes away nothing. */
  lemma StopRemoves(evs: seq<Event>, rows: seq<Row>, table: GwTable, e: Entry, valid: AddressCheck)
    ensures var n := State(evs, valid);
            var removes := n.gateway != "" && !ReadFailed(evs, valid) && !ReadInFlight(evs, valid);
            e in Perform(table, LastOut(evs + [Stop(rows)], valid)) <==>
            e in table && !(removes && SomeRowShows(rows, n.gateway, e.route, valid))
  {
    hide Purges, State, LastOut, Step, ReadFailed, ReadInFlight, Perform, SomeRowShows;
    var n := State(evs, valid);
    NextEvent(evs, Stop(rows), valid);
    StopOut(n, rows, valid);
    ReaderIff(evs, valid);
    PurgesIff(rows, n.gateway, e.route, valid);
    PurgesOnly(rows, n.gateway, valid);
    PerformPurges(table, Purges(rows, n.gateway, valid), e);
    PerformPurges(table, [], e);
  }

  /** The listing of a table with gateways: a row for every entry, and no other. */
  ghost predicate PrintsEntries(rows: seq<Row>, table: GwTable, valid: AddressCheck) {
    && (forall e :: e in table ==> SomeRowShows(rows, e.gw, e.route, valid))
    && (forall e: Entry :: SomeRowShows(rows, e.gw, e.route, valid) ==> e in table)
  }

  /** Over the listing of a table in which no route is there twice, a stop takes away every
      entry of the gateway and leaves all others. */
  lemma StopClearsGateway(evs: seq<Event>, rows: seq<Row>, table: GwTable, valid: AddressCheck)
    requires State(evs, valid).gateway != "" && !ReadFailed(evs, valid) && !ReadInFlight(evs, valid)
    requires PrintsEntries(rows, table, valid)
    requires forall e, f :: e in table && f in table && e.route == f.route ==> e == f
    ensures Perform(table, LastOut(evs + [Stop(rows)], valid)) ==
            set e | e in table && e.gw != State(evs, valid).gateway
  {
    hide State, LastOut, ReadFailed, ReadInFlight, Perform, SomeRowShows;
    var g := State(evs, valid).gateway;
    forall e
      ensures e in Perform(table, LastOut(evs + [Stop(rows)], valid)) <==> e in table && e.gw != g
    {
      StopRemoves(evs, rows, table, e, valid);
      if e in table && SomeRowShows(rows, g, e.route, valid) {
        var f := Entry(e.route, g);
        assert SomeRowShows(rows, f.gw, f.route, valid);
      }
    }
  }

  // ---- adding ----

  lemma {:induction false} AdditionsIff(
    connected: seq<string>, current: seq<string>, gw: string, known: seq<string>, valid: AddressCheck, o: Out)
    requires o.AddCmd?
    ensures o in Additions(connected, current, gw, known, valid).0 <==>
            o.gw == gw && o.route in Added(connected, current, valid)
  {
    hide Missing, ParseNetdef;
    if connected != [] {
      var front, e := connected[..|connected| - 1], connected[|connected| - 1];
      AdditionsIff(front, current, gw, known, valid, o);
      assert connected == front + [e];
      AddedOneMore(front, e, current, valid);
      hide Added;
    }
  }

  lemma {:induction false} DeletionsIff(
    previous: seq<string>, connected: seq<string>, current: seq<string>, valid: AddressCheck, o: Out)
    requires o.DelCmd?
    ensures o in Deletions(previous, connected, current, valid) <==>
            o.endpoint in previous && Leaves(o.endpoint, connected, current, valid) &&
            ParseNetdef(o.endpoint, valid) == Some(o.route)
  {
    hide Leaves, ParseNetdef;
    if previous != [] {
      var front, e := previous[..|previous| - 1], previous[|previous| - 1];
      DeletionsIff(front, connected, current, valid, o);
      assert previous == front + [e];
    }
  }

  /** What one reconciliation issues: it adds exactly the missing routes, through the gateway in
      use, and deletes exactly the remembered ones that left and are listed; with nothing
      connected it forgets what it remembered instead. */
  lemma ReconcileIssues(n: Net, current: seq<string>, valid: AddressCheck, o: Out)
    ensures var out := Reconcile(n, current, valid).1;
            && (o.AddCmd? ==> (o in out <==> o.gw == n.gw && o.route in Added(n.connected, current, valid)))
            && (o.DelCmd? ==> (o in out <==>
                  && n.connected != [] && o.endpoint in n.previous && o.endpoint !in n.connected
                  && Ip(o.endpoint, valid) in current && ParseNetdef(o.endpoint, valid) == Some(o.route)))
            && (o.Purge? ==> o !in out)
    ensures n.connected == [] ==> Reconcile(n, current, valid) == (n.(previous := []), [Cleared])
  {
    var previous := if n.connected == [] then [] else n.previous;
    var known := Staying(previous, n.connected, current, valid);
    var clear := if n.connected == [] then [Cleared] else [];
    var dels := Deletions(previous, n.connected, current, valid);
    var (adds, known') := Additions(n.connected, current, n.gw, known, valid);
    assert Reconcile(n, current, valid) == (n.(previous := known'), clear + dels + adds);
    if o.AddCmd? {
      AdditionsIff(n.connected, current, n.gw, known, valid, o);
    }
    if o.DelCmd? {
      DeletionsIff(previous, n.connected, current, valid, o);
    }
    DeletionsOnly(previous, n.connected, current, valid);
    AdditionsRecord(n.connected, current, n.gw, known, valid);
    NothingConnected(current, n.gw, valid);
    hide Reconcile, Deletions, Additions, Staying, Added, ParseNetdef;
    InParts(n.connected == [], dels, adds);
    assert o in clear + dels + adds <==> o in clear || o in dels || o in adds;
    assert n.connected == [] ==> [Cleared] + [] + [] == [Cleared];
  }

  lemma NothingConnected(current: seq<string>, gw: string, valid: AddressCheck)
    ensures Deletions([], [], current, valid) == [] && Staying([], [], current, valid) == []
    ensures Additions([], current, gw, [], valid) == ([], [])
  {
  }

  // ---- which gateway is in use ----

  /** The last valid address set for the primary gateway, or for the fallback. */
  function LastAddress(evs: seq<Event>, fallback: bool, valid: AddressCheck): string {
    if evs == [] then ""
    else
      var before, ev := LastAddress(evs[..|evs| - 1], fallback, valid), evs[|evs| - 1];
      if !fallback && ev.SetGateway? && valid(ev.addr) then ev.addr
      else if fallback && ev.SetFallbackGateway? && valid(ev.addr) then ev.addr
      else before
  }

  /** The one that was chosen last, as it was when it was chosen. */
  function GatewayInUse(evs: seq<Event>, valid: AddressCheck): string {
    if evs == [] then ""
    else
      var before, ev := evs[..|evs| - 1], evs[|evs| - 1];
      if ev.SetFallback? then LastAddress(before, ev.fallback, valid) else GatewayInUse(before, valid)
  }

  lemma StepGateways(n: Net, ev: Event, valid: AddressCheck)
    ensures var n' := Step(n, ev, valid).0;
            && n'.gateway == (if ev.SetGateway? && valid(ev.addr) then ev.addr else n.gateway)
            && n'.fallbackGateway == (if ev.SetFallbackGateway? && valid(ev.addr) then ev.addr else n.fallbackGateway)
            && n'.gw == (if ev.SetFallback? then (if ev.fallback then n.fallbackGateway else n.gateway) else n.gw)
  {
    hide Additions, Deletions, Staying, Current, Purges;
  }

  lemma {:induction false} GatewaysHeld(evs: seq<Event>, valid: AddressCheck)
    ensures var n := State(evs, valid);
            && n.gateway == LastAddress(evs, false, valid) && n.fallbackGateway == LastAddress(evs, true, valid)
            && n.gw == GatewayInUse(evs, valid)
  {
    if evs != [] {
      GatewaysHeld(evs[..|evs| - 1], valid);
      StepGateways(State(evs[..|evs| - 1], valid), evs[|evs| - 1], valid);
      hide Step;
    }
  }

  /** In every run the read that finishes adds exactly the missing endpoints of the list
      supplied last, all of them through the gateway in use. */
  lemma AddsThroughGateway(evs: seq<Event>, rows: seq<Row>, valid: AddressCheck, o: Out)
    requires State(evs, valid).reader == Reading && o.AddCmd?
    ensures o in LastOut(evs + [ReadFinished(true, rows)], valid) <==>
            o.gw == GatewayInUse(evs, valid) && o.route in Added(LastSupplied(evs, valid), Current(rows), valid)
  {
    hide State, LastOut, LastSupplied, Reconcile, Current, Added;
    GatewaysHeld(evs, valid);
    ReconcilesLastSupplied(evs, rows, valid);
    var n := State(evs, valid).(connected := LastSupplied(evs, valid));
    ReconcileIssues(n, Current(rows), valid, o);
  }

  // ---- what is remembered ----

  lemma {:induction false} StayingIff(
    previous: seq<string>, connected: seq<string>, current: seq<string>, valid: AddressCheck, e: string)
    ensures e in Staying(previous, connected, current, valid) <==>
            e in previous && !(Ip(e, valid) in current && e !in connected)
  {
    hide Ip;
    if previous != [] {
      var front, last := previous[..|previous| - 1], previous[|previous| - 1];
      StayingIff(front, connected, current, valid, e);
      assert previous == front + [last];
    }
  }

  lemma {:induction false} AdditionsRememberIff(
    connected: seq<string>, current: seq<string>, gw: string, known: seq<string>, valid: AddressCheck, e: string)
    ensures var (out, known') := Additions(connected, current, gw, known, valid);
            var added := e in connected && e != "" && Ip(e, valid) !in current;
            && (e in known' <==> e in known || added)
            && (Recorded(e) in out <==> e !in known && added)
  {
    hide Ip, ParseNetdef;
    if connected != [] {
      var front, last := connected[..|connected| - 1], connected[|connected| - 1];
      AdditionsRememberIff(front, current, gw, known, valid, e);
      assert connected == front + [last];
      AddOneRecords(last, gw, Additions(front, current, gw, known, valid).1, valid, e);
      hide AddOne;
    }
  }

  lemma AddOneRecords(e: string, gw: string, known: seq<string>, valid: AddressCheck, f: string)
    ensures Recorded(f) in AddOne(e, gw, known, valid) <==> f == e && e !in known
  {
    hide ParseNetdef;
  }

  /** What is remembered after a reconciliation: with something connected, the endpoints that
      were and have not both left and been listed, and the connected ones that were not listed,
      which are noted if they were not remembered; never the empty one. */
  lemma RemembersIff(n: Net, current: seq<string>, valid: AddressCheck, e: string)
    ensures var (n', out) := Reconcile(n, current, valid);
            var added := e in n.connected && e != "" && Ip(e, valid) !in current;
            && (e in n'.previous <==>
                  n.connected != [] &&
                  ((e in n.previous && !(Ip(e, valid) in current && e !in n.connected)) || added))
            && (Recorded(e) in out <==> e !in n.previous && added)
  {
    hide Ip, Deletions, Staying, Additions;
    var previous := if n.connected == [] then [] else n.previous;
    var known := Staying(previous, n.connected, current, valid);
    StayingIff(previous, n.connected, current, valid, e);
    AdditionsRememberIff(n.connected, current, n.gw, known, valid, e);
    DeletionsOnly(previous, n.connected, current, valid);
    var clear := if n.connected == [] then [Cleared] else [];
    assert Recorded(e) !in clear && Recorded(e) !in Deletions(previous, n.connected, current, valid);
  }

  // ---- endpoints that go ----

  /** An endpoint that a sync added is deleted by the next one that lacks it, if something else
      is connected and the listing shows its address. */
  lemma DisconnectedIsDeleted(
    n: Net, e: string, endpoints: seq<string>, rows: seq<Row>, others: seq<string>, again: seq<Row>,
    valid: AddressCheck)
    requires n.gw != "" && n.reader == Idle
    requires e in endpoints && Missing(e, Current(rows), valid) && ParseNetdef(e, valid).Some?
    requires others != [] && e !in others && Ip(e, valid) in Current(again)
    ensures var n' := SyncAndRead(n, endpoints, rows, valid).0;
            DelCmd(ParseNetdef(e, valid).value, e) in SyncAndRead(n', others, again, valid).1
  {
    hide Current, Ip, ParseNetdef, Step, Reconcile;
    SyncReconciles(n, endpoints, rows, valid);
    var m, n' := Step(n, Sync(endpoints), valid).0, SyncAndRead(n, endpoints, rows, valid).0;
    RemembersIff(m, Current(rows), valid, e);
    SyncReconciles(n', others, again, valid);
    var m' := Step(n', Sync(others), valid).0;
    ReconcileIssues(m', Current(again), valid, DelCmd(ParseNetdef(e, valid).value, e));
  }
}
