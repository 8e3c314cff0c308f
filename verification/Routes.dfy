/** Route reconciliation: src/mgr/networkmanager.cpp. */
module Routes {
  import opened Common
  import opened Strings

  // QHostAddress(s) is not null
  type AddressCheck = string -> bool

  const HOST_MASK := "255.255.255.255"

  datatype Route = Route(ip: string, mask: string)

  /** A network definition is "ip" or "ip/mask"; None stands for the pair of empty strings. */
  function ParseNetdef(netdef: string, valid: AddressCheck): Option<Route> {
    var parts := Split(netdef, '/');
    if !valid(parts[0]) then None
    else if |parts| != 2 then Some(Route(parts[0], HOST_MASK))
    else if valid(parts[1]) then Some(Route(parts[0], parts[1]))
    else None
  }

  function Ip(netdef: string, valid: AddressCheck): string {
    match ParseNetdef(netdef, valid) case Some(r) => r.ip case None => ""
  }

  function PadIp4(ip: string): string {
    ip + Zeros(4 - |Split(ip, '.')|)
  }

  function Zeros(n: int): string
    decreases if n < 0 then 0 else n
  {
    if n <= 0 then "" else ".0" + Zeros(n - 1)
  }

  // A matched line of the routing table listing.
  datatype Row = Row(dest: string, gateway: string)

  /** `Stuck`: a read failed, and the pointer to its process was never cleared. */
  datatype Reader = Idle | Reading | Stuck

  datatype Operation = NoOperation | Update | Remove

  datatype Net = Net(
    gw: string, gateway: string, fallbackGateway: string,
    connected: seq<string>, previous: seq<string>,
    reader: Reader, operation: Operation)

  const INITIAL := Net("", "", "", [], [], Idle, NoOperation)

  /** Commands issued, and what the update step notes in its list of endpoints. */
  datatype Out =
    | AddCmd(route: Route, gw: string)
    | DelCmd(route: Route, endpoint: string)
    | Purge(route: Route)
    | Recorded(endpoint: string)
    | Cleared

  // ---- one read ----

  function Current(rows: seq<Row>): seq<string> {
    if rows == [] then []
    else
      var front := Current(rows[..|rows| - 1]);
      if rows[|rows| - 1].dest == "default" then front else front + [PadIp4(rows[|rows| - 1].dest)]
  }

  function Purges(rows: seq<Row>, gateway: string, valid: AddressCheck): seq<Out> {
    if rows == [] then []
    else
      var front, row := Purges(rows[..|rows| - 1], gateway, valid), rows[|rows| - 1];
      if row.dest == "default" || row.gateway != gateway then front
      else match ParseNetdef(row.dest, valid) case Some(r) => front + [Purge(r)] case None => front
  }

  // An endpoint leaves when its address is listed and it is no longer connected.
  predicate Leaves(e: string, connected: seq<string>, current: seq<string>, valid: AddressCheck) {
    Ip(e, valid) in current && e !in connected
  }

  function Deletions(
    previous: seq<string>, connected: seq<string>, current: seq<string>, valid: AddressCheck): seq<Out> {
    if previous == [] then []
    else
      var front, e := Deletions(previous[..|previous| - 1], connected, current, valid), previous[|previous| - 1];
      if !Leaves(e, connected, current, valid) then front
      else match ParseNetdef(e, valid) case Some(r) => front + [DelCmd(r, e)] case None => front
  }

  function Staying(
    previous: seq<string>, connected: seq<string>, current: seq<string>, valid: AddressCheck): seq<string> {
    if previous == [] then []
    else
      var front, e := Staying(previous[..|previous| - 1], connected, current, valid), previous[|previous| - 1];
      if Leaves(e, connected, current, valid) then front else front + [e]
  }

  // An endpoint is added when its address is not listed.
  predicate Missing(e: string, current: seq<string>, valid: AddressCheck) {
    e != "" && Ip(e, valid) !in current
  }

  function AddOne(e: string, gw: string, known: seq<string>, valid: AddressCheck): seq<Out> {
    (match ParseNetdef(e, valid) case Some(r) => [AddCmd(r, gw)] case None => []) +
    (if e in known then [] else [Recorded(e)])
  }

  /** The adding loop: the outputs, and the endpoints known afterwards. */
  function Additions(connected: seq<string>, current: seq<string>, gw: string, known: seq<string>, valid: AddressCheck)
    : (seq<Out>, seq<string>)
  {
    if connected == [] then ([], known)
    else
      var (out, known') := Additions(connected[..|connected| - 1], current, gw, known, valid);
      var e := connected[|connected| - 1];
      if !Missing(e, current, valid) then (out, known')
      else (out + AddOne(e, gw, known', valid), if e in known' then known' else known' + [e])
  }

  /** readRoutesEx() for the update operation. */
  function Reconcile(n: Net, current: seq<string>, valid: AddressCheck): (Net, seq<Out>) {
    var cleared := n.connected == [];
    var previous := if cleared then [] else n.previous;
    var (adds, known) := Additions(n.connected, current, n.gw, Staying(previous, n.connected, current, valid), valid);
    (n.(previous := known),
     (if cleared then [Cleared] else []) + Deletions(previous, n.connected, current, valid) + adds)
  }

  function ReadRows(n: Net, rows: seq<Row>, valid: AddressCheck): (Net, seq<Out>) {
    match n.operation
    case Update => Reconcile(n, Current(rows), valid)
    case Remove => (n, Purges(rows, n.gateway, valid))
    case NoOperation => (n, [])
  }

  datatype Event =
    | SetGateway(addr: string)
    | SetFallbackGateway(addr: string)
    | SetFallback(fallback: bool)
    | Sync(endpoints: seq<string>)
    | ReadFinished(ok: bool, rows: seq<Row>)
    | Stop(rows: seq<Row>)

  function Step(n: Net, ev: Event, valid: AddressCheck): (Net, seq<Out>) {
    match ev
    case SetGateway(addr) => (if valid(addr) then n.(gateway := addr) else n, [])
    case SetFallbackGateway(addr) => (if valid(addr) then n.(fallbackGateway := addr) else n, [])
    case SetFallback(fallback) => (n.(gw := if fallback then n.fallbackGateway else n.gateway), [])
    case Sync(endpoints) =>
      if n.gw == "" then (n, [])
      else
        var n' := n.(connected := endpoints);
        (if n.reader == Idle then n'.(reader := Reading, operation := Update) else n', [])
    case ReadFinished(ok, rows) =>
      if n.reader != Reading then (n, [])
      else if !ok then (n.(reader := Stuck), [])
      else
        var (n', out) := ReadRows(n, rows, valid);
        (n'.(reader := Idle), out)
    case Stop(rows) =>
      if n.gateway == "" || n.reader != Idle then (n, []) else ReadRows(n.(operation := Remove), rows, valid)
  }

  // ---- the object ----

  class NetworkManager {
    const valid: AddressCheck
    var gw: string
    var gateway: string
    var fallbackGateway: string
    var connected: seq<string>
    var previous: seq<string>
    var reader: Reader
    var operation: Operation

    ghost function View(): Net
      reads this
    {
      Net(gw, gateway, fallbackGateway, connected, previous, reader, operation)
    }

    constructor (valid: AddressCheck)
      ensures View() == INITIAL && this.valid == valid
    {
      this.valid := valid;
      gw, gateway, fallbackGateway, connected, previous, reader, operation := "", "", "", [], [], Idle, NoOperation;
    }

    method SyncRoutes(endpoints: seq<string>)
      modifies this
      ensures View() == Step(old(View()), Sync(endpoints), valid).0
    {
      if gw == "" {
        return;
      }
      connected := endpoints;
      if reader != Idle {
        return;
      }
      operation, reader := Update, Reading;
    }

    method FinishedReadRoutes(ok: bool, rows: seq<Row>) returns (out: seq<Out>)
      requires reader == Reading
      modifies this
      ensures (View(), out) == Step(old(View()), ReadFinished(ok, rows), valid)
    {
      if !ok {
        reader := Stuck;
        return [];
      }
      out := ReadRoutesEx(rows);
      reader := Idle;
    }

    method StopRoutes(rows: seq<Row>) returns (out: seq<Out>)
      modifies this
      ensures (View(), out) == Step(old(View()), Stop(rows), valid)
    {
      if gateway == "" || reader != Idle {
        return [];
      }
      operation := Remove;
      out := ReadRoutesEx(rows);
    }

    method ReadRoutesEx(rows: seq<Row>) returns (out: seq<Out>)
      modifies this`previous
      ensures (View(), out) == ReadRows(old(View()), rows, valid)
    {
      var currentRoutes: seq<string> := [];
      out := [];
      for i := 0 to |rows|
        invariant out == if operation == Remove then Purges(rows[..i], gateway, valid) else []
        invariant operation != Remove ==> currentRoutes == Current(rows[..i])
        invariant View() == old(View())
      {
        assert rows[..i + 1][..i] == rows[..i];
        var row := rows[i];
        if row.dest != "default" {
          if operation == Remove && row.gateway == gateway {
            match ParseNetdef(row.dest, valid) {
              case Some(r) => out := out + [Purge(r)];
              case None =>
            }
          } else {
            currentRoutes := currentRoutes + [PadIp4(row.dest)];
          }
        }
      }
      assert rows[..|rows|] == rows;
      if operation == Update {
        out := ReconcileRoutes(currentRoutes);
      }
    }

    method ReconcileRoutes(currentRoutes: seq<string>) returns (out: seq<Out>)
      modifies this`previous
      ensures (View(), out) == Reconcile(old(View()), currentRoutes, valid)
    {
      out := [];
      if connected == [] {
        previous := [];
        out := [Cleared];
      }
      var dels := DeleteOld(currentRoutes);
      var adds := AddNew(currentRoutes);
      out := out + dels + adds;
    }

    method DeleteOld(currentRoutes: seq<string>) returns (out: seq<Out>)
      modifies this`previous
      ensures out == Deletions(old(previous), connected, currentRoutes, valid)
      ensures previous == Staying(old(previous), connected, currentRoutes, valid)
    {
      out := [];
      var endpoints := previous;
      RemoveLeftNone(endpoints, connected, currentRoutes, valid);
      assert endpoints[..0] == [];
      for i := 0 to |endpoints|
        invariant out == Deletions(endpoints[..i], connected, currentRoutes, valid)
        invariant previous == RemoveLeft(endpoints, endpoints[..i], connected, currentRoutes, valid)
      {
        assert endpoints[..i + 1][..i] == endpoints[..i];
        var e := endpoints[i];
        RemoveLeftStep(endpoints, i, connected, currentRoutes, valid);
        if Ip(e, valid) in currentRoutes && e !in connected {
          match ParseNetdef(e, valid) {
            case Some(r) => out := out + [DelCmd(r, e)];
            case None =>
          }
          previous := RemoveAll(previous, e);
        }
      }
      assert endpoints[..|endpoints|] == endpoints;
      RemoveLeftAll(endpoints, endpoints, connected, currentRoutes, valid);
    }

    method AddNew(currentRoutes: seq<string>) returns (out: seq<Out>)
      modifies this`previous
      ensures (out, previous) == Additions(connected, currentRoutes, gw, old(previous), valid)
    {
      out := [];
      for i := 0 to |connected|
        invariant (out, previous) == Additions(connected[..i], currentRoutes, gw, old(previous), valid)
      {
        assert connected[..i + 1][..i] == connected[..i];
        var e := connected[i];
        if e == "" {
          continue;
        }
        if Ip(e, valid) !in currentRoutes {
          out := out + AddOne(e, gw, previous, valid);
          if e !in previous {
            previous := previous + [e];
          }
        }
      }
      assert connected[..|connected|] == connected;
    }
  }

  // QStringList::removeAll()
  function RemoveAll(s: seq<string>, e: string): seq<string> {
    if s == [] then [] else (if s[0] == e then [] else [s[0]]) + RemoveAll(s[1..], e)
  }

  // The endpoints without those that leave and are among the `seen` ones.
  function RemoveLeft(
    s: seq<string>, seen: seq<string>, connected: seq<string>, current: seq<string>,
    valid: AddressCheck): seq<string> {
    if s == [] then []
    else
      (if s[0] in seen && Leaves(s[0], connected, current, valid) then [] else [s[0]]) +
      RemoveLeft(s[1..], seen, connected, current, valid)
  }

  lemma {:induction false} RemoveLeftOne(
    s: seq<string>, seen: seq<string>, e: string, connected: seq<string>, current: seq<string>,
    valid: AddressCheck)
    ensures RemoveLeft(s, seen + [e], connected, current, valid) ==
            if Leaves(e, connected, current, valid) then RemoveAll(RemoveLeft(s, seen, connected, current, valid), e)
            else RemoveLeft(s, seen, connected, current, valid)
  {
    if s != [] {
      RemoveLeftOne(s[1..], seen, e, connected, current, valid);
      RemoveAllFront(s[0], RemoveLeft(s[1..], seen, connected, current, valid), e);
      RemoveLeftFront(s, seen, connected, current, valid);
      RemoveLeftFront(s, seen + [e], connected, current, valid);
      hide RemoveAll, RemoveLeft, Leaves;
      assert s[0] in seen + [e] <==> s[0] in seen || s[0] == e;
    }
  }

  lemma RemoveLeftFront(
    s: seq<string>, seen: seq<string>, connected: seq<string>, current: seq<string>, valid: AddressCheck)
    requires s != []
    ensures var rest := RemoveLeft(s[1..], seen, connected, current, valid);
            RemoveLeft(s, seen, connected, current, valid) ==
            if s[0] in seen && Leaves(s[0], connected, current, valid) then rest else [s[0]] + rest
  {
    hide Leaves;
  }

  lemma RemoveAllFront(first: string, rest: seq<string>, e: string)
    ensures RemoveAll([first] + rest, e) == (if first == e then [] else [first]) + RemoveAll(rest, e)
  {
    assert ([first] + rest)[1..] == rest;
  }

  lemma RemoveLeftStep(s: seq<string>, i: nat, connected: seq<string>, current: seq<string>, valid: AddressCheck)
    requires i < |s|
    ensures RemoveLeft(s, s[..i + 1], connected, current, valid) ==
            if Leaves(s[i], connected, current, valid) then
              RemoveAll(RemoveLeft(s, s[..i], connected, current, valid), s[i])
            else RemoveLeft(s, s[..i], connected, current, valid)
  {
    assert s[..i + 1] == s[..i] + [s[i]];
    RemoveLeftOne(s, s[..i], s[i], connected, current, valid);
  }

  lemma {:induction false} RemoveLeftNone(
    s: seq<string>, connected: seq<string>, current: seq<string>, valid: AddressCheck)
    ensures RemoveLeft(s, [], connected, current, valid) == s
  {
    if s != [] {
      RemoveLeftNone(s[1..], connected, current, valid);
    }
  }

  lemma {:induction false} RemoveLeftConcat(
    a: seq<string>, e: string, seen: seq<string>, connected: seq<string>, current: seq<string>,
    valid: AddressCheck)
    ensures RemoveLeft(a + [e], seen, connected, current, valid) ==
            RemoveLeft(a, seen, connected, current, valid) + RemoveLeft([e], seen, connected, current, valid)
  {
    if a == [] {
      assert a + [e] == [e];
    } else {
      RemoveLeftConcat(a[1..], e, seen, connected, current, valid);
      assert (a + [e])[1..] == a[1..] + [e];
    }
  }

  // Once every endpoint was seen, exactly the staying ones are left.
  lemma {:induction false} RemoveLeftAll(
    s: seq<string>, seen: seq<string>, connected: seq<string>, current: seq<string>, valid: AddressCheck)
    requires forall e :: e in s ==> e in seen
    ensures RemoveLeft(s, seen, connected, current, valid) == Staying(s, connected, current, valid)
  {
    if s != [] {
      var a, e := s[..|s| - 1], s[|s| - 1];
      RemoveLeftAll(a, seen, connected, current, valid);
      RemoveLeftConcat(a, e, seen, connected, current, valid);
      assert s == a + [e];
      assert [e][1..] == [];
    }
  }
}
