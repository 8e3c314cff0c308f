/** What reconciling routes achieves on a routing table, and what it keeps over runs. */
module RoutesProperties {
  import opened Common
  import opened Strings
  import opened Routes

  // ---- an abstract routing table that obeys the commands ----

  type Table = set<Route>

  function Apply(table: Table, out: seq<Out>): Table {
    if out == [] then table
    else
      var before := Apply(table, out[..|out| - 1]);
      match out[|out| - 1]
      case AddCmd(r, _) => before + {r}
      case DelCmd(r, _) => before - {r}
      case Purge(r) => before - {r}
      case _ => before
  }

  function Ips(table: Table): set<string> {
    set r | r in table :: r.ip
  }

  /** A listing shows exactly the addresses of the table. */
  ghost predicate Lists(current: seq<string>, table: Table) {
    forall ip :: ip in current <==> ip in Ips(table)
  }

  lemma {:induction false} ApplyConcat(table: Table, a: seq<Out>, b: seq<Out>)
    ensures Apply(table, a + b) == Apply(Apply(table, a), b)
    decreases |b|
  {
    if b == [] {
      assert a + b == a;
    } else {
      assert (a + b)[..|a + b| - 1] == a + b[..|b| - 1];
      ApplyConcat(table, a, b[..|b| - 1]);
    }
  }

  /** The routes that the deleting loop takes away. */
  function Deleted(
    previous: seq<string>, connected: seq<string>, current: seq<string>, valid: AddressCheck): set<Route> {
    set e | e in previous && Leaves(e, connected, current, valid) && ParseNetdef(e, valid).Some? ::
      ParseNetdef(e, valid).value
  }

  /** The routes that the adding loop puts in. */
  function Added(connected: seq<string>, current: seq<string>, valid: AddressCheck): set<Route> {
    set e | e in connected && Missing(e, current, valid) && ParseNetdef(e, valid).Some? :: ParseNetdef(e, valid).value
  }

  lemma {:induction false} ApplyDeletions(
    table: Table, previous: seq<string>, connected: seq<string>, current: seq<string>, valid: AddressCheck)
    ensures Apply(table, Deletions(previous, connected, current, valid)) ==
            table - Deleted(previous, connected, current, valid)
  {
    hide Apply, Leaves, ParseNetdef, Deleted;
    if previous == [] {
      NothingDeleted(table, connected, current, valid);
    } else {
      var front, e := previous[..|previous| - 1], previous[|previous| - 1];
      ApplyDeletions(table, front, connected, current, valid);
      assert previous == front + [e];
      DeletedOneMore(front, e, connected, current, valid);
      if Leaves(e, connected, current, valid) && ParseNetdef(e, valid).Some? {
        ApplyOne(table, Deletions(front, connected, current, valid), ParseNetdef(e, valid).value, e);
      }
    }
  }

  lemma NothingDeleted(table: Table, connected: seq<string>, current: seq<string>, valid: AddressCheck)
    ensures Apply(table, []) == table && Deleted([], connected, current, valid) == {}
  {
  }

  lemma ApplyOne(table: Table, out: seq<Out>, r: Route, e: string)
    ensures Apply(table, out + [DelCmd(r, e)]) == Apply(table, out) - {r}
  {
    assert (out + [DelCmd(r, e)])[..|out|] == out;
  }

  lemma DeletedOneMore(front: seq<string>, e: string, connected: seq<string>, current: seq<string>, valid: AddressCheck)
    ensures Deleted(front + [e], connected, current, valid) ==
            Deleted(front, connected, current, valid) +
            if Leaves(e, connected, current, valid) && ParseNetdef(e, valid).Some? then
              {ParseNetdef(e, valid).value}
            else {}
  {
    hide Leaves, ParseNetdef;
  }

  lemma ApplyAddOne(table: Table, e: string, gw: string, known: seq<string>, valid: AddressCheck)
    ensures Apply(table, AddOne(e, gw, known, valid)) ==
            table + (if ParseNetdef(e, valid).Some? then {ParseNetdef(e, valid).value} else {})
  {
    var cmd := match ParseNetdef(e, valid) case Some(r) => [AddCmd(r, gw)] case None => [];
    var note := if e in known then [] else [Recorded(e)];
    ApplyConcat(table, cmd, note);
    if cmd != [] {
      assert cmd[..0] == [];
    }
    if note != [] {
      assert note[..0] == [];
    }
  }

  lemma {:induction false} ApplyAdditions(
    table: Table, connected: seq<string>, current: seq<string>, gw: string, known: seq<string>,
    valid: AddressCheck)
    ensures Apply(table, Additions(connected, current, gw, known, valid).0) ==
            table + Added(connected, current, valid)
  {
    hide Apply, Missing, ParseNetdef, Added, AddOne;
    if connected == [] {
      NothingAdded(table, current, valid);
    } else {
      var front, e := connected[..|connected| - 1], connected[|connected| - 1];
      ApplyAdditions(table, front, current, gw, known, valid);
      assert connected == front + [e];
      AddedOneMore(front, e, current, valid);
      var (out, known') := Additions(front, current, gw, known, valid);
      if Missing(e, current, valid) {
        ApplyConcat(table, out, AddOne(e, gw, known', valid));
        ApplyAddOne(Apply(table, out), e, gw, known', valid);
      }
    }
  }

  lemma NothingAdded(table: Table, current: seq<string>, valid: AddressCheck)
    ensures Apply(table, []) == table && Added([], current, valid) == {}
  {
  }

  lemma AddedOneMore(front: seq<string>, e: string, current: seq<string>, valid: AddressCheck)
    ensures Added(front + [e], current, valid) ==
            Added(front, current, valid) +
            if Missing(e, current, valid) && ParseNetdef(e, valid).Some? then {ParseNetdef(e, valid).value} else {}
  {
    hide Missing, ParseNetdef;
  }

  /** One reconciliation takes the deleted routes out of the table and puts the added in. */
  lemma ApplyReconcile(n: Net, table: Table, current: seq<string>, valid: AddressCheck)
    ensures var previous := if n.connected == [] then [] else n.previous;
            Apply(table, Reconcile(n, current, valid).1) ==
            table - Deleted(previous, n.connected, current, valid) + Added(n.connected, current, valid)
  {
    var previous := if n.connected == [] then [] else n.previous;
    var dels := Deletions(previous, n.connected, current, valid);
    var known := Staying(previous, n.connected, current, valid);
    var adds := Additions(n.connected, current, n.gw, known, valid).0;
    var clear := if n.connected == [] then [Cleared] else [];
    ApplyConcat(table, clear + dels, adds);
    ApplyConcat(table, clear, dels);
    if clear != [] {
      assert clear[..0] == [];
    }
    ApplyDeletions(table, previous, n.connected, current, valid);
    ApplyAdditions(Apply(table, clear + dels), n.connected, current, n.gw, known, valid);
  }

  predicate ValidEndpoint(e: string, valid: AddressCheck) {
    e != "" && ParseNetdef(e, valid).Some?
  }

  /** After a sync, a connected endpoint's address is in the table if and only if it was not
      there before, or some route to it was not one that the sync deletes. */
  lemma ConnectedInTable(n: Net, table: Table, current: seq<string>, valid: AddressCheck, e: string)
    requires Lists(current, table) && e in n.connected && ValidEndpoint(e, valid)
    ensures Ip(e, valid) in Ips(Apply(table, Reconcile(n, current, valid).1)) <==>
            Ip(e, valid) !in Ips(table) ||
            exists r :: r in table && r.ip == Ip(e, valid) && r !in Deleted(n.previous, n.connected, current, valid)
  {
    ApplyReconcile(n, table, current, valid);
    var after := Apply(table, Reconcile(n, current, valid).1);
    var ip, r := Ip(e, valid), ParseNetdef(e, valid).value;
    if ip !in Ips(table) {
      assert r in Added(n.connected, current, valid) && r in after;
    } else {
      forall r | r in Added(n.connected, current, valid) ensures r.ip != ip {
      }
    }
  }

  /** No two endpoints, remembered or connected, share an address. */
  ghost predicate DistinctIps(n: Net, valid: AddressCheck) {
    var all := n.previous + n.connected;
    forall e, f :: e in all && f in all && Ip(e, valid) == Ip(f, valid) ==> e == f
  }

  /** With valid endpoints of distinct addresses, one reconciliation puts every connected
      endpoint in the table, and a second one with the same list issues no command. */
  lemma ReconcileConverges(n: Net, table: Table, current: seq<string>, again: seq<string>, valid: AddressCheck)
    requires (forall e :: e in n.connected ==> ValidEndpoint(e, valid)) && DistinctIps(n, valid)
    requires Lists(current, table)
    requires Lists(again, Apply(table, Reconcile(n, current, valid).1))
    ensures forall e :: e in n.connected ==> Ip(e, valid) in Ips(Apply(table, Reconcile(n, current, valid).1))
    ensures var (n1, out) := Reconcile(n, current, valid);
            var (n2, out2) := Reconcile(n1, again, valid);
            Commands(out2) == [] && n2.previous == n1.previous
  {
    var (n1, out) := Reconcile(n, current, valid);
    forall e | e in n.connected ensures Ip(e, valid) in again {
      ConnectedInTable(n, table, current, valid, e);
      if Ip(e, valid) in Ips(table) {
        var r :| r in table && r.ip == Ip(e, valid);
        NotDeleted(n, current, valid, e, r);
      }
    }
    var previous := if n.connected == [] then [] else n.previous;
    KnownAfter(n, current, valid);
    forall f | f in n1.previous ensures !Leaves(f, n1.connected, again, valid) {
      if f !in n.connected && Ip(f, valid) in again {
        NotComeBack(n, table, current, valid, f);
      }
    }
    NothingToDelete(n1.previous, n1.connected, again, valid);
    NothingToAdd(n1.connected, again, n1.gw, n1.previous, valid);
    assert Staying([], n1.connected, again, valid) == [] && Deletions([], n1.connected, again, valid) == [];
    if n.connected == [] {
      assert n1.previous == [];
      assert [Cleared] + [] + [] == [Cleared];
    }
  }

  // A sync with no read in flight, and the read it starts.
  function SyncAndRead(n: Net, endpoints: seq<string>, rows: seq<Row>, valid: AddressCheck): (Net, seq<Out>) {
    Step(Step(n, Sync(endpoints), valid).0, ReadFinished(true, rows), valid)
  }

  /** How a listing shortens an address: trailing zero parts are left away. */
  ghost predicate Abbreviates(dest: string, ip: string) {
    |Split(ip, '.')| == 4 && exists k: nat :: ip == dest + Zeros(k)
  }

  ghost predicate Shows(dest: string, table: Table) {
    exists r :: r in table && Abbreviates(dest, r.ip)
  }

  ghost predicate Shown(ip: string, rows: seq<Row>) {
    exists i :: 0 <= i < |rows| && rows[i].dest != "default" && Abbreviates(rows[i].dest, ip)
  }

  /** The rows of a listing: every route with its address abbreviated, and default routes. */
  ghost predicate Prints(rows: seq<Row>, table: Table) {
    && (forall i :: 0 <= i < |rows| && rows[i].dest != "default" ==> Shows(rows[i].dest, table))
    && (forall r :: r in table ==> Shown(r.ip, rows))
  }

  /** Padding undoes the abbreviation. */
  lemma PadUndoesAbbreviation(dest: string, ip: string)
    requires Abbreviates(dest, ip)
    ensures PadIp4(dest) == ip
  {
    var k: nat :| ip == dest + Zeros(k);
    ZerosAppend(dest, k);
    assert |Split(dest, '.')| == 4 - k;
  }

  lemma {:induction false} CurrentMembers(rows: seq<Row>, ip: string)
    ensures ip in Current(rows) <==>
            exists i :: 0 <= i < |rows| && rows[i].dest != "default" && PadIp4(rows[i].dest) == ip
  {
    hide PadIp4;
    if rows != [] {
      var front, last := rows[..|rows| - 1], rows[|rows| - 1];
      CurrentMembers(front, ip);
      assert forall i :: 0 <= i < |front| ==> rows[i] == front[i];
    }
  }

  lemma ShownIsListed(rows: seq<Row>, ip: string)
    requires Shown(ip, rows)
    ensures ip in Current(rows)
  {
    var i :| 0 <= i < |rows| && rows[i].dest != "default" && Abbreviates(rows[i].dest, ip);
    PadUndoesAbbreviation(rows[i].dest, ip);
    hide PadIp4, Abbreviates, Current;
    CurrentMembers(rows, ip);
  }

  lemma ShowsItsAddress(dest: string, table: Table)
    requires Shows(dest, table)
    ensures PadIp4(dest) in Ips(table)
  {
    var r :| r in table && Abbreviates(dest, r.ip);
    PadUndoesAbbreviation(dest, r.ip);
  }

  lemma ListedIsRow(rows: seq<Row>, ip: string) returns (i: nat)
    requires ip in Current(rows)
    ensures i < |rows| && rows[i].dest != "default" && PadIp4(rows[i].dest) == ip
  {
    hide PadIp4, Current;
    CurrentMembers(rows, ip);
    i :| 0 <= i < |rows| && rows[i].dest != "default" && PadIp4(rows[i].dest) == ip;
  }

  lemma PrintedIsListed(rows: seq<Row>, table: Table)
    requires Prints(rows, table)
    ensures Lists(Current(rows), table)
  {
    hide PadIp4, Shows, Shown, Current;
    forall ip ensures ip in Current(rows) <==> ip in Ips(table) {
      if ip in Current(rows) {
        var i := ListedIsRow(rows, ip);
        ShowsItsAddress(rows[i].dest, table);
      }
      if ip in Ips(table) {
        ShownIsListed(rows, ip);
      }
    }
  }

  /** With valid endpoints of distinct addresses, one sync puts every endpoint in the table,
      and a second sync with the same list issues no command. */
  lemma SyncConverges(
    n: Net, table: Table, endpoints: seq<string>, rows: seq<Row>, again: seq<Row>, valid: AddressCheck)
    requires n.gw != "" && n.reader == Idle
    requires (forall e :: e in endpoints ==> ValidEndpoint(e, valid)) && DistinctIps(n.(connected := endpoints), valid)
    requires Prints(rows, table)
    requires Prints(again, Apply(table, SyncAndRead(n, endpoints, rows, valid).1))
    ensures var (n', out) := SyncAndRead(n, endpoints, rows, valid);
            && (forall e :: e in endpoints ==> Ip(e, valid) in Ips(Apply(table, out)))
            && n'.reader == Idle && Commands(SyncAndRead(n', endpoints, again, valid).1) == []
  {
    PrintedIsListed(rows, table);
    PrintedIsListed(again, Apply(table, SyncAndRead(n, endpoints, rows, valid).1));
    hide Lists, Prints, Current, Apply, Ips, Commands, DistinctIps, ValidEndpoint;
    SyncReconciles(n, endpoints, rows, valid);
    var m := Step(n, Sync(endpoints), valid).0;
    SameDistinct(n, m, endpoints, valid);
    ReconcileConverges(m, table, Current(rows), Current(again), valid);
    var n' := SyncAndRead(n, endpoints, rows, valid).0;
    SyncReconciles(n', endpoints, again, valid);
    SameReconcile(Reconcile(m, Current(rows), valid).0, Step(n', Sync(endpoints), valid).0, Current(again), valid);
  }

  lemma SyncReconciles(n: Net, endpoints: seq<string>, rows: seq<Row>, valid: AddressCheck)
    requires n.gw != "" && n.reader == Idle
    ensures var m, (n', out) := Step(n, Sync(endpoints), valid).0, SyncAndRead(n, endpoints, rows, valid);
            && m == n.(connected := endpoints, reader := Reading, operation := Update)
            && out == Reconcile(m, Current(rows), valid).1
            && n' == Reconcile(m, Current(rows), valid).0.(reader := Idle)
            && n'.gw == n.gw && n'.connected == endpoints
  {
    hide Current, Additions, Deletions, Staying;
  }

  lemma SameDistinct(n: Net, m: Net, endpoints: seq<string>, valid: AddressCheck)
    requires DistinctIps(n.(connected := endpoints), valid)
    requires m.previous == n.previous && m.connected == endpoints
    ensures DistinctIps(m, valid)
  {
  }

  lemma SameReconcile(n: Net, m: Net, current: seq<string>, valid: AddressCheck)
    requires n.connected == m.connected && n.previous == m.previous && n.gw == m.gw
    ensures Reconcile(n, current, valid).1 == Reconcile(m, current, valid).1
  {
  }

  // Of distinct addresses, no route to a connected endpoint's is deleted.
  lemma NotDeleted(n: Net, current: seq<string>, valid: AddressCheck, e: string, r: Route)
    requires DistinctIps(n, valid) && e in n.connected && r.ip == Ip(e, valid)
    ensures r !in Deleted(n.previous, n.connected, current, valid)
  {
  }

  function Commands(out: seq<Out>): seq<Out> {
    if out == [] then []
    else
      var last := out[|out| - 1];
      Commands(out[..|out| - 1]) + if last.Cleared? || last.Recorded? then [] else [last]
  }

  // What is remembered after a sync was remembered and stays, or is connected.
  lemma KnownAfter(n: Net, current: seq<string>, valid: AddressCheck)
    ensures forall f :: f in Reconcile(n, current, valid).0.previous ==>
              f in n.connected || (f in n.previous && !Leaves(f, n.connected, current, valid))
    ensures n.connected == [] ==> Reconcile(n, current, valid).0.previous == []
  {
    var previous := if n.connected == [] then [] else n.previous;
    StayingMembers(previous, n.connected, current, valid);
    AdditionsMembers(n.connected, current, n.gw, Staying(previous, n.connected, current, valid), valid);
  }

  lemma {:induction false} StayingMembers(
    previous: seq<string>, connected: seq<string>, current: seq<string>, valid: AddressCheck)
    ensures forall f :: f in Staying(previous, connected, current, valid) ==>
              f in previous && !Leaves(f, connected, current, valid)
  {
    if previous != [] {
      StayingMembers(previous[..|previous| - 1], connected, current, valid);
    }
  }

  lemma {:induction false} AdditionsMembers(
    connected: seq<string>, current: seq<string>, gw: string, known: seq<string>, valid: AddressCheck)
    ensures forall f :: f in Additions(connected, current, gw, known, valid).1 ==> f in known || f in connected
  {
    if connected != [] {
      AdditionsMembers(connected[..|connected| - 1], current, gw, known, valid);
    }
  }

  // A remembered endpoint whose address was not listed is not put in the table by others.
  lemma NotComeBack(n: Net, table: Table, current: seq<string>, valid: AddressCheck, f: string)
    requires (forall e :: e in n.connected ==> ValidEndpoint(e, valid)) && DistinctIps(n, valid)
    requires Lists(current, table)
    requires f in n.previous && f !in n.connected && !Leaves(f, n.connected, current, valid)
    ensures Ip(f, valid) !in Ips(Apply(table, Reconcile(n, current, valid).1))
  {
    ApplyReconcile(n, table, current, valid);
    forall r | r in Added(n.connected, current, valid) ensures r.ip != Ip(f, valid) {
      var e :| e in n.connected && Missing(e, current, valid) && ParseNetdef(e, valid) == Some(r);
      assert e in n.previous + n.connected && f in n.previous + n.connected;
    }
  }

  lemma {:induction false} NothingToDelete(
    previous: seq<string>, connected: seq<string>, current: seq<string>, valid: AddressCheck)
    requires forall f :: f in previous ==> !Leaves(f, connected, current, valid)
    ensures Deletions(previous, connected, current, valid) == []
    ensures Staying(previous, connected, current, valid) == previous
  {
    if previous != [] {
      var front := previous[..|previous| - 1];
      assert previous == front + [previous[|previous| - 1]];
      NothingToDelete(front, connected, current, valid);
    }
  }

  lemma {:induction false} NothingToAdd(
    connected: seq<string>, current: seq<string>, gw: string, known: seq<string>, valid: AddressCheck)
    requires forall e :: e in connected ==> !Missing(e, current, valid)
    ensures Additions(connected, current, gw, known, valid) == ([], known)
  {
    if connected != [] {
      NothingToAdd(connected[..|connected| - 1], current, gw, known, valid);
    }
  }

  /** Two definitions of one address, the remembered one in the table and the other one
      connected: the old route is deleted and the new one is not added. */
  lemma SharedAddressIsLost(ip: string, oldMask: string, newMask: string, gw: string, valid: AddressCheck)
    requires ip != "" && valid(ip) && valid(oldMask) && valid(newMask) && oldMask != newMask
    requires '/' !in ip && '/' !in oldMask && '/' !in newMask
    ensures var remembered, connected := ip + "/" + oldMask, ip + "/" + newMask;
            var n := INITIAL.(gw := gw, connected := [connected], previous := [remembered]);
            ValidEndpoint(connected, valid) &&
            Ip(connected, valid) !in Ips(Apply({Route(ip, oldMask)}, Reconcile(n, [ip], valid).1))
  {
    var remembered, connected := ip + "/" + oldMask, ip + "/" + newMask;
    SplitNetdef(ip, oldMask);
    SplitNetdef(ip, newMask);
    assert remembered == ip + ['/'] + oldMask && connected == ip + ['/'] + newMask;
    assert remembered[|ip| + 1..] == oldMask && connected[|ip| + 1..] == newMask;
    var n := INITIAL.(gw := gw, connected := [connected], previous := [remembered]);
    var r, current := Route(ip, oldMask), [ip];
    assert ParseNetdef(remembered, valid) == Some(r) && Ip(connected, valid) == ip;
    hide Split, ParseNetdef, Ip, Reconcile, Apply;
    assert remembered in n.previous && connected in n.connected;
    LostWhenDeleted(n, current, valid, remembered, connected, r);
  }

  // The only route to a connected address is lost when it is deleted.
  lemma LostWhenDeleted(n: Net, current: seq<string>, valid: AddressCheck, f: string, e: string, r: Route)
    requires f in n.previous && f !in n.connected && ParseNetdef(f, valid) == Some(r)
    requires e in n.connected && ValidEndpoint(e, valid) && Ip(e, valid) == r.ip && current == [r.ip]
    ensures Ip(e, valid) !in Ips(Apply({r}, Reconcile(n, current, valid).1))
  {
    assert r in Deleted(n.previous, n.connected, current, valid);
    assert Ips({r}) == {r.ip};
    ConnectedInTable(n, {r}, current, valid, e);
  }

  lemma SplitNetdef(ip: string, mask: string)
    requires '/' !in ip && '/' !in mask
    ensures Split(ip + ['/'] + mask, '/') == [ip, mask]
  {
    SplitAfter(ip, '/', mask);
    SplitWhole(mask, '/');
  }

  /** Padding an abbreviated address fills it up to four parts and changes no part. */
  lemma {:induction false} PadFills(ip: string)
    ensures Split(PadIp4(ip), '.') == Split(ip, '.') +
            seq(if |Split(ip, '.')| < 4 then 4 - |Split(ip, '.')| else 0, _ => "0")
  {
    var n := if |Split(ip, '.')| < 4 then 4 - |Split(ip, '.')| else 0;
    assert PadIp4(ip) == ip + Zeros(n);
    ZerosAppend(ip, n);
  }

  lemma {:induction false} ZerosAppend(ip: string, n: nat)
    ensures Split(ip + Zeros(n), '.') == Split(ip, '.') + seq(n, _ => "0")
    decreases n
  {
    if n == 0 {
      assert ip + "" == ip;
    } else {
      ZerosAppend(ip + ".0", n - 1);
      assert ip + Zeros(n) == ip + ".0" + Zeros(n - 1);
      AppendPart(ip);
      assert ["0"] + seq(n - 1, _ => "0") == seq(n, _ => "0");
    }
  }

  lemma {:induction false} AppendPart(ip: string)
    ensures Split(ip + ".0", '.') == Split(ip, '.') + ["0"]
  {
    if ip == "" {
      assert ip + ".0" == "" + ['.'] + "0";
      SplitAfter("", '.', "0");
      SplitWhole("0", '.');
    } else {
      AppendPart(ip[1..]);
      assert (ip + ".0")[1..] == ip[1..] + ".0";
    }
  }

  // ---- runs ----

  function State(evs: seq<Event>, valid: AddressCheck): Net {
    if evs == [] then INITIAL else Step(State(evs[..|evs| - 1], valid), evs[|evs| - 1], valid).0
  }

  function LastOut(evs: seq<Event>, valid: AddressCheck): seq<Out> {
    if evs == [] then [] else Step(State(evs[..|evs| - 1], valid), evs[|evs| - 1], valid).1
  }

  /** The endpoints noted as added since the list was last cleared. */
  function RecordedSinceClear(evs: seq<Event>, valid: AddressCheck): set<string> {
    if evs == [] then {}
    else
      var out := LastOut(evs, valid);
      (if Cleared in out then {} else RecordedSinceClear(evs[..|evs| - 1], valid)) +
      (set o | o in out && o.Recorded? :: o.endpoint)
  }

  /** The list most recently supplied while a gateway was set. */
  function LastSupplied(evs: seq<Event>, valid: AddressCheck): seq<string> {
    if evs == [] then []
    else
      var before, ev := evs[..|evs| - 1], evs[|evs| - 1];
      if ev.Sync? && State(before, valid).gw != "" then ev.endpoints else LastSupplied(before, valid)
  }

  lemma {:induction false} DeletionsOnly(
    previous: seq<string>, connected: seq<string>, current: seq<string>, valid: AddressCheck)
    ensures forall o :: o in Deletions(previous, connected, current, valid) ==>
              o.DelCmd? && o.endpoint in previous && o.endpoint !in connected
  {
    if previous != [] {
      DeletionsOnly(previous[..|previous| - 1], connected, current, valid);
    }
  }

  lemma {:induction false} AdditionsRecord(
    connected: seq<string>, current: seq<string>, gw: string, known: seq<string>, valid: AddressCheck)
    ensures var (out, known') := Additions(connected, current, gw, known, valid);
            && (forall o :: o in out ==> o.AddCmd? || o.Recorded?)
            && (forall f :: f in known' ==> f in known || Recorded(f) in out)
  {
    if connected != [] {
      AdditionsRecord(connected[..|connected| - 1], current, gw, known, valid);
    }
  }

  lemma {:induction false} PurgesOnly(rows: seq<Row>, gateway: string, valid: AddressCheck)
    ensures forall o :: o in Purges(rows, gateway, valid) ==> o.Purge?
  {
    if rows != [] {
      PurgesOnly(rows[..|rows| - 1], gateway, valid);
    }
  }

  // What one reconciliation deletes and remembers.
  lemma ReconcileRecords(n: Net, current: seq<string>, valid: AddressCheck)
    ensures var (n', out) := Reconcile(n, current, valid);
            && (Cleared in out <==> n.connected == [])
            && (forall o :: o in out && o.DelCmd? ==>
                  Cleared !in out && o.endpoint in n.previous && o.endpoint !in n.connected)
            && (forall f :: f in n'.previous ==> Recorded(f) in out || (Cleared !in out && f in n.previous))
  {
    var previous := if n.connected == [] then [] else n.previous;
    DeletionsOnly(previous, n.connected, current, valid);
    StayingMembers(previous, n.connected, current, valid);
    var known := Staying(previous, n.connected, current, valid);
    AdditionsRecord(n.connected, current, n.gw, known, valid);
    var clear := if n.connected == [] then [Cleared] else [];
    var dels := Deletions(previous, n.connected, current, valid);
    var (adds, known') := Additions(n.connected, current, n.gw, known, valid);
    assert Reconcile(n, current, valid) == (n.(previous := known'), clear + dels + adds);
    hide Reconcile, Deletions, Additions, Staying, Leaves;
    InParts(n.connected == [], dels, adds);
    var out := clear + dels + adds;
    forall f | f in known' ensures Recorded(f) in out || (Cleared !in out && f in n.previous) {
      assert Recorded(f) in adds || f in known;
    }
  }

  // Where the outputs of a reconciliation come from.
  lemma InParts(cleared: bool, dels: seq<Out>, adds: seq<Out>)
    requires (forall o :: o in dels ==> o.DelCmd?) && forall o :: o in adds ==> o.AddCmd? || o.Recorded?
    ensures var out := (if cleared then [Cleared] else []) + dels + adds;
            && (Cleared in out <==> cleared)
            && (forall o :: o in out && o.DelCmd? ==> o in dels)
            && (forall o :: o in adds ==> o in out)
  {
    var clear := if cleared then [Cleared] else [];
    assert Cleared in clear <==> cleared;
    assert Cleared !in dels && Cleared !in adds;
  }

  lemma StepRecords(n: Net, ev: Event, valid: AddressCheck)
    ensures var (n', out) := Step(n, ev, valid);
            && (forall o :: o in out && o.DelCmd? ==>
                  Cleared !in out && o.endpoint in n.previous && o.endpoint !in n.connected)
            && (forall f :: f in n'.previous ==> Recorded(f) in out || (Cleared !in out && f in n.previous))
  {
    match ev
    case ReadFinished(ok, rows) =>
      ReconcileRecords(n, Current(rows), valid);
      PurgesOnly(rows, n.gateway, valid);
    case Stop(rows) => PurgesOnly(rows, n.gateway, valid);
    case _ =>
  }

  /** Over every run, the update step deletes only endpoints it had itself noted as added
      since the list was last cleared, and never one that is still connected. */
  lemma {:induction false} DeletesOnlyRecorded(evs: seq<Event>, valid: AddressCheck)
    ensures forall f :: f in State(evs, valid).previous ==> f in RecordedSinceClear(evs, valid)
    ensures evs != [] ==>
              forall o :: o in LastOut(evs, valid) && o.DelCmd? ==>
                o.endpoint in RecordedSinceClear(evs[..|evs| - 1], valid) && Cleared !in LastOut(evs, valid) &&
                o.endpoint !in State(evs, valid).connected
  {
    if evs != [] {
      var before := evs[..|evs| - 1];
      DeletesOnlyRecorded(before, valid);
      StepRecords(State(before, valid), evs[|evs| - 1], valid);
      StepConnected(State(before, valid), evs[|evs| - 1], valid);
    }
  }

  lemma StepConnected(n: Net, ev: Event, valid: AddressCheck)
    ensures Step(n, ev, valid).0.connected == if ev.Sync? && n.gw != "" then ev.endpoints else n.connected
    ensures Step(n, ev, valid).0.connected != n.connected ==> Step(n, ev, valid).1 == []
  {
  }

  lemma {:induction false} HoldsLastSupplied(evs: seq<Event>, valid: AddressCheck)
    ensures State(evs, valid).connected == LastSupplied(evs, valid)
  {
    if evs != [] {
      HoldsLastSupplied(evs[..|evs| - 1], valid);
      StepConnected(State(evs[..|evs| - 1], valid), evs[|evs| - 1], valid);
    }
  }

  lemma StepOperation(n: Net, ev: Event, valid: AddressCheck)
    requires n.reader == Reading ==> n.operation == Update
    ensures var n' := Step(n, ev, valid).0; n'.reader == Reading ==> n'.operation == Update
  {
    hide Additions, Deletions, Staying, Current, Purges;
  }

  /** A read in flight always updates. */
  lemma {:induction false} ReadingUpdates(evs: seq<Event>, valid: AddressCheck)
    ensures State(evs, valid).reader == Reading ==> State(evs, valid).operation == Update
  {
    if evs != [] {
      ReadingUpdates(evs[..|evs| - 1], valid);
      StepOperation(State(evs[..|evs| - 1], valid), evs[|evs| - 1], valid);
      hide Step;
    }
  }

  /** In every run the read that finishes reconciles the table against the list that was
      supplied last, also when that was while the read was in flight. */
  lemma ReconcilesLastSupplied(evs: seq<Event>, rows: seq<Row>, valid: AddressCheck)
    requires State(evs, valid).reader == Reading
    ensures var n := State(evs, valid).(connected := LastSupplied(evs, valid));
            && LastOut(evs + [ReadFinished(true, rows)], valid) == Reconcile(n, Current(rows), valid).1
            && State(evs + [ReadFinished(true, rows)], valid) == Reconcile(n, Current(rows), valid).0.(reader := Idle)
  {
    HoldsLastSupplied(evs, valid);
    ReadingUpdates(evs, valid);
    NextEvent(evs, ReadFinished(true, rows), valid);
    hide State, LastOut, LastSupplied, Reconcile, Current;
  }

  // ---- the reader over runs ----

  /** A read that was in flight failed. */
  ghost predicate ReadFailed(evs: seq<Event>, valid: AddressCheck) {
    exists i :: 0 <= i < |evs| && evs[i].ReadFinished? && !evs[i].ok && State(evs[..i], valid).reader == Reading
  }

  /** A sync with a gateway and an idle reader started a read, and none has finished since. */
  ghost predicate ReadInFlight(evs: seq<Event>, valid: AddressCheck) {
    exists i ::
      && 0 <= i < |evs| && evs[i].Sync? && State(evs[..i], valid).gw != "" && State(evs[..i], valid).reader == Idle
      && forall j :: i < j < |evs| ==> !evs[j].ReadFinished?
  }

  lemma ReadFailedStep(evs: seq<Event>, valid: AddressCheck)
    requires evs != []
    ensures var before, ev := evs[..|evs| - 1], evs[|evs| - 1];
            ReadFailed(evs, valid) <==>
            ReadFailed(before, valid) || (ev.ReadFinished? && !ev.ok && State(before, valid).reader == Reading)
  {
    hide State;
    var before := evs[..|evs| - 1];
    forall i | 0 <= i < |before| ensures before[i] == evs[i] && before[..i] == evs[..i] {
    }
    if ReadFailed(before, valid) {
      var i :|
        && 0 <= i < |before| && before[i].ReadFinished? && !before[i].ok
        && State(before[..i], valid).reader == Reading;
      assert evs[..i] == before[..i] && evs[i] == before[i];
    }
  }

  lemma ReadInFlightStep(evs: seq<Event>, valid: AddressCheck)
    requires evs != []
    ensures var before, ev := evs[..|evs| - 1], evs[|evs| - 1];
            ReadInFlight(evs, valid) <==>
            (ReadInFlight(before, valid) && !ev.ReadFinished?) ||
            (ev.Sync? && State(before, valid).gw != "" && State(before, valid).reader == Idle)
  {
    hide State;
    var before := evs[..|evs| - 1];
    forall i | 0 <= i < |before| ensures before[i] == evs[i] && before[..i] == evs[..i] {
    }
    if ReadInFlight(before, valid) && !evs[|evs| - 1].ReadFinished? {
      var i :|
        && 0 <= i < |before| && before[i].Sync? && State(before[..i], valid).gw != ""
        && State(before[..i], valid).reader == Idle && forall j :: i < j < |before| ==> !before[j].ReadFinished?;
      assert evs[..i] == before[..i] && evs[i] == before[i];
    }
  }

  /** In every run the reader is stuck exactly when a read in flight has failed, and reads
      exactly when a sync started a read that has not finished. */
  lemma {:induction false} ReaderIff(evs: seq<Event>, valid: AddressCheck)
    ensures State(evs, valid).reader == Stuck <==> ReadFailed(evs, valid)
    ensures State(evs, valid).reader == Reading <==> ReadInFlight(evs, valid)
  {
    if evs != [] {
      var before := evs[..|evs| - 1];
      ReaderIff(before, valid);
      ReadFailedStep(evs, valid);
      ReadInFlightStep(evs, valid);
      StepReader(State(before, valid), evs[|evs| - 1], valid);
      hide Step, ReadFailed, ReadInFlight;
    }
  }

  lemma StepReader(n: Net, ev: Event, valid: AddressCheck)
    ensures Step(n, ev, valid).0.reader ==
            if n.reader == Reading && ev.ReadFinished? then (if ev.ok then Idle else Stuck)
            else if n.reader == Idle && ev.Sync? && n.gw != "" then Reading
            else n.reader
    ensures Step(n, ev, valid).1 != [] ==> (ev.ReadFinished? && n.reader == Reading) || (ev.Stop? && n.reader == Idle)
    ensures Step(n, ev, valid).0.previous != n.previous ==> ev.ReadFinished? && n.reader == Reading
  {
    hide Additions, Deletions, Staying, Current, Purges;
  }

  /** Once a read in flight has failed, no later event issues a command, starts a read or
      changes what is remembered, whatever endpoints and gateways it supplies. */
  lemma {:induction false} FailedReadIsFinal(evs: seq<Event>, k: nat, valid: AddressCheck)
    requires k <= |evs| && ReadFailed(evs[..k], valid)
    ensures State(evs, valid).reader == Stuck && (k < |evs| ==> LastOut(evs, valid) == [])
    ensures State(evs, valid).previous == State(evs[..k], valid).previous
    decreases |evs|
  {
    if k == |evs| {
      assert evs[..k] == evs;
      ReaderIff(evs, valid);
    } else {
      var before := evs[..|evs| - 1];
      assert before[..k] == evs[..k];
      FailedReadIsFinal(before, k, valid);
      StepReader(State(before, valid), evs[|evs| - 1], valid);
      hide Step;
    }
  }

  /** In every run a stop removes the routes of the gateway if and only if no read has
      failed and none is in flight. */
  lemma StopPurges(evs: seq<Event>, rows: seq<Row>, valid: AddressCheck)
    requires State(evs, valid).gateway != "" && Purges(rows, State(evs, valid).gateway, valid) != []
    ensures LastOut(evs + [Stop(rows)], valid) == Purges(rows, State(evs, valid).gateway, valid) <==>
            !ReadFailed(evs, valid) && !ReadInFlight(evs, valid)
  {
    hide Purges, State, LastOut, Step;
    NextEvent(evs, Stop(rows), valid);
    StopOut(State(evs, valid), rows, valid);
    ReaderIff(evs, valid);
    hide ReadFailed, ReadInFlight;
  }

  lemma StopOut(n: Net, rows: seq<Row>, valid: AddressCheck)
    ensures Step(n, Stop(rows), valid).1 ==
            if n.gateway != "" && n.reader == Idle then Purges(rows, n.gateway, valid) else []
  {
    hide Purges;
  }

  lemma NextEvent(evs: seq<Event>, ev: Event, valid: AddressCheck)
    ensures State(evs + [ev], valid) == Step(State(evs, valid), ev, valid).0
    ensures LastOut(evs + [ev], valid) == Step(State(evs, valid), ev, valid).1
  {
    hide Step;
    assert (evs + [ev])[..|evs|] == evs;
  }

  /** A read fails in flight, and the sync after it starts none. */
  lemma SyncAfterFailure(before: seq<Event>, endpoints: seq<string>, more: seq<string>, valid: AddressCheck)
    requires State(before, valid).gw != "" && State(before, valid).reader == Idle
    ensures var failed := before + [Sync(endpoints)] + [ReadFinished(false, [])];
            ReadFailed(failed, valid) && !ReadInFlight(failed + [Sync(more)], valid)
  {
    hide State, Step, ReadFailed, ReadInFlight;
    var asked := before + [Sync(endpoints)];
    var failed := asked + [ReadFinished(false, [])];
    NextEvent(before, Sync(endpoints), valid);
    StepReader(State(before, valid), Sync(endpoints), valid);
    NextEvent(asked, ReadFinished(false, []), valid);
    StepReader(State(asked, valid), ReadFinished(false, []), valid);
    NextEvent(failed, Sync(more), valid);
    StepReader(State(failed, valid), Sync(more), valid);
    ReaderIff(failed, valid);
    ReaderIff(failed + [Sync(more)], valid);
  }
}
