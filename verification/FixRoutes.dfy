/** The pass of scripts/macx/fix-routes-osx.sh that re-adds split networks. */
module FixRoutes {
  import opened Common
  import opened Nuts

  datatype Command = DeleteRoute(net: Network, gw: string) | AddRoute(net: Network, gw: string, iface: bool)

  // delroute then addroute; neither does anything without a gateway
  function ReAdd(net: Network, gw: string): seq<Command> {
    if gw == "" then [] else [DeleteRoute(net, gw), AddRoute(net, gw, true)]
  }

  /** The i-th network forms a supernet with the one before it or the one after it. */
  predicate InSupernet(nets: seq<Network>, i: nat)
    requires i < |nets|
  {
    (i > 0 && Super(nets[i - 1], nets[i]).Some?) || (i + 1 < |nets| && Super(nets[i], nets[i + 1]).Some?)
  }

  /** The split ones among the first k networks, each once and in order. */
  function Fixed(nets: seq<Network>, k: nat, gw: string): seq<Command>
    requires k <= |nets|
  {
    if k == 0 then []
    else Fixed(nets, k - 1, gw) + if InSupernet(nets, k - 1) then ReAdd(nets[k - 1], gw) else []
  }

  /** One pass with a look back: a network is dealt with when its successor has been seen. */
  method FixRoutes(nets: seq<Network>, gw: string) returns (out: seq<Command>)
    ensures out == Fixed(nets, |nets|, gw)
  {
    hide Super, ReAdd;
    var prev: Option<Network> := None;
    var isSuper, isSuperPrev := false, false;
    out := [];
    for i := 0 to |nets|
      invariant prev == if i == 0 then None else Some(nets[i - 1])
      invariant isSuper == isSuperPrev == (i > 1 && Super(nets[i - 2], nets[i - 1]).Some?)
      invariant out == if i == 0 then [] else Fixed(nets, i - 1, gw)
    {
      var net := nets[i];
      if prev.Some? {
        isSuper := false;
        if Super(prev.value, net).Some? {
          isSuper, isSuperPrev := true, true;
        }
        if isSuperPrev {
          out := out + ReAdd(prev.value, gw);
        }
      }
      prev := Some(net);
      isSuperPrev := isSuper;
    }
    if isSuperPrev {
      out := out + ReAdd(prev.value, gw);
    }
  }

  /** The networks lie one after another without overlap, as sorting by address leaves them. */
  ghost predicate Ascending(nets: seq<Network>) {
    && (forall i :: 0 <= i < |nets| ==> nets[i].cidr <= 32)
    && (forall i :: 0 <= i < |nets| - 1 ==> NetDec(nets[i]) + Cidr2Range(nets[i].cidr) <= NetDec(nets[i + 1]))
  }

  lemma {:induction false} StartsAscend(nets: seq<Network>, i: nat, j: nat)
    requires Ascending(nets) && i < j < |nets|
    ensures NetDec(nets[i]) + Cidr2Range(nets[i].cidr) <= NetDec(nets[j])
    ensures i + 1 < j ==> NetDec(nets[i]) + Cidr2Range(nets[i].cidr) < NetDec(nets[j])
    decreases j - i
  {
    if i + 1 < j {
      StartsAscend(nets, i, j - 1);
    }
  }

  /** Among networks that do not overlap, looking at neighbours misses no supernet: a network
      is re-added exactly when it forms one with any other in the list. */
  lemma NeighboursSuffice(nets: seq<Network>, i: nat)
    requires Ascending(nets) && i < |nets|
    ensures InSupernet(nets, i) <==>
            exists j :: 0 <= j < |nets| && j != i && Super(nets[j], nets[i]).Some?
  {
    hide Super, NetDec, Cidr2Range;
    forall j | 0 <= j < |nets| && j != i
      ensures Super(nets[j], nets[i]).Some? ==> j == i - 1 || j == i + 1
      ensures Super(nets[j], nets[i]).Some? <==> Super(nets[i], nets[j]).Some?
    {
      SuperIff(nets[j], nets[i]);
      SuperIff(nets[i], nets[j]);
      RangePositive(nets[i].cidr);
      StartsAscend(nets, if i < j then i else j, if i < j then j else i);
    }
    if InSupernet(nets, i) {
      var j := if i > 0 && Super(nets[i - 1], nets[i]).Some? then i - 1 else i + 1;
      assert Super(nets[j], nets[i]).Some?;
    }
  }

  lemma RangePositive(cidr: nat)
    requires cidr <= 32
    ensures Cidr2Range(cidr) > 0
  {
  }

  // ---- what the commands are, and what they do ----

  /** Positions below k in increasing order, of the networks that are in a supernet. */
  ghost predicate Splits(nets: seq<Network>, k: nat, at: seq<nat>)
    requires k <= |nets|
  {
    && (forall a, b :: 0 <= a < b < |at| ==> at[a] < at[b])
    && (forall i :: i in at <==> 0 <= i < k && InSupernet(nets, i))
  }

  /** Each network at these positions deleted and then added for the interface, in turn. */
  ghost predicate Pairs(out: seq<Command>, nets: seq<Network>, at: seq<nat>, gw: string) {
    && |out| == 2 * |at|
    && forall a :: 0 <= a < |at| ==>
         && at[a] < |nets| && out[2 * a] == DeleteRoute(nets[at[a]], gw)
         && out[2 * a + 1] == AddRoute(nets[at[a]], gw, true)
  }

  lemma SplitsNext(nets: seq<Network>, k: nat, at: seq<nat>)
    requires k < |nets| && Splits(nets, k, at)
    ensures Splits(nets, k + 1, if InSupernet(nets, k) then at + [k] else at)
  {
    hide InSupernet;
    forall a | 0 <= a < |at| ensures at[a] < k {
      assert at[a] in at;
    }
  }

  lemma PairsNext(out: seq<Command>, nets: seq<Network>, at: seq<nat>, k: nat, gw: string)
    requires Pairs(out, nets, at, gw) && k < |nets| && gw != ""
    ensures Pairs(out + ReAdd(nets[k], gw), nets, at + [k], gw)
  {
    var after, positions := out + ReAdd(nets[k], gw), at + [k];
    forall a | 0 <= a < |positions|
      ensures after[2 * a] == DeleteRoute(nets[positions[a]], gw)
      ensures after[2 * a + 1] == AddRoute(nets[positions[a]], gw, true)
    {
      if a < |at| {
        assert after[2 * a] == out[2 * a] && after[2 * a + 1] == out[2 * a + 1];
      }
    }
  }

  /** Without a gateway there is no command. With one, each network that is in a supernet is
      deleted and then added for the interface, in the order of the list, and there is no
      other command. */
  lemma {:induction false} FixedIs(nets: seq<Network>, k: nat, gw: string) returns (at: seq<nat>)
    requires k <= |nets|
    ensures Splits(nets, k, at)
    ensures if gw == "" then Fixed(nets, k, gw) == [] else Pairs(Fixed(nets, k, gw), nets, at, gw)
  {
    hide InSupernet, Super, Splits, Pairs;
    if k == 0 {
      at := [];
      NoPairs(nets, gw);
    } else {
      at := FixedIs(nets, k - 1, gw);
      SplitsNext(nets, k - 1, at);
      if InSupernet(nets, k - 1) {
        if gw != "" {
          PairsNext(Fixed(nets, k - 1, gw), nets, at, k - 1, gw);
        }
        at := at + [k - 1];
      }
      assert Fixed(nets, k - 1, gw) + [] == Fixed(nets, k - 1, gw);
    }
  }

  lemma NoPairs(nets: seq<Network>, gw: string)
    ensures Splits(nets, 0, []) && Pairs([], nets, [], gw)
  {
  }

  datatype Entry = Entry(net: Network, gw: string, iface: bool)

  function Perform(table: set<Entry>, out: seq<Command>): set<Entry> {
    if out == [] then table
    else
      var before := Perform(table, out[..|out| - 1]);
      match out[|out| - 1]
      case DeleteRoute(net, gw) => set e | e in before && !(e.net == net && e.gw == gw)
      case AddRoute(net, gw, iface) => before + {Entry(net, gw, iface)}
  }

  lemma PerformReAdd(table: set<Entry>, out: seq<Command>, net: Network, gw: string)
    ensures Perform(table, out + ReAdd(net, gw)) ==
            if gw == "" then Perform(table, out)
            else (set e | e in Perform(table, out) && !(e.net == net && e.gw == gw)) + {Entry(net, gw, true)}
  {
    if gw == "" {
      assert out + ReAdd(net, gw) == out;
    } else {
      var deleted := out + [DeleteRoute(net, gw)];
      assert deleted[..|out|] == out;
      assert out + ReAdd(net, gw) == deleted + [AddRoute(net, gw, true)];
      assert (deleted + [AddRoute(net, gw, true)])[..|deleted|] == deleted;
    }
  }

  ghost predicate ReAdded(nets: seq<Network>, k: nat, gw: string, e: Entry)
    requires k <= |nets|
  {
    gw != "" && e.gw == gw && exists i :: 0 <= i < k && InSupernet(nets, i) && nets[i] == e.net
  }

  lemma ReAddedNext(nets: seq<Network>, k: nat, gw: string, e: Entry)
    requires k < |nets|
    ensures ReAdded(nets, k + 1, gw, e) <==>
            ReAdded(nets, k, gw, e) || (gw != "" && e.gw == gw && InSupernet(nets, k) && nets[k] == e.net)
  {
    hide InSupernet;
    if gw != "" && e.gw == gw && InSupernet(nets, k) && nets[k] == e.net {
      assert ReAdded(nets, k + 1, gw, e);
    }
  }

  /** Afterwards each network in a supernet has exactly the interface route through the gateway,
      and every other route is as it was. */
  lemma {:induction false} FixedTable(nets: seq<Network>, k: nat, gw: string, table: set<Entry>, e: Entry)
    requires k <= |nets|
    ensures e in Perform(table, Fixed(nets, k, gw)) <==> if ReAdded(nets, k, gw, e) then e.iface else e in table
  {
    hide InSupernet, Super, ReAdd, Perform, ReAdded;
    if k == 0 {
      PerformNothing(nets, gw, table, e);
    } else {
      FixedTable(nets, k - 1, gw, table, e);
      ReAddedNext(nets, k - 1, gw, e);
      PerformReAdd(table, Fixed(nets, k - 1, gw), nets[k - 1], gw);
      assert Fixed(nets, k - 1, gw) + [] == Fixed(nets, k - 1, gw);
    }
  }

  lemma PerformNothing(nets: seq<Network>, gw: string, table: set<Entry>, e: Entry)
    ensures Perform(table, []) == table && !ReAdded(nets, 0, gw, e)
  {
  }
}
