/** `transfers_by_gw` (app.py:58-72): a manager's transfer log grouped by
    gameweek, each transfer's in and out ids resolved through the directory. */
module Grouping {
  import opened Types
  import opened Seqs
  import opened Directory
  import opened League

  predicate Resolvable(dir: PlayerDirectory, t: Transfer) {
    t.elementIn in dir && t.elementOut in dir
  }

  predicate AllResolvable(dir: PlayerDirectory, log: seq<Transfer>) {
    forall t :: t in log ==> Resolvable(dir, t)
  }

  /** The record a transfer becomes: directory names, the transfer's own costs. */
  function Resolved(dir: PlayerDirectory, t: Transfer): TransferMade
    requires Resolvable(dir, t)
  {
    TransferMade(PlayerMove(dir[t.elementIn].name, t.elementInCost),
                 PlayerMove(dir[t.elementOut].name, t.elementOutCost))
  }

  /** The KeyError a transfer raises: `element_in` is looked up before `element_out`. */
  function LookupFailure(dir: PlayerDirectory, t: Transfer): Error
    requires !Resolvable(dir, t)
  {
    UnknownPlayer(if t.elementIn !in dir then t.elementIn else t.elementOut)
  }

  /** `log[k]` is the first transfer of the log that cannot be resolved. */
  predicate FirstUnresolvable(dir: PlayerDirectory, log: seq<Transfer>, k: nat)
    requires k < |log|
  {
    !Resolvable(dir, log[k]) && forall j :: 0 <= j < k ==> Resolvable(dir, log[j])
  }

  /** The error the transfer loop stops with, if any: that of the first
      unresolvable transfer in log order. */
  function FirstFailure(dir: PlayerDirectory, log: seq<Transfer>): (r: Option<Error>)
    ensures r.None? <==> AllResolvable(dir, log)
    ensures r.Some? ==> exists k :: 0 <= k < |log| && FirstUnresolvable(dir, log, k) &&
                                    r.value == LookupFailure(dir, log[k])
  {
    if log == [] then None
    else
      var front := log[..|log| - 1];
      assert log == front + [log[|log| - 1]];
      match FirstFailure(dir, front)
      case Some(e) =>
        assert exists k :: 0 <= k < |front| && FirstUnresolvable(dir, front, k) &&
                           e == LookupFailure(dir, front[k]);
        var k :| 0 <= k < |front| && FirstUnresolvable(dir, front, k) &&
                 e == LookupFailure(dir, front[k]);
        assert FirstUnresolvable(dir, log, k);
        Some(e)
      case None =>
        if Resolvable(dir, log[|log| - 1]) then None
        else
          assert FirstUnresolvable(dir, log, |log| - 1);
          Some(LookupFailure(dir, log[|log| - 1]))
  }

  /** The transfers of `log` made in gameweek `e`, in log order. */
  function InGameweek(log: seq<Transfer>, e: int): (r: seq<Transfer>)
    ensures forall t :: t in r ==> t in log && t.event == e
  {
    if log == [] then []
    else
      var front := log[..|log| - 1];
      InGameweek(front, e) + (if log[|log| - 1].event == e then [log[|log| - 1]] else [])
  }

  function ResolveAll(dir: PlayerDirectory, ts: seq<Transfer>): seq<TransferMade>
    requires AllResolvable(dir, ts)
  {
    seq(|ts|, k requires 0 <= k < |ts| => Resolved(dir, ts[k]))
  }

  function Events(log: seq<Transfer>): set<int> {
    set t | t in log :: t.event
  }

  /** The gameweeks of the log in the order they first appear: the key order of
      `transfers_by_gw`. */
  function GroupOrder(log: seq<Transfer>): seq<int> {
    FirstOccurrences(seq(|log|, k requires 0 <= k < |log| => log[k].event))
  }

  /** `transfers_by_gw` once the loop has run without a lookup failure: one group
      per gameweek that has transfers, holding that gameweek's transfers,
      resolved, in log order. */
  function Grouped(dir: PlayerDirectory, log: seq<Transfer>): map<int, seq<TransferMade>>
    requires AllResolvable(dir, log)
  {
    map e | e in Events(log) :: ResolveAll(dir, InGameweek(log, e))
  }

  /** What the transfer loop of one manager produces: the first lookup failure,
      or the groups. */
  function GroupsOf(dir: PlayerDirectory, log: seq<Transfer>): Result<map<int, seq<TransferMade>>> {
    match FirstFailure(dir, log)
    case Some(e) => Err(e)
    case None => Ok(Grouped(dir, log))
  }

  lemma InGameweekOutsideEvents(log: seq<Transfer>, e: int)
    requires e !in Events(log)
    ensures InGameweek(log, e) == []
  {
  }

  lemma InGameweekSnoc(log: seq<Transfer>, t: Transfer, e: int)
    ensures InGameweek(log + [t], e) == InGameweek(log, e) + (if t.event == e then [t] else [])
  {
    assert (log + [t])[..|log|] == log;
  }

  lemma EventsSnoc(log: seq<Transfer>, t: Transfer)
    ensures Events(log + [t]) == Events(log) + {t.event}
  {
    var after := log + [t];
    forall e | e in Events(after)
      ensures e in Events(log) + {t.event}
    {
      var u :| u in after && u.event == e;
      if u != t { assert u in log; }
    }
    forall e | e in Events(log)
      ensures e in Events(after)
    {
      var u :| u in log && u.event == e;
      assert u in after;
    }
  }

  lemma AllResolvablePrefix(dir: PlayerDirectory, log: seq<Transfer>, t: Transfer)
    requires AllResolvable(dir, log + [t])
    ensures AllResolvable(dir, log)
  {
    forall u | u in log
      ensures Resolvable(dir, u)
    {
      assert u in log + [t];
    }
  }

  lemma GroupedSnocOther(dir: PlayerDirectory, log: seq<Transfer>, t: Transfer, e: int)
    requires AllResolvable(dir, log + [t]) && AllResolvable(dir, log)
    requires e in Events(log) && e != t.event
    ensures Grouped(dir, log + [t])[e] == Grouped(dir, log)[e]
  {
    EventsSnoc(log, t);
    InGameweekSnoc(log, t, e);
  }

  lemma ResolveAllSnoc(dir: PlayerDirectory, ts: seq<Transfer>, t: Transfer)
    requires AllResolvable(dir, ts + [t]) && AllResolvable(dir, ts)
    ensures ResolveAll(dir, ts + [t]) == ResolveAll(dir, ts) + [Resolved(dir, t)]
  {
    assert (ts + [t])[|ts|] == t;
    assert forall k :: 0 <= k < |ts| ==> (ts + [t])[k] == ts[k];
  }

  lemma GroupedSnocOwn(dir: PlayerDirectory, log: seq<Transfer>, t: Transfer)
    requires AllResolvable(dir, log + [t]) && AllResolvable(dir, log)
    ensures
      var g := Grouped(dir, log);
      Grouped(dir, log + [t])[t.event] ==
        (if t.event in g then g[t.event] else []) + [Resolved(dir, t)]
  {
    EventsSnoc(log, t);
    InGameweekSnoc(log, t, t.event);
    if t.event !in Events(log) {
      InGameweekOutsideEvents(log, t.event);
    }
    var own := InGameweek(log, t.event);
    assert AllResolvable(dir, own + [t]) by {
      forall u | u in own + [t] ensures Resolvable(dir, u) {
        assert u in log + [t];
      }
    }
    ResolveAllSnoc(dir, own, t);
  }

  lemma GroupsEqual(a: map<int, seq<TransferMade>>, b: map<int, seq<TransferMade>>)
    requires forall e :: e in a <==> e in b
    requires forall e :: e in a ==> a[e] == b[e]
    ensures a == b
  {
    forall e
      ensures e in a.Keys <==> e in b.Keys
    {
      assert e in a <==> e in b;
    }
    assert a.Keys == b.Keys;
    assert forall e :: e in a ==> a[e] == b[e];
  }

  /** One gameweek's group after one more transfer. */
  lemma GroupedSnocAt(dir: PlayerDirectory, log: seq<Transfer>, t: Transfer, e: int)
    requires AllResolvable(dir, log + [t]) && AllResolvable(dir, log)
    ensures
      var g, g' := Grouped(dir, log), Grouped(dir, log + [t]);
      var h := g[t.event := (if t.event in g then g[t.event] else []) + [Resolved(dir, t)]];
      (e in g' <==> e in h) && (e in g' ==> g'[e] == h[e])
  {
    EventsSnoc(log, t);
    if e == t.event {
      GroupedSnocOwn(dir, log, t);
    } else if e in Events(log) {
      GroupedSnocOther(dir, log, t, e);
    }
  }

  /** One more transfer appends its resolved record to its own gameweek's group
      (creating the group first if needed) and leaves every other group alone. */
  lemma GroupedSnoc(dir: PlayerDirectory, log: seq<Transfer>, t: Transfer)
    requires AllResolvable(dir, log + [t])
    ensures AllResolvable(dir, log)
    ensures
      var g := Grouped(dir, log);
      Grouped(dir, log + [t]) ==
        g[t.event := (if t.event in g then g[t.event] else []) + [Resolved(dir, t)]]
  {
    AllResolvablePrefix(dir, log, t);
    var g, g' := Grouped(dir, log), Grouped(dir, log + [t]);
    var h := g[t.event := (if t.event in g then g[t.event] else []) + [Resolved(dir, t)]];
    forall e
      ensures (e in g' <==> e in h) && (e in g' ==> g'[e] == h[e])
    {
      GroupedSnocAt(dir, log, t, e);
    }
    assert forall e :: e in g' <==> e in h;
    GroupsEqual(g', h);
  }

  /** A failure in a prefix of the log is the failure of the whole log. */
  lemma {:induction false} FirstFailureOfPrefix(dir: PlayerDirectory, log: seq<Transfer>, n: nat)
    requires n <= |log| && FirstFailure(dir, log[..n]).Some?
    ensures FirstFailure(dir, log) == FirstFailure(dir, log[..n])
    decreases |log| - n
  {
    if n < |log| {
      var front := log[..|log| - 1];
      assert front[..n] == log[..n];
      FirstFailureOfPrefix(dir, front, n);
    } else {
      assert log[..n] == log;
    }
  }

  /** Every transfer lies in exactly one group: the one of its own gameweek. */
  lemma {:induction false} TransferInOwnGroupOnly(log: seq<Transfer>, k: nat, e: int)
    requires k < |log|
    ensures log[k] in InGameweek(log, e) <==> e == log[k].event
  {
    var front := log[..|log| - 1];
    if k < |log| - 1 {
      TransferInOwnGroupOnly(front, k, e);
      assert front[k] == log[k];
    }
  }

  /** Grouping keeps log order: the group of a log is the group of any prefix
      followed by the group of the rest. */
  lemma {:induction false} InGameweekConcat(a: seq<Transfer>, b: seq<Transfer>, e: int)
    ensures InGameweek(a + b, e) == InGameweek(a, e) + InGameweek(b, e)
  {
    if b != [] {
      var b' := b[..|b| - 1];
      assert (a + b)[..|a + b| - 1] == a + b';
      InGameweekConcat(a, b', e);
    } else {
      assert a + b == a;
    }
  }

  /** The total size of the groups named by `es`. */
  function SizeOfGroups(groups: map<int, seq<TransferMade>>, es: seq<int>): nat
    requires forall i :: 0 <= i < |es| ==> es[i] in groups
  {
    if es == [] then 0
    else SizeOfGroups(groups, es[..|es| - 1]) + |groups[es[|es| - 1]]|
  }

  /** The number of transfers of `log` in the gameweeks `es`. */
  function CountInGameweeks(log: seq<Transfer>, es: seq<int>): nat {
    if es == [] then 0 else CountInGameweeks(log, es[..|es| - 1]) + |InGameweek(log, es[|es| - 1])|
  }

  lemma {:induction false} CountInGameweeksSnoc(log: seq<Transfer>, t: Transfer, es: seq<int>)
    requires Distinct(es)
    ensures CountInGameweeks(log + [t], es) ==
            CountInGameweeks(log, es) + (if t.event in es then 1 else 0)
  {
    if es != [] {
      var front, last := es[..|es| - 1], es[|es| - 1];
      DistinctFront(es);
      CountInGameweeksSnoc(log, t, front);
      InGameweekSnoc(log, t, last);
      InFrontOrLast(es, t.event);
    }
  }

  lemma {:induction false} CountInGameweeksOfNothing(es: seq<int>)
    ensures CountInGameweeks([], es) == 0
  {
    if es != [] {
      CountInGameweeksOfNothing(es[..|es| - 1]);
    }
  }

  /** When `es` lists every gameweek of the log once, it counts every transfer. */
  lemma {:induction false} CountInGameweeksCover(log: seq<Transfer>, es: seq<int>)
    requires Distinct(es)
    requires forall t :: t in log ==> t.event in es
    ensures CountInGameweeks(log, es) == |log|
  {
    if log == [] {
      CountInGameweeksOfNothing(es);
    } else {
      var front, t := log[..|log| - 1], log[|log| - 1];
      assert log == front + [t];
      CountInGameweeksCover(front, es);
      CountInGameweeksSnoc(front, t, es);
    }
  }

  lemma {:induction false} SizeOfGroupedIsCount(dir: PlayerDirectory, log: seq<Transfer>, es: seq<int>)
    requires AllResolvable(dir, log)
    requires forall i :: 0 <= i < |es| ==> es[i] in Events(log)
    ensures SizeOfGroups(Grouped(dir, log), es) == CountInGameweeks(log, es)
  {
    if es != [] {
      SizeOfGroupedIsCount(dir, log, es[..|es| - 1]);
    }
  }

  /** The groups, taken in their key order, hold exactly as many transfers as the
      log: each key once, and the group sizes sum to the log length. */
  lemma GroupSizesSum(dir: PlayerDirectory, log: seq<Transfer>)
    requires AllResolvable(dir, log)
    ensures forall e :: e in GroupOrder(log) <==> e in Grouped(dir, log)
    ensures Distinct(GroupOrder(log))
    ensures SizeOfGroups(Grouped(dir, log), GroupOrder(log)) == |log|
  {
    var events := seq(|log|, k requires 0 <= k < |log| => log[k].event);
    var order := GroupOrder(log);
    forall e | e in order
      ensures e in Events(log)
    {
      var k :| 0 <= k < |events| && events[k] == e;
      assert log[k] in log;
    }
    forall e | e in Events(log)
      ensures e in order
    {
      var t :| t in log && t.event == e;
      var k :| 0 <= k < |log| && log[k] == t;
      assert events[k] == e;
    }
    forall t | t in log
      ensures t.event in order
    {
      assert t.event in Events(log);
    }
    SizeOfGroupedIsCount(dir, log, order);
    CountInGameweeksCover(log, order);
  }

  /** One more resolvable transfer: still no failure, and its group grows by it. */
  lemma GroupStep(dir: PlayerDirectory, log: seq<Transfer>, i: nat)
    requires i < |log| && AllResolvable(dir, log[..i]) && Resolvable(dir, log[i])
    ensures AllResolvable(dir, log[..i + 1])
    ensures
      var g := Grouped(dir, log[..i]);
      Grouped(dir, log[..i + 1]) ==
        g[log[i].event := (if log[i].event in g then g[log[i].event] else []) + [Resolved(dir, log[i])]]
  {
    assert log[..i + 1] == log[..i] + [log[i]];
    GroupedSnoc(dir, log[..i], log[i]);
  }

  /** The first unresolvable transfer ends the loop with its lookup failure. */
  lemma FailStep(dir: PlayerDirectory, log: seq<Transfer>, i: nat)
    requires i < |log| && AllResolvable(dir, log[..i]) && !Resolvable(dir, log[i])
    ensures GroupsOf(dir, log) == Err(LookupFailure(dir, log[i]))
  {
    assert FirstFailure(dir, log[..i]).None?;
    assert log[..i + 1] == log[..i] + [log[i]];
    FirstFailureOfPrefix(dir, log, i + 1);
  }

  /** The transfer loop of `get_team_data`, one transfer after another. */
  method GroupTransfers(dir: PlayerDirectory, log: seq<Transfer>)
    returns (res: Result<map<int, seq<TransferMade>>>)
    ensures res == GroupsOf(dir, log)
  {
    var transfersByGw: map<int, seq<TransferMade>> := map[];
    var i := 0;
    while i < |log|
      invariant 0 <= i <= |log|
      invariant AllResolvable(dir, log[..i])
      invariant transfersByGw == Grouped(dir, log[..i])
    {
      var t := log[i];
      if !Resolvable(dir, t) {
        FailStep(dir, log, i);
        return Err(LookupFailure(dir, t));
      }
      ghost var before := transfersByGw;
      ghost var group := if t.event in before then before[t.event] else [];
      var playerIn := PlayerMove(dir[t.elementIn].name, t.elementInCost);
      var playerOut := PlayerMove(dir[t.elementOut].name, t.elementOutCost);
      if t.event !in transfersByGw {
        transfersByGw := transfersByGw[t.event := []];
      }
      assert transfersByGw[t.event] == group;
      transfersByGw := transfersByGw[t.event := transfersByGw[t.event] + [TransferMade(playerIn, playerOut)]];
      assert transfersByGw == before[t.event := group + [Resolved(dir, t)]];
      GroupStep(dir, log, i);
      i := i + 1;
    }
    assert log[..i] == log;
    assert FirstFailure(dir, log).None?;
    res := Ok(transfersByGw);
  }
}
