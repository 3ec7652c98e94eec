/** What the events of a run say about one node, without any table or index: when it was
    registered, what it reported last, and whether something ended it since.  The registry's
    table and answers are proved to be exactly that. */
module RegistryHistory {
  import opened Registry

  /** What a node registered as `stored` has last reported. */
  function Told(id: NodeId, stored: NodeInfo, ops: seq<(Op, nat)>): NodeInfo {
    if ops == [] then stored
    else
      var before := Told(id, stored, ops[..|ops| - 1]);
      match ops[|ops| - 1]
      case (Heartbeat(x, available, models), now) =>
        if x == id then before.(lastHeartbeat := now, availableMemory := available, models := models) else before
      case _ => before
  }

  /** It was not removed, and no scan found its last report thirty-one seconds old. */
  ghost predicate Outlives(id: NodeId, stored: NodeInfo, ops: seq<(Op, nat)>) {
    forall j {:trigger ops[j]} :: 0 <= j < |ops| ==>
      && ops[j].0 != Remove(id)
      && (ops[j].0.Scan? ==> ops[j].1 - Told(id, stored, ops[..j]).lastHeartbeat < 31_000_000_000)
  }

  // ---------------------------------------------------------------- one operation more

  lemma {:induction false} RunSnoc(h: History, ops: seq<(Op, nat)>, last: (Op, nat))
    ensures Run(h, ops + [last]) == Next(Run(h, ops), last.0, last.1)
    ensures FreshStamps(h, ops + [last]) <==> FreshStamps(h, ops) && FreshStamp(Run(h, ops), last.0, last.1)
    decreases |ops|
  {
    hide Next, FreshStamp;
    if ops == [] {
      assert ops + [last] == [last] && [last][1..] == [];
    } else {
      assert (ops + [last])[1..] == ops[1..] + [last];
      RunSnoc(Next(h, ops[0].0, ops[0].1), ops[1..], last);
    }
  }

  lemma {:induction false} RunAppend(h: History, a: seq<(Op, nat)>, b: seq<(Op, nat)>)
    ensures Run(h, a + b) == Run(Run(h, a), b)
    ensures FreshStamps(h, a + b) <==> FreshStamps(h, a) && FreshStamps(Run(h, a), b)
    decreases |a|
  {
    hide Next, FreshStamp;
    if a == [] {
      assert a + b == b;
    } else {
      assert (a + b)[1..] == a[1..] + b;
      RunAppend(Next(h, a[0].0, a[0].1), a[1..], b);
    }
  }

  lemma OutlivesSnoc(id: NodeId, stored: NodeInfo, ops: seq<(Op, nat)>, last: (Op, nat))
    ensures Outlives(id, stored, ops + [last]) <==>
      && Outlives(id, stored, ops)
      && last.0 != Remove(id)
      && (last.0.Scan? ==> last.1 - Told(id, stored, ops).lastHeartbeat < 31_000_000_000)
  {
    hide Told;
    var all := ops + [last];
    assert all[..|ops|] == ops && all[|ops|] == last;
    assert forall j :: 0 <= j < |ops| ==> all[j] == ops[j] && all[..j] == ops[..j];
  }

  /** What one operation does to one registered node. */
  lemma LifeStep(h: History, id: NodeId, op: Op, now: nat)
    requires id in h.state.nodes && h.state.nodes[id].status == ONLINE && Used(h.stamps, id)
    requires FreshStamp(h, op, now)
    ensures var stored := h.state.nodes[id];
      var n := Next(h, op, now).state.nodes;
      && (id in n <==> op != Remove(id) && (op.Scan? ==> now - stored.lastHeartbeat < 31_000_000_000))
      && (id in n ==> n[id] == match op
            case Heartbeat(x, available, models) =>
              if x != id then stored
              else stored.(lastHeartbeat := now, availableMemory := available, models := models)
            case _ => stored)
  {
    match op
    case Register(info) => FreshStampFreshId(h.stamps, info.addr, now);
    case _ =>
  }

  /** A node that is gone stays gone through one more operation. */
  lemma GoneStep(h: History, id: NodeId, op: Op, now: nat)
    requires id !in h.state.nodes && Used(h.stamps, id) && FreshStamp(h, op, now)
    ensures id !in Next(h, op, now).state.nodes
  {
    if op.Register? {
      FreshStampFreshId(h.stamps, op.info.addr, now);
    }
  }

  lemma UsedStays(h: History, id: NodeId, op: Op, now: nat)
    requires Used(h.stamps, id)
    ensures Used(Next(h, op, now).stamps, id)
  {
    var stamp :| stamp in h.stamps && IdOf(stamp.0, stamp.1) == id;
    assert stamp in Next(h, op, now).stamps;
  }

  // ---------------------------------------------------------------- the life of a node

  /** A registered node is in the table, with its last report, exactly as long as nothing ended it,
      whatever happens to the other nodes. */
  lemma {:induction false} NodeLife(h: History, id: NodeId, ops: seq<(Op, nat)>)
    requires id in h.state.nodes && Consistent(h) && FreshStamps(h, ops)
    ensures var stored := h.state.nodes[id];
      var s := Run(h, ops).state;
      && (id in s.nodes <==> Outlives(id, stored, ops))
      && (id in s.nodes ==> s.nodes[id] == Told(id, stored, ops))
    ensures Used(Run(h, ops).stamps, id)
    decreases |ops|
  {
    hide Next, FreshStamp, FreshStamps, Used, Outlives, Consistent;
    assert h.state.nodes[id].status == ONLINE && Used(h.stamps, id) by { KnownNode(h, id); }
    if ops == [] {
      NothingEnds(id, h.state.nodes[id]);
    } else {
      var n := |ops| - 1;
      var before := ops[..n];
      var (op, now) := ops[n];
      assert ops == before + [ops[n]];
      RunSnoc(h, before, ops[n]);
      OutlivesSnoc(id, h.state.nodes[id], before, ops[n]);
      NodeLife(h, id, before);
      var mid := Run(h, before);
      UsedStays(mid, id, op, now);
      if id in mid.state.nodes {
        RunConsistent(h, before);
        KnownNode(mid, id);
        LifeStep(mid, id, op, now);
      } else {
        GoneStep(mid, id, op, now);
      }
    }
  }

  lemma KnownNode(h: History, id: NodeId)
    requires Consistent(h) && id in h.state.nodes
    ensures h.state.nodes[id].status == ONLINE && h.state.nodes[id].nodeId == id && Used(h.stamps, id)
  {}

  lemma NothingEnds(id: NodeId, stored: NodeInfo)
    ensures Outlives(id, stored, [])
  {}

  /** The node a registration creates. */
  function Created(info: NodeInfo, now: nat): NodeInfo {
    info.(nodeId := IdOf(info.addr, now), status := ONLINE)
  }

  lemma JustRegistered(h: History, info: NodeInfo, now: nat)
    ensures var n := Next(h, Register(info), now).state.nodes;
      IdOf(info.addr, now) in n && n[IdOf(info.addr, now)] == Created(info, now)
  {}

  /** Over every run of the registry: the node of each registration is in the table, as it was
      registered but for its last report, exactly when nothing ended it since. */
  lemma TableTellsHistory(before: seq<(Op, nat)>, info: NodeInfo, now: nat, after: seq<(Op, nat)>)
    requires FreshStamps(START, before + [(Register(info), now)] + after)
    ensures var id, created := IdOf(info.addr, now), Created(info, now);
      var s := Run(START, before + [(Register(info), now)] + after).state;
      && (id in s.nodes <==> Outlives(id, created, after))
      && (id in s.nodes ==> s.nodes[id] == Told(id, created, after))
  {
    hide Next, Run, FreshStamps, Consistent, Created, Outlives;
    var upTo := before + [(Register(info), now)];
    RunAppend(START, upTo, after);
    RunSnoc(START, before, (Register(info), now));
    StartConsistent();
    RunConsistent(START, upTo);
    JustRegistered(Run(START, before), info, now);
    NodeLife(Run(START, upTo), IdOf(info.addr, now), after);
  }

  const START := History(EMPTY, {})

  lemma StartConsistent()
    ensures Consistent(START) && IndexAgrees(START.state)
  {}

  /** Every node in the table was registered. */
  lemma {:induction false} OnlyRegistered(ops: seq<(Op, nat)>, id: NodeId) returns (k: nat)
    requires id in Run(START, ops).state.nodes
    ensures k < |ops| && ops[k].0.Register? && IdOf(ops[k].0.info.addr, ops[k].1) == id
    decreases |ops|
  {
    hide Next;
    if ops == [] {
      assert false;
    } else {
      var n := |ops| - 1;
      assert ops == ops[..n] + [ops[n]];
      RunSnoc(START, ops[..n], ops[n]);
      NewNode(Run(START, ops[..n]), ops[n].0, ops[n].1, id);
      if id in Run(START, ops[..n]).state.nodes {
        k := OnlyRegistered(ops[..n], id);
      } else {
        k := n;
      }
    }
  }

  lemma NewNode(h: History, op: Op, now: nat, id: NodeId)
    requires id in Next(h, op, now).state.nodes
    ensures id in h.state.nodes || (op.Register? && IdOf(op.info.addr, now) == id)
  {}

  // ---------------------------------------------------------------- removal

  /** A removal takes the node out of the table and out of the lists of its models, all of it, and
      touches nothing else. */
  lemma RemovedExactly(s: State, id: NodeId)
    ensures var n := RemovedNode(s, id);
      && id !in n.nodes
      && (forall x :: x != id ==> (x in n.nodes <==> x in s.nodes) && (x in n.nodes ==> n.nodes[x] == s.nodes[x]))
      && (forall x, m :: multiset(At(n.index, m))[x] ==
            if x == id && id in s.nodes && m in s.nodes[id].models then 0 else multiset(At(s.index, m))[x])
  {
    if id in s.nodes {
      hide Erased, At;
      var models := s.nodes[id].models;
      assert RemovedNode(s, id).index == Erased(s.index, models, id);
      forall x, m
        ensures multiset(At(Erased(s.index, models, id), m))[x] ==
          if x == id && m in models then 0 else multiset(At(s.index, m))[x]
      {
        ErasedExactly(s.index, models, id, m);
      }
    }
  }

  lemma {:induction false} ErasedExactly(index: map<Model, seq<NodeId>>, models: seq<Model>, id: NodeId, m: Model)
    ensures var after := multiset(At(Erased(index, models, id), m));
      forall x :: after[x] == if x == id && m in models then 0 else multiset(At(index, m))[x]
    decreases |models|
  {
    if models != [] {
      var n := |models| - 1;
      var before := Erased(index, models[..n], id);
      ErasedExactly(index, models[..n], id, m);
      WithoutCounts(At(before, models[n]), id);
      assert id !in multiset(Without(At(before, models[n]), id));
      assert models == models[..n] + [models[n]];
      var lists := Erased(index, models, id);
      assert lists == before[models[n] := Without(At(before, models[n]), id)];
      hide Erased;
      assert m != models[n] ==> At(lists, m) == At(before, m);
      assert m == models[n] ==> At(lists, m) == Without(At(before, m), id);
    }
  }

  /** A node that was registered and later removed is in no later state and in no later answer. */
  lemma RemovedForGood(before: seq<(Op, nat)>, info: NodeInfo, now: nat, after: seq<(Op, nat)>, j: nat)
    requires FreshStamps(START, before + [(Register(info), now)] + after)
    requires j < |after| && after[j].0 == Remove(IdOf(info.addr, now))
    ensures var id := IdOf(info.addr, now);
      var s := Run(START, before + [(Register(info), now)] + after).state;
      && id !in s.nodes
      && forall m, readings, n ::
           |readings| == |At(s.index, m)| && n in FilteredAt(s.nodes, At(s.index, m), readings) ==> n.nodeId != id
  {
    hide Run, FreshStamps;
    var id := IdOf(info.addr, now);
    var ops := before + [(Register(info), now)] + after;
    TableTellsHistory(before, info, now, after);
    StartConsistent();
    RunConsistent(START, ops);
    var s := Run(START, ops).state;
    forall m, readings, n | |readings| == |At(s.index, m)| && n in FilteredAt(s.nodes, At(s.index, m), readings)
      ensures n.nodeId != id
    {
      AnswersFromTable(s.nodes, At(s.index, m), readings, n);
    }
  }

  lemma {:induction false} AnswersFromTable(nodes: map<NodeId, NodeInfo>, ids: seq<NodeId>, readings: seq<nat>,
                                            n: NodeInfo)
    requires |readings| == |ids| && n in FilteredAt(nodes, ids, readings)
    requires forall id :: id in nodes ==> nodes[id].nodeId == id
    ensures n.nodeId in nodes && nodes[n.nodeId] == n
    decreases |ids|
  {
    var k := |ids| - 1;
    if n in FilteredAt(nodes, ids[..k], readings[..k]) {
      AnswersFromTable(nodes, ids[..k], readings[..k], n);
    }
  }

  // ---------------------------------------------------------------- answers

  /** Over every run in which registrations list each model once and heartbeats repeat them, a query
      answers with the node of a registration exactly when nothing ended it, it supports the model
      and its last report is less than thirty seconds old, and then with that report; the oldest
      and the latest clock reading of the query stand for "old" in the two directions. */
  lemma QueryTellsHistory(before: seq<(Op, nat)>, info: NodeInfo, now: nat, after: seq<(Op, nat)>, m: Model,
                          readings: seq<nat>, first: nat, last: nat, result: seq<NodeInfo>)
    requires var ops := before + [(Register(info), now)] + after;
      FreshStamps(START, ops) && AlwaysRepeats(START, ops)
    requires var s := Run(START, before + [(Register(info), now)] + after).state;
      && |readings| == |At(s.index, m)|
      && (forall i :: 0 <= i < |readings| ==> first <= readings[i] <= last)
      && Descending(result) && multiset(result) == multiset(FilteredAt(s.nodes, At(s.index, m), readings))
    ensures var id := IdOf(info.addr, now);
      var node := Told(id, Created(info, now), after);
      var counts := Outlives(id, Created(info, now), after) && m in node.models;
      && (counts && last - node.lastHeartbeat < 30_000_000_000 ==> node in result)
      && (forall n :: n in result && n.nodeId == id ==>
            n == node && counts && first - node.lastHeartbeat < 30_000_000_000)
    ensures forall i, j :: 0 <= i < j < |result| ==> result[i].availableMemory >= result[j].availableMemory
  {
    hide Run, FreshStamps, AlwaysRepeats, FilteredAt, Told, Outlives;
    var ops := before + [(Register(info), now)] + after;
    var s := Run(START, ops).state;
    TableTellsHistory(before, info, now, after);
    EveryQueryAnswers(ops, m, readings, first, last, result);
    StartConsistent();
    RunConsistent(START, ops);
  }
}
