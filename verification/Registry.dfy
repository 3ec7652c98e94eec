/** The registry of worker nodes and its index from model names to node ids.

    The index keeps ids of nodes that timed out; queries filter them on reading.  A node id is
    the node's address and the clock reading of its registration. */
module Registry {
  import opened Common
  import Decimal

  type NodeId = string
  type Model = string

  const TICKS_PER_SECOND := 1_000_000_000
  const ONLINE_SECONDS := 30

  datatype NodeStatus = OFFLINE | ONLINE | UNHEALTHY

  datatype NodeInfo = NodeInfo(
    nodeId: NodeId,
    addr: string,
    models: seq<Model>,
    totalMemory: int,
    availableMemory: int,
    weight: int,
    status: NodeStatus,
    lastHeartbeat: int)

  /** Whole seconds between two clock readings, truncated towards zero. */
  function Seconds(ticks: int): int {
    if ticks >= 0 then ticks / TICKS_PER_SECOND else -(-ticks / TICKS_PER_SECOND)
  }

  // ---------------------------------------------------------------- the state and its operations

  datatype State = State(nodes: map<NodeId, NodeInfo>, index: map<Model, seq<NodeId>>)

  const EMPTY := State(map[], map[])

  function IdOf(addr: string, now: nat): NodeId {
    addr + "_" + Decimal.Text(now)
  }

  function At(index: map<Model, seq<NodeId>>, m: Model): seq<NodeId> {
    if m in index then index[m] else []
  }

  /** The index after `id` was appended under each of `models`, in order. */
  function Pushed(index: map<Model, seq<NodeId>>, models: seq<Model>, id: NodeId): map<Model, seq<NodeId>> {
    if models == [] then index
    else
      var before := Pushed(index, models[..|models| - 1], id);
      var m := models[|models| - 1];
      before[m := At(before, m) + [id]]
  }

  function Without(ids: seq<NodeId>, id: NodeId): (r: seq<NodeId>)
    ensures id !in r
    ensures forall x :: x != id ==> (x in r <==> x in ids)
  {
    if ids == [] then []
    else if ids[0] == id then Without(ids[1..], id)
    else [ids[0]] + Without(ids[1..], id)
  }

  function Erased(index: map<Model, seq<NodeId>>, models: seq<Model>, id: NodeId): map<Model, seq<NodeId>> {
    if models == [] then index
    else
      var before := Erased(index, models[..|models| - 1], id);
      var m := models[|models| - 1];
      before[m := Without(At(before, m), id)]
  }

  function Registered(s: State, info: NodeInfo, now: nat): State {
    var id := IdOf(info.addr, now);
    State(s.nodes[id := info.(nodeId := id, status := ONLINE)], Pushed(s.index, info.models, id))
  }

  function Heartbeaten(s: State, id: NodeId, available: int, models: seq<Model>, now: nat): State {
    if id !in s.nodes then s
    else s.(nodes := s.nodes[id := s.nodes[id].(
      lastHeartbeat := now, availableMemory := available, models := models, status := ONLINE)])
  }

  function RemovedNode(s: State, id: NodeId): State {
    if id !in s.nodes then s
    else State(s.nodes - {id}, Erased(s.index, s.nodes[id].models, id))
  }

  predicate TimedOut(node: NodeInfo, now: nat) {
    Seconds(now - node.lastHeartbeat) > ONLINE_SECONDS
  }

  function Scanned(s: State, now: nat): State {
    s.(nodes := map id | id in s.nodes && !TimedOut(s.nodes[id], now) :: s.nodes[id])
  }

  // ---------------------------------------------------------------- queries

  predicate Alive(node: NodeInfo, now: nat) {
    Seconds(now - node.lastHeartbeat) < ONLINE_SECONDS && node.status == ONLINE
  }

  predicate Descending(s: seq<NodeInfo>) {
    forall i, j :: 0 <= i < j < |s| ==> s[i].availableMemory >= s[j].availableMemory
  }

  /** The entries of one index list that pass the filter, in list order. */
  function Filtered(nodes: map<NodeId, NodeInfo>, ids: seq<NodeId>, now: nat): seq<NodeInfo> {
    if ids == [] then []
    else
      var before := Filtered(nodes, ids[..|ids| - 1], now);
      var id := ids[|ids| - 1];
      if id in nodes && Alive(nodes[id], now) then before + [nodes[id]] else before
  }

  /** The same with the clock read anew for each entry. */
  function FilteredAt(nodes: map<NodeId, NodeInfo>, ids: seq<NodeId>, readings: seq<nat>): seq<NodeInfo>
    requires |readings| == |ids|
  {
    if ids == [] then []
    else
      var k := |ids| - 1;
      var before := FilteredAt(nodes, ids[..k], readings[..k]);
      if ids[k] in nodes && Alive(nodes[ids[k]], readings[k]) then before + [nodes[ids[k]]] else before
  }

  /** The simple scan: every live, online node that supports the model. */
  function Eligible(nodes: map<NodeId, NodeInfo>, m: Model, now: nat): set<NodeId> {
    set id | id in nodes && Alive(nodes[id], now) && m in nodes[id].models
  }

  /** The nodes of the simple scan, each exactly once. */
  ghost predicate Lists(result: seq<NodeInfo>, nodes: map<NodeId, NodeInfo>, m: Model, now: nat) {
    && |result| == |Eligible(nodes, m, now)|
    && (forall id :: id in Eligible(nodes, m, now) ==> nodes[id] in result)
    && (forall n :: n in result ==> n.nodeId in Eligible(nodes, m, now) && nodes[n.nodeId] == n)
  }

  /** What an answer must be: the nodes of the simple scan, each once, most memory first. */
  ghost predicate Answers(result: seq<NodeInfo>, nodes: map<NodeId, NodeInfo>, m: Model, now: nat) {
    Descending(result) && Lists(result, nodes, m, now)
  }

  /** What an answer is when the clock moves on while it is made, from `first` to `last`: every
      node eligible until the end, only nodes eligible at the start, none twice. */
  ghost predicate AnswersWithin(result: seq<NodeInfo>, nodes: map<NodeId, NodeInfo>, m: Model,
                                first: nat, last: nat) {
    && Descending(result) && NoDuplicates(result)
    && (forall id :: id in Eligible(nodes, m, last) ==> nodes[id] in result)
    && (forall n :: n in result ==> n.nodeId in Eligible(nodes, m, first) && nodes[n.nodeId] == n)
  }

  method InsertDescending(r: seq<NodeInfo>, x: NodeInfo) returns (out: seq<NodeInfo>)
    requires Descending(r)
    ensures Descending(out) && multiset(out) == multiset(r) + multiset{x}
  {
    var k := 0;
    while k < |r| && r[k].availableMemory >= x.availableMemory
      invariant k <= |r|
      invariant forall j :: 0 <= j < k ==> r[j].availableMemory >= x.availableMemory
    {
      k := k + 1;
    }
    out := r[..k] + [x] + r[k..];
    InsertedAt(r, x, k);
  }

  lemma InsertedAt(r: seq<NodeInfo>, x: NodeInfo, k: nat)
    requires Descending(r) && k <= |r|
    requires forall j :: 0 <= j < k ==> r[j].availableMemory >= x.availableMemory
    requires k < |r| ==> r[k].availableMemory <= x.availableMemory
    ensures var out := r[..k] + [x] + r[k..];
      Descending(out) && multiset(out) == multiset(r) + multiset{x}
  {
    var out := r[..k] + [x] + r[k..];
    OneMore(r, x, k);
    forall i, j | 0 <= i < j < |out|
      ensures out[i].availableMemory >= out[j].availableMemory
    {
      assert out[i] == if i < k then r[i] else if i == k then x else r[i - 1];
      assert out[j] == if j < k then r[j] else if j == k then x else r[j - 1];
    }
  }

  lemma OneMore<T>(r: seq<T>, x: T, k: nat)
    requires k <= |r|
    ensures multiset(r[..k] + [x] + r[k..]) == multiset(r) + multiset{x}
  {
    assert r == r[..k] + r[k..];
  }

  /** The sort's contract needs only some sorted permutation; this is one way to get it. */
  method SortDescending(s: seq<NodeInfo>) returns (r: seq<NodeInfo>)
    ensures Descending(r) && multiset(r) == multiset(s)
  {
    r := [];
    for i := 0 to |s|
      invariant Descending(r) && multiset(r) == multiset(s[..i])
    {
      assert s[..i + 1] == s[..i] + [s[i]];
      r := InsertDescending(r, s[i]);
    }
    assert s[..|s|] == s;
  }

  class RegistryManager {
    var nodes: map<NodeId, NodeInfo>
    var modelToNodes: map<Model, seq<NodeId>>

    ghost function View(): State
      reads this
    {
      State(nodes, modelToNodes)
    }

    constructor ()
      ensures View() == EMPTY
    {
      nodes, modelToNodes := map[], map[];
    }

    method RegisterWorker(info: NodeInfo, now: nat) returns (id: NodeId)
      modifies this
      ensures id == IdOf(info.addr, now)
      ensures View() == Registered(old(View()), info, now)
    {
      id := info.addr + "_" + Decimal.Text(now);
      nodes := nodes[id := info];
      nodes := nodes[id := nodes[id].(nodeId := id)];
      nodes := nodes[id := nodes[id].(status := ONLINE)];
      for i := 0 to |info.models|
        invariant nodes == old(nodes)[id := info.(nodeId := id, status := ONLINE)]
        invariant modelToNodes == Pushed(old(modelToNodes), info.models[..i], id)
      {
        var model := info.models[i];
        assert info.models[..i + 1][..i] == info.models[..i];
        modelToNodes := modelToNodes[model := At(modelToNodes, model) + [id]];
      }
      assert info.models[..|info.models|] == info.models;
    }

    method UpdateHeartbeat(id: NodeId, available: int, models: seq<Model>, now: nat)
      modifies this
      ensures View() == Heartbeaten(old(View()), id, available, models, now)
    {
      if id in nodes {
        var node := nodes[id];
        node := node.(lastHeartbeat := now);
        node := node.(availableMemory := available);
        node := node.(models := models);
        node := node.(status := ONLINE);
        nodes := nodes[id := node];
      }
    }

    method RemoveWorker(id: NodeId)
      modifies this
      ensures View() == RemovedNode(old(View()), id)
      ensures nodes == old(nodes) - {id}
    {
      if id !in nodes {
        return;
      }
      var models := nodes[id].models;
      for i := 0 to |models|
        invariant nodes == old(nodes)
        invariant modelToNodes == Erased(old(modelToNodes), models[..i], id)
      {
        assert models[..i + 1][..i] == models[..i];
        modelToNodes := modelToNodes[models[i] := Without(At(modelToNodes, models[i]), id)];
      }
      assert models[..|models|] == models;
      nodes := nodes - {id};
    }

    /** `readings` are the clock readings of the loop, one for each entry of the index list. */
    method GetOnlineNodesByModel(model: Model, readings: seq<nat>) returns (result: seq<NodeInfo>)
      requires |readings| == |At(modelToNodes, model)|
      ensures forall i, j :: 0 <= i < j < |result| ==> result[i].availableMemory >= result[j].availableMemory
      ensures multiset(result) == multiset(FilteredAt(nodes, At(modelToNodes, model), readings))
    {
      result := [];
      if model !in modelToNodes {
        return;
      }
      var ids := modelToNodes[model];
      for i := 0 to |ids|
        invariant result == FilteredAt(nodes, ids[..i], readings[..i])
      {
        assert ids[..i + 1][..i] == ids[..i] && readings[..i + 1][..i] == readings[..i];
        if ids[i] in nodes {
          var node := nodes[ids[i]];
          if Seconds(readings[i] - node.lastHeartbeat) < ONLINE_SECONDS && node.status == ONLINE {
            result := result + [node];
          }
        }
      }
      assert ids[..|ids|] == ids && readings[..|ids|] == readings;
      result := SortDescending(result);
    }

    /** Removes every timed-out node and reports each of them once, in no promised order. */
    method ScanTimeoutNodes(now: nat) returns (removed: seq<NodeId>)
      modifies this
      ensures View() == Scanned(old(View()), now)
      ensures forall id :: id in removed <==> id in old(nodes) && TimedOut(old(nodes)[id], now)
      ensures forall i, j :: 0 <= i < j < |removed| ==> removed[i] != removed[j]
      ensures forall id :: id in nodes <==> id in old(nodes) && id !in removed
      ensures forall id :: id in nodes ==> nodes[id] == old(nodes)[id]
    {
      removed := [];
      var todo := nodes.Keys;
      while todo != {}
        invariant todo <= nodes.Keys && modelToNodes == old(modelToNodes)
        invariant forall id :: id in removed ==> id !in todo
        invariant forall id :: id in removed <==> id in old(nodes) && id !in nodes
        invariant forall id :: id in nodes <==>
          id in old(nodes) && (id in todo || !TimedOut(old(nodes)[id], now))
        invariant forall id :: id in nodes ==> nodes[id] == old(nodes)[id]
        invariant forall i, j :: 0 <= i < j < |removed| ==> removed[i] != removed[j]
        decreases |todo|
      {
        var id :| id in todo;
        todo := todo - {id};
        if Seconds(now - nodes[id].lastHeartbeat) > ONLINE_SECONDS {
          removed := removed + [id];
          nodes := nodes - {id};
        }
      }
    }

    predicate HasNode(id: NodeId)
      reads this
    {
      id in nodes
    }
  }

  // ---------------------------------------------------------------- the index, list by list

  predicate NoDuplicates<T(==)>(s: seq<T>) {
    forall i, j :: 0 <= i < j < |s| ==> s[i] != s[j]
  }

  lemma {:induction false} PushedAt(index: map<Model, seq<NodeId>>, models: seq<Model>, id: NodeId, m: Model)
    ensures multiset(At(Pushed(index, models, id), m))[id] == multiset(At(index, m))[id] + multiset(models)[m]
    ensures forall x :: x != id ==> multiset(At(Pushed(index, models, id), m))[x] == multiset(At(index, m))[x]
    decreases |models|
  {
    if models != [] {
      var n := |models| - 1;
      var before := Pushed(index, models[..n], id);
      PushedAt(index, models[..n], id, m);
      PushOne(before, models[n], id, m);
      LastCount(models, m);
      assert Pushed(index, models, id) == before[models[n] := At(before, models[n]) + [id]];
      hide Pushed, At;
    }
  }

  lemma LastCount<T>(s: seq<T>, x: T)
    requires s != []
    ensures multiset(s)[x] == multiset(s[..|s| - 1])[x] + if s[|s| - 1] == x then 1 else 0
  {
    assert s == s[..|s| - 1] + [s[|s| - 1]];
  }

  lemma PushOne(index: map<Model, seq<NodeId>>, model: Model, id: NodeId, m: Model)
    ensures multiset(At(index[model := At(index, model) + [id]], m))
      == multiset(At(index, m)) + if m == model then multiset{id} else multiset{}
  {}

  lemma {:induction false} ErasedAt(index: map<Model, seq<NodeId>>, models: seq<Model>, id: NodeId, m: Model)
    ensures forall x :: x != id ==> multiset(At(Erased(index, models, id), m))[x] == multiset(At(index, m))[x]
    decreases |models|
  {
    if models != [] {
      var n := |models| - 1;
      ErasedAt(index, models[..n], id, m);
      WithoutCounts(At(Erased(index, models[..n], id), m), id);
    }
  }

  lemma {:induction false} WithoutCounts(ids: seq<NodeId>, id: NodeId)
    ensures forall x :: x != id ==> multiset(Without(ids, id))[x] == multiset(ids)[x]
  {
    if ids != [] {
      WithoutCounts(ids[1..], id);
      assert ids == [ids[0]] + ids[1..];
    }
  }

  lemma CountOnce<T>(s: seq<T>)
    ensures NoDuplicates(s) <==> forall x :: multiset(s)[x] <= 1
  {
    if NoDuplicates(s) {
      forall x
        ensures multiset(s)[x] <= 1
      {
        CountAtMostOnce(s, x);
      }
    } else {
      var i, j :| 0 <= i < j < |s| && s[i] == s[j];
      assert s == s[..j] + [s[j]] + s[j + 1..];
      assert s[i] in s[..j];
      assert multiset(s)[s[j]] >= 2;
    }
  }

  lemma {:induction false} CountAtMostOnce<T>(s: seq<T>, x: T)
    requires NoDuplicates(s)
    ensures multiset(s)[x] <= 1
  {
    if s != [] {
      assert s == [s[0]] + s[1..];
      CountAtMostOnce(s[1..], x);
      assert s[0] !in s[1..];
    }
  }

  // ---------------------------------------------------------------- fresh ids

  /** An address and a clock reading: what an id is made from. */
  type Stamp = (string, nat)

  lemma LastUnderscore(addr: string, now: nat)
    ensures var id := IdOf(addr, now);
      && |addr| < |id| && id[|addr|] == '_' && id[..|addr|] == addr && id[|addr| + 1..] == Decimal.Text(now)
      && forall i :: |addr| < i < |id| ==> id[i] != '_'
  {}

  /** An id determines its address and its clock reading: the text after its last underscore
      is the reading. */
  lemma IdInjective(a: string, m: nat, b: string, n: nat)
    requires IdOf(a, m) == IdOf(b, n)
    ensures a == b && m == n
  {
    hide IdOf;
    LastUnderscore(a, m);
    LastUnderscore(b, n);
    assert |a| == |b|;
    Decimal.TextInjective(m, n);
  }

  ghost predicate Used(stamps: set<Stamp>, id: NodeId) {
    exists stamp :: stamp in stamps && IdOf(stamp.0, stamp.1) == id
  }

  lemma FreshStampFreshId(stamps: set<Stamp>, addr: string, now: nat)
    requires (addr, now) !in stamps
    ensures !Used(stamps, IdOf(addr, now))
  {
    if stamp :| stamp in stamps && IdOf(stamp.0, stamp.1) == IdOf(addr, now) {
      IdInjective(stamp.0, stamp.1, addr, now);
    }
  }

  // ---------------------------------------------------------------- every run

  datatype Op =
    | Register(info: NodeInfo)
    | Heartbeat(id: NodeId, available: int, models: seq<Model>)
    | Remove(id: NodeId)
    | Scan

  /** The manager's state and the stamps of all registrations so far. */
  datatype History = History(state: State, stamps: set<Stamp>)

  function Next(h: History, op: Op, now: nat): History {
    match op
    case Register(info) => History(Registered(h.state, info, now), h.stamps + {(info.addr, now)})
    case Heartbeat(id, available, models) => h.(state := Heartbeaten(h.state, id, available, models, now))
    case Remove(id) => h.(state := RemovedNode(h.state, id))
    case Scan => h.(state := Scanned(h.state, now))
  }

  /** No address registers twice at one clock reading. */
  predicate FreshStamp(h: History, op: Op, now: nat) {
    op.Register? ==> (op.info.addr, now) !in h.stamps
  }

  /** The index lists a live node once under each model it supports and nowhere else; entries
      of dead nodes may stay behind. */
  ghost predicate IndexAgrees(s: State) {
    forall id, m :: id in s.nodes ==> multiset(At(s.index, m))[id] == if m in s.nodes[id].models then 1 else 0
  }

  ghost predicate Consistent(h: History) {
    && (forall id :: id in h.state.nodes ==>
          h.state.nodes[id].nodeId == id && h.state.nodes[id].status == ONLINE && Used(h.stamps, id))
    && (forall id, m :: id in At(h.state.index, m) ==> Used(h.stamps, id))
  }

  /** A registration lists no model twice; a heartbeat names the models the node has. */
  predicate Repeats(h: History, op: Op) {
    match op
    case Register(info) => NoDuplicates(info.models)
    case Heartbeat(id, _, models) =>
      id in h.state.nodes ==> (set m | m in models) == (set m | m in h.state.nodes[id].models)
    case _ => true
  }

  lemma StepConsistent(h: History, op: Op, now: nat)
    requires Consistent(h)
    ensures Consistent(Next(h, op, now))
  {
    var n := Next(h, op, now);
    forall id | Used(h.stamps, id)
      ensures Used(n.stamps, id)
    {
      var stamp :| stamp in h.stamps && IdOf(stamp.0, stamp.1) == id;
      assert stamp in n.stamps;
    }
    match op
    case Register(info) =>
      var id := IdOf(info.addr, now);
      assert (info.addr, now) in n.stamps;
      forall x, m | x in At(n.state.index, m)
        ensures Used(n.stamps, x)
      {
        PushedAt(h.state.index, info.models, id, m);
        assert x != id ==> x in multiset(At(h.state.index, m));
      }
    case Remove(id) =>
      if id in h.state.nodes {
        forall x, m | x in At(n.state.index, m)
          ensures Used(n.stamps, x)
        {
          ErasedAt(h.state.index, h.state.nodes[id].models, id, m);
          assert x != id ==> x in multiset(At(h.state.index, m));
        }
      }
    case _ =>
  }

  /** Every operation keeps the index in agreement with the nodes exactly when a registration
      lists no model twice and a heartbeat names the models the node already has. */
  lemma StepAgrees(h: History, op: Op, now: nat)
    requires Consistent(h) && IndexAgrees(h.state) && FreshStamp(h, op, now)
    ensures IndexAgrees(Next(h, op, now).state) <==> Repeats(h, op)
  {
    match op
    case Register(info) => RegisterAgrees(h, info, now);
    case Heartbeat(id, available, models) => HeartbeatAgrees(h.state, id, available, models, now);
    case Remove(id) => RemoveAgrees(h.state, id);
    case Scan =>
  }

  lemma RegisterAgrees(h: History, info: NodeInfo, now: nat)
    requires Consistent(h) && IndexAgrees(h.state) && (info.addr, now) !in h.stamps
    ensures IndexAgrees(Registered(h.state, info, now)) <==> NoDuplicates(info.models)
  {
    var id := IdOf(info.addr, now);
    var n := Registered(h.state, info, now);
    FreshStampFreshId(h.stamps, info.addr, now);
    CountOnce(info.models);
    forall x, m
      ensures multiset(At(n.index, m))[x] ==
        if x == id then multiset(info.models)[m] else multiset(At(h.state.index, m))[x]
    {
      PushedAt(h.state.index, info.models, id, m);
      assert id !in At(h.state.index, m);
      assert id !in multiset(At(h.state.index, m));
    }
    if IndexAgrees(n) {
      forall m
        ensures multiset(info.models)[m] <= 1
      {
        assert multiset(At(n.index, m))[id] == if m in n.nodes[id].models then 1 else 0;
      }
    } else {
      var x, m :| x in n.nodes && multiset(At(n.index, m))[x] != if m in n.nodes[x].models then 1 else 0;
      assert x == id;
      assert m in info.models <==> m in multiset(info.models);
    }
  }

  lemma HeartbeatAgrees(s: State, id: NodeId, available: int, models: seq<Model>, now: nat)
    requires IndexAgrees(s)
    ensures IndexAgrees(Heartbeaten(s, id, available, models, now)) <==>
      (id in s.nodes ==> (set m | m in models) == (set m | m in s.nodes[id].models))
  {
    if id in s.nodes {
      var n := Heartbeaten(s, id, available, models, now);
      var named, had := set m | m in models, set m | m in s.nodes[id].models;
      if IndexAgrees(n) {
        forall m
          ensures m in named <==> m in had
        {
          assert multiset(At(n.index, m))[id] == if m in n.nodes[id].models then 1 else 0;
          assert multiset(At(s.index, m))[id] == if m in s.nodes[id].models then 1 else 0;
        }
      } else if named == had {
        forall x, m | x in n.nodes
          ensures multiset(At(n.index, m))[x] == if m in n.nodes[x].models then 1 else 0
        {
          assert m in named <==> m in had;
        }
      }
    }
  }

  lemma RemoveAgrees(s: State, id: NodeId)
    requires IndexAgrees(s)
    ensures IndexAgrees(RemovedNode(s, id))
  {
    if id in s.nodes {
      forall x, m | x in RemovedNode(s, id).nodes
        ensures multiset(At(RemovedNode(s, id).index, m))[x] == if m in s.nodes[x].models then 1 else 0
      {
        ErasedAt(s.index, s.nodes[id].models, id, m);
      }
    }
  }

  /** A run is a sequence of operations, each with the clock reading it is made at. */
  function Run(h: History, ops: seq<(Op, nat)>): History
    decreases |ops|
  {
    if ops == [] then h else Run(Next(h, ops[0].0, ops[0].1), ops[1..])
  }

  predicate FreshStamps(h: History, ops: seq<(Op, nat)>)
    decreases |ops|
  {
    ops == [] || (FreshStamp(h, ops[0].0, ops[0].1) && FreshStamps(Next(h, ops[0].0, ops[0].1), ops[1..]))
  }

  ghost predicate AlwaysRepeats(h: History, ops: seq<(Op, nat)>)
    decreases |ops|
  {
    ops == [] || (Repeats(h, ops[0].0) && AlwaysRepeats(Next(h, ops[0].0, ops[0].1), ops[1..]))
  }

  ghost predicate AlwaysAgrees(h: History, ops: seq<(Op, nat)>)
    decreases |ops|
  {
    IndexAgrees(h.state) && (ops == [] || AlwaysAgrees(Next(h, ops[0].0, ops[0].1), ops[1..]))
  }

  /** Over every run the index agrees with the nodes all along exactly when every registration
      lists its models once and every heartbeat repeats them. */
  lemma {:induction false} AgreesExactly(h: History, ops: seq<(Op, nat)>)
    requires Consistent(h) && IndexAgrees(h.state) && FreshStamps(h, ops)
    ensures AlwaysAgrees(h, ops) <==> AlwaysRepeats(h, ops)
    decreases |ops|
  {
    hide Consistent, IndexAgrees, Next, Repeats, FreshStamp;
    if ops != [] {
      var (op, now) := ops[0];
      StepConsistent(h, op, now);
      StepAgrees(h, op, now);
      if Repeats(h, op) {
        AgreesExactly(Next(h, op, now), ops[1..]);
      }
    }
  }

  lemma {:induction false} RunConsistent(h: History, ops: seq<(Op, nat)>)
    requires Consistent(h)
    ensures Consistent(Run(h, ops))
    decreases |ops|
  {
    hide Consistent, Next;
    if ops != [] {
      StepConsistent(h, ops[0].0, ops[0].1);
      RunConsistent(Next(h, ops[0].0, ops[0].1), ops[1..]);
    }
  }

  lemma {:induction false} AgreesAtEnd(h: History, ops: seq<(Op, nat)>)
    requires AlwaysAgrees(h, ops)
    ensures IndexAgrees(Run(h, ops).state)
    decreases |ops|
  {
    hide IndexAgrees, Next;
    if ops != [] {
      AgreesAtEnd(Next(h, ops[0].0, ops[0].1), ops[1..]);
    }
  }

  // ---------------------------------------------------------------- the answer of a query

  lemma {:induction false} FilteredExact(nodes: map<NodeId, NodeInfo>, ids: seq<NodeId>, now: nat)
    requires forall id :: id in nodes ==> nodes[id].nodeId == id && multiset(ids)[id] <= 1
    ensures var hits := set id | id in ids && id in nodes && Alive(nodes[id], now);
      var r := Filtered(nodes, ids, now);
      && |r| == |hits|
      && (forall id :: id in hits ==> nodes[id] in r)
      && (forall n :: n in r ==> n.nodeId in hits && nodes[n.nodeId] == n)
    decreases |ids|
  {
    if ids != [] {
      var k := |ids| - 1;
      var before, id := ids[..k], ids[k];
      assert ids == before + [id];
      FilteredExact(nodes, before, now);
      hide Alive;
      var hits := set x | x in before && x in nodes && Alive(nodes[x], now);
      if id in nodes && Alive(nodes[id], now) {
        assert id in before <==> id in multiset(before);
        assert multiset(ids)[id] == multiset(before)[id] + 1;
        assert (set x | x in ids && x in nodes && Alive(nodes[x], now)) == hits + {id};
      } else {
        assert (set x | x in ids && x in nodes && Alive(nodes[x], now)) == hits;
      }
    }
  }

  lemma ListedExactly(h: History, m: Model, now: nat)
    requires Consistent(h) && IndexAgrees(h.state)
    ensures Lists(Filtered(h.state.nodes, At(h.state.index, m), now), h.state.nodes, m, now)
  {
    var nodes, ids := h.state.nodes, At(h.state.index, m);
    FilteredExact(nodes, ids, now);
    var hits := set id | id in ids && id in nodes && Alive(nodes[id], now);
    forall id
      ensures id in hits <==> id in Eligible(nodes, m, now)
    {
      if id in nodes {
        assert multiset(ids)[id] == if m in nodes[id].models then 1 else 0;
        assert id in ids <==> id in multiset(ids);
      }
    }
    assert hits == Eligible(nodes, m, now);
  }

  /** Whatever sorted permutation a query returns, it is the answer of the simple scan. */
  lemma QueryAnswers(h: History, m: Model, now: nat, result: seq<NodeInfo>)
    requires Consistent(h) && IndexAgrees(h.state)
    requires Descending(result)
    requires multiset(result) == multiset(Filtered(h.state.nodes, At(h.state.index, m), now))
    ensures Answers(result, h.state.nodes, m, now)
  {
    hide Filtered, Eligible, Alive;
    var r := Filtered(h.state.nodes, At(h.state.index, m), now);
    ListedExactly(h, m, now);
    forall n
      ensures n in result <==> n in r
    {
      assert n in multiset(result) <==> n in multiset(r);
    }
    assert |result| == |multiset(result)| == |multiset(r)| == |r|;
  }

  lemma {:induction false} FilteredCount(nodes: map<NodeId, NodeInfo>, ids: seq<NodeId>, now: nat, id: NodeId)
    requires forall x :: x in nodes ==> nodes[x].nodeId == x
    requires id in nodes && Alive(nodes[id], now)
    ensures multiset(Filtered(nodes, ids, now))[nodes[id]] == multiset(ids)[id]
    decreases |ids|
  {
    if ids != [] {
      var k := |ids| - 1;
      assert ids == ids[..k] + [ids[k]];
      FilteredCount(nodes, ids[..k], now, id);
    }
  }

  lemma {:induction false} DistinctElements<T>(s: seq<T>)
    ensures |set x | x in s| <= |s|
    ensures |set x | x in s| == |s| ==> NoDuplicates(s)
  {
    if s != [] {
      var t := s[1..];
      DistinctElements(t);
      assert s == [s[0]] + t;
      var rest, all := set x | x in t, set x | x in s;
      assert all == rest + {s[0]};
      if s[0] in t {
        assert all == rest;
      } else if |all| == |s| {
        forall i, j | 0 <= i < j < |s|
          ensures s[i] != s[j]
        {
          assert s[j] == t[j - 1] && (i > 0 ==> s[i] == t[i - 1]);
        }
      }
    }
  }

  lemma ListsOnce(result: seq<NodeInfo>, nodes: map<NodeId, NodeInfo>, m: Model, now: nat)
    requires forall x :: x in nodes ==> nodes[x].nodeId == x
    requires Lists(result, nodes, m, now)
    ensures forall n :: multiset(result)[n] <= 1
  {
    var ids := seq(|result|, i requires 0 <= i < |result| => result[i].nodeId);
    forall id
      ensures id in ids <==> id in Eligible(nodes, m, now)
    {
      if id in Eligible(nodes, m, now) {
        var i :| 0 <= i < |result| && result[i] == nodes[id];
        assert ids[i] == id;
      }
      if id in ids {
        var i :| 0 <= i < |ids| && ids[i] == id;
        assert result[i] in result;
      }
    }
    assert (set x | x in ids) == Eligible(nodes, m, now);
    DistinctElements(ids);
    forall i, j | 0 <= i < j < |result|
      ensures result[i] != result[j]
    {
      assert ids[i] != ids[j];
    }
    CountOnce(result);
  }

  /** While every node is alive, every query lists exactly the nodes of the simple scan exactly
      when the index agrees with the nodes. */
  lemma QueriesExactly(h: History, now: nat)
    requires Consistent(h)
    requires forall id :: id in h.state.nodes ==> Alive(h.state.nodes[id], now)
    ensures IndexAgrees(h.state) <==>
      forall m :: Lists(Filtered(h.state.nodes, At(h.state.index, m), now), h.state.nodes, m, now)
  {
    var nodes, index := h.state.nodes, h.state.index;
    if IndexAgrees(h.state) {
      forall m
        ensures Lists(Filtered(nodes, At(index, m), now), nodes, m, now)
      {
        ListedExactly(h, m, now);
      }
    }
    if forall m :: Lists(Filtered(nodes, At(index, m), now), nodes, m, now) {
      forall id, m | id in nodes
        ensures multiset(At(index, m))[id] == if m in nodes[id].models then 1 else 0
      {
        var r := Filtered(nodes, At(index, m), now);
        assert Lists(r, nodes, m, now);
        ListsOnce(r, nodes, m, now);
        FilteredCount(nodes, At(index, m), now, id);
        assert nodes[id] in r <==> nodes[id] in multiset(r);
        assert m in nodes[id].models <==> id in Eligible(nodes, m, now);
      }
    }
  }

  /** A node that is alive is alive at every earlier reading too, so the answer lies between the
      one made at the latest reading and the one made at the earliest. */
  lemma {:induction false} FilteredBetween(nodes: map<NodeId, NodeInfo>, ids: seq<NodeId>, readings: seq<nat>,
                                           first: nat, last: nat)
    requires |readings| == |ids| && forall i :: 0 <= i < |ids| ==> first <= readings[i] <= last
    ensures multiset(Filtered(nodes, ids, last)) <= multiset(FilteredAt(nodes, ids, readings))
    ensures multiset(FilteredAt(nodes, ids, readings)) <= multiset(Filtered(nodes, ids, first))
    decreases |ids|
  {
    if ids != [] {
      var k := |ids| - 1;
      FilteredBetween(nodes, ids[..k], readings[..k], first, last);
      if ids[k] in nodes {
        AliveBefore(nodes[ids[k]], readings[k], last);
        AliveBefore(nodes[ids[k]], first, readings[k]);
      }
    }
  }

  lemma AliveBefore(node: NodeInfo, now: nat, later: nat)
    requires now <= later
    ensures Alive(node, later) ==> Alive(node, now)
  {}

  lemma QueryAnswersWithin(h: History, m: Model, readings: seq<nat>, first: nat, last: nat, result: seq<NodeInfo>)
    requires Consistent(h) && IndexAgrees(h.state) && Descending(result)
    requires |readings| == |At(h.state.index, m)|
    requires forall i :: 0 <= i < |readings| ==> first <= readings[i] <= last
    requires multiset(result) == multiset(FilteredAt(h.state.nodes, At(h.state.index, m), readings))
    ensures AnswersWithin(result, h.state.nodes, m, first, last)
    ensures first == last ==> Answers(result, h.state.nodes, m, first)
  {
    hide Filtered, FilteredAt, Eligible, Alive, IndexAgrees;
    var nodes, ids := h.state.nodes, At(h.state.index, m);
    var early, late := Filtered(nodes, ids, first), Filtered(nodes, ids, last);
    ListedExactly(h, m, first);
    ListedExactly(h, m, last);
    FilteredBetween(nodes, ids, readings, first, last);
    ListsOnce(early, nodes, m, first);
    CountOnce(result);
    forall n
      ensures n in late ==> n in result
      ensures n in result ==> n in early
    {
      assert n in late ==> n in multiset(late);
      assert n in result <==> n in multiset(result);
      assert n in early <==> n in multiset(early);
    }
    if first == last {
      QueryAnswers(h, m, first, result);
    }
  }

  /** After every run of registrations, heartbeats, removals and scans, each query lists the live,
      online nodes that support the model, each once, most memory first: all that are alive at its
      latest clock reading, none that was not at its earliest, and exactly those of the simple
      scan when its readings agree. */
  lemma EveryQueryAnswers(ops: seq<(Op, nat)>, m: Model, readings: seq<nat>, first: nat, last: nat,
                          result: seq<NodeInfo>)
    requires var start := History(EMPTY, {}); FreshStamps(start, ops) && AlwaysRepeats(start, ops)
    requires |readings| == |At(Run(History(EMPTY, {}), ops).state.index, m)|
    requires forall i :: 0 <= i < |readings| ==> first <= readings[i] <= last
    requires var s := Run(History(EMPTY, {}), ops).state;
      Descending(result) && multiset(result) == multiset(FilteredAt(s.nodes, At(s.index, m), readings))
    ensures AnswersWithin(result, Run(History(EMPTY, {}), ops).state.nodes, m, first, last)
    ensures first == last ==> Answers(result, Run(History(EMPTY, {}), ops).state.nodes, m, first)
  {
    hide Run, FreshStamps, AlwaysRepeats, AlwaysAgrees, Answers, AnswersWithin, FilteredAt;
    var start := History(EMPTY, {});
    AgreesExactly(start, ops);
    AgreesAtEnd(start, ops);
    RunConsistent(start, ops);
    QueryAnswersWithin(Run(start, ops), m, readings, first, last, result);
  }

  /** A node that was registered and is gone never comes back, whatever the index still says. */
  lemma {:induction false} GoneStaysGone(h: History, id: NodeId, ops: seq<(Op, nat)>)
    requires Consistent(h) && FreshStamps(h, ops)
    requires Used(h.stamps, id) && id !in h.state.nodes
    ensures id !in Run(h, ops).state.nodes
    ensures var s := Run(h, ops).state;
      forall m, now, n :: n in Filtered(s.nodes, At(s.index, m), now) ==> n.nodeId != id
    decreases |ops|
  {
    if ops == [] {
      forall m, now, n | n in Filtered(h.state.nodes, At(h.state.index, m), now)
        ensures n.nodeId != id
      {
        FilteredLive(h.state.nodes, At(h.state.index, m), now, n);
      }
    } else {
      var (op, now) := ops[0];
      StepConsistent(h, op, now);
      if op.Register? {
        FreshStampFreshId(h.stamps, op.info.addr, now);
      }
      var stamp :| stamp in h.stamps && IdOf(stamp.0, stamp.1) == id;
      assert stamp in Next(h, op, now).stamps;
      GoneStaysGone(Next(h, op, now), id, ops[1..]);
    }
  }

  lemma {:induction false} FilteredLive(nodes: map<NodeId, NodeInfo>, ids: seq<NodeId>, now: nat, n: NodeInfo)
    requires n in Filtered(nodes, ids, now)
    ensures exists id :: id in nodes && nodes[id] == n
    decreases |ids|
  {
    if n in Filtered(nodes, ids[..|ids| - 1], now) {
      FilteredLive(nodes, ids[..|ids| - 1], now, n);
    }
  }

  /** A scan never changes what a query at the same or a later time answers: everything it
      removes is already filtered out. */
  lemma {:induction false} ScanInvisible(s: State, ids: seq<NodeId>, scanTime: nat, queryTime: nat)
    requires scanTime <= queryTime
    ensures Filtered(Scanned(s, scanTime).nodes, ids, queryTime) == Filtered(s.nodes, ids, queryTime)
    decreases |ids|
  {
    if ids != [] {
      ScanInvisible(s, ids[..|ids| - 1], scanTime, queryTime);
    }
  }

  // ---------------------------------------------------------------- how long a node counts

  /** When a node answers and when it is dropped, to the tick: for thirty seconds after its
      heartbeat it answers, from thirty-one seconds on a scan drops it, and in the second in
      between it is registered but never an answer.  A heartbeat later than the reading counts as
      fresh. */
  lemma LivenessWindow(node: NodeInfo, now: nat)
    ensures Alive(node, now) <==> node.status == ONLINE && now - node.lastHeartbeat < 30_000_000_000
    ensures TimedOut(node, now) <==> now - node.lastHeartbeat >= 31_000_000_000
  {}

  /** After a heartbeat a known node answers queries for the models it named with the memory it
      reported, for the next thirty seconds and no longer; no other node is touched. */
  lemma HeartbeatRevives(s: State, id: NodeId, available: int, models: seq<Model>, now: nat, later: nat)
    requires id in s.nodes && now <= later
    ensures var n := Heartbeaten(s, id, available, models, now);
      && (forall m :: id in Eligible(n.nodes, m, later) <==>
            m in models && later - now < ONLINE_SECONDS * TICKS_PER_SECOND)
      && n.nodes[id].availableMemory == available
      && (n.nodes[id].addr, n.nodes[id].weight) == (s.nodes[id].addr, s.nodes[id].weight)
      && n.nodes - {id} == s.nodes - {id} && n.index == s.index
  {
    LivenessWindow(Heartbeaten(s, id, available, models, now).nodes[id], later);
  }
}
