/**
 Which process may run a stage: graph:part, graph:map, graph:verify, the interning of processes, the shipping of
 handlers and the choice of a process for a remote send (src/leda/leda_graph.lua, leda_cluster.lua, process.lua,
 src/kernel/event.c).

 Clusters and processes are Lua tables, compared by identity: a cluster is a number that indexes the fields of all
 cluster objects, a process is its position in the list of known processes.
 */
module Placement {
  import opened Sets

  /** What a field of a stage holds. */
  datatype Flag = Unset | No | Yes

  /** `serial` is the field after the constructor of stages has run. */
  datatype Stage = Stage(id: nat, serial: Flag)

  datatype Coupling = Decoupled | Coupled | Cohort

  datatype Producer = NoProducer | From(stage: Stage)

  datatype Connector = Connector(producer: Producer, consumer: Stage, kind: Coupling)

  /** `conns` is what graph:add collects; `outputs` is what graph:connect registers, by producer. */
  datatype Graph = Graph(conns: set<Connector>, outputs: map<Stage, set<Connector>>)

  /** graph:get_output */
  function Outputs(g: Graph, s: Stage): set<Connector> {
    if s in g.outputs then g.outputs[s] else {}
  }

  /** graph:stages */
  function Stages(g: Graph): set<Stage> {
    (set c | c in g.conns :: c.consumer) + (set c | c in g.conns && c.producer.From? :: c.producer.stage)
  }

  // ----- partitions -----

  function Union(sets: seq<set<Stage>>): set<Stage> {
    set i, s | 0 <= i < |sets| && s in sets[i] :: s
  }

  ghost predicate Disjoint(sets: seq<set<Stage>>) {
    forall i, j | 0 <= i < j < |sets| :: sets[i] !! sets[j]
  }

  /** No stage of the cluster has a coupled output to another cluster. */
  predicate KeepsCoupled(g: Graph, cl: set<Stage>) {
    forall s | s in cl :: forall c | c in Outputs(g, s) :: c.kind == Decoupled || c.consumer in cl
  }

  ghost predicate Partitions(g: Graph, sets: seq<set<Stage>>) {
    Disjoint(sets) && Union(sets) == Stages(g) && forall i | 0 <= i < |sets| :: KeepsCoupled(g, sets[i])
  }

  /** graph:get_cluster: in a partition, the one cluster that holds the stage */
  lemma OneCluster(g: Graph, sets: seq<set<Stage>>, s: Stage)
    requires Partitions(g, sets) && s in Stages(g)
    ensures exists i :: 0 <= i < |sets| && s in sets[i]
    ensures forall i, j | 0 <= i < |sets| && 0 <= j < |sets| && s in sets[i] && s in sets[j] :: i == j
  {
    assert s in Union(sets);
  }

  /** A connector whose two ends verify wants in one cluster. */
  predicate Ties(c: Connector) {
    c.producer.From? && c.kind != Decoupled
  }

  /** graph:verify on a list of clusters: the same cover, but coupling is looked up among the connectors. */
  ghost predicate Verifies(g: Graph, sets: seq<set<Stage>>) {
    && Disjoint(sets) && Union(sets) == Stages(g)
    && forall c | c in g.conns && Ties(c) ::
         forall i | 0 <= i < |sets| :: c.producer.stage in sets[i] <==> c.consumer in sets[i]
  }

  // ----- what part and verify have in common -----

  /** A registered coupled output leads from `a` to `b`. */
  predicate Couples(g: Graph, a: Stage, b: Stage) {
    exists c | c in Outputs(g, a) :: c.kind != Decoupled && c.consumer == b
  }

  predicate Adjacent(g: Graph, a: Stage, b: Stage) {
    Couples(g, a, b) || Couples(g, b, a)
  }

  /** A registered coupled output leads out of the graph, so that no cluster can keep it inside. */
  predicate Leaks(g: Graph) {
    exists s | s in Stages(g) :: exists c | c in Outputs(g, s) :: c.kind != Decoupled && c.consumer !in Stages(g)
  }

  function Neighbours(g: Graph, s: set<Stage>): set<Stage> {
    set b | b in Stages(g) && exists a | a in s :: Adjacent(g, a, b)
  }

  lemma FewerLeft(g: Graph, s: set<Stage>, more: set<Stage>)
    requires more == s + Neighbours(g, s) && more != s
    ensures |Stages(g) - more| < |Stages(g) - s|
  {
    hide Stages, Adjacent;
    var b :| b in more && b !in s;
    SubsetSize(Stages(g) - more, Stages(g) - s - {b});
  }

  /** Everything joined to `s` by coupled outputs, taken in either direction. */
  function Spread(g: Graph, s: set<Stage>): (r: set<Stage>)
    ensures s <= r && Neighbours(g, r) <= r && r <= s + Stages(g)
    decreases |Stages(g) - s|
  {
    var more := s + Neighbours(g, s);
    if more == s then s
    else
      FewerLeft(g, s, more);
      Spread(g, more)
  }

  lemma {:induction false} SpreadIsLeast(g: Graph, s: set<Stage>, cl: set<Stage>)
    requires s <= cl && Neighbours(g, cl) <= cl
    ensures Spread(g, s) <= cl
    decreases |Stages(g) - s|
  {
    hide Stages, Adjacent;
    var more := s + Neighbours(g, s);
    assert Neighbours(g, s) <= Neighbours(g, cl);
    if more != s {
      FewerLeft(g, s, more);
      SpreadIsLeast(g, more, cl);
    }
  }

  /** A path of registered coupled outputs between stages of the graph, each taken in either direction. */
  ghost predicate Chain(g: Graph, path: seq<Stage>) {
    var n := |path| - 1;
    path != [] && (n > 0 ==> Chain(g, path[..n]) && path[n] in Stages(g) && Adjacent(g, path[n - 1], path[n]))
  }

  ghost predicate Joined(g: Graph, a: Stage, b: Stage) {
    exists path :: Chain(g, path) && path[0] == a && path[|path| - 1] == b
  }

  lemma {:induction false} ChainStays(g: Graph, path: seq<Stage>, cl: set<Stage>)
    requires Chain(g, path) && path[0] in cl && Neighbours(g, cl) <= cl
    ensures path[|path| - 1] in cl
    decreases |path|
  {
    hide Stages, Adjacent;
    var n := |path| - 1;
    if n > 0 {
      ChainStays(g, path[..n], cl);
      assert path[n] in Neighbours(g, cl);
    }
  }

  lemma JoinedNext(g: Graph, a: Stage, b: Stage, c: Stage)
    requires Joined(g, a, b) && c in Stages(g) && Adjacent(g, b, c)
    ensures Joined(g, a, c)
  {
    hide Stages, Adjacent;
    var path :| Chain(g, path) && path[0] == a && path[|path| - 1] == b;
    var longer := path + [c];
    assert longer[..|path|] == path;
    assert Chain(g, longer);
  }

  lemma {:induction false} SpreadIsJoined(g: Graph, a: Stage, s: set<Stage>)
    requires forall b | b in s :: Joined(g, a, b)
    ensures forall b | b in Spread(g, s) :: Joined(g, a, b)
    decreases |Stages(g) - s|
  {
    hide Stages, Adjacent, Joined;
    var more := s + Neighbours(g, s);
    if more != s {
      FewerLeft(g, s, more);
      forall c | c in Neighbours(g, s) ensures Joined(g, a, c) {
        var b :| b in s && Adjacent(g, b, c);
        JoinedNext(g, a, b, c);
      }
      SpreadIsJoined(g, a, more);
    }
  }

  /** The computation finds exactly the stages at the other end of a chain. */
  lemma SpreadFindsChains(g: Graph, a: Stage, b: Stage)
    ensures b in Spread(g, {a}) <==> Joined(g, a, b)
  {
    hide Stages, Adjacent, Spread;
    assert Joined(g, a, a) by {
      assert Chain(g, [a]);
    }
    SpreadIsJoined(g, a, {a});
    if Joined(g, a, b) {
      var path :| Chain(g, path) && path[0] == a && path[|path| - 1] == b;
      ChainStays(g, path, Spread(g, {a}));
    }
  }

  /** The registered outputs bind what the connectors tie: either one of them leaks, so that part accepts nothing, or
      the ends of every coupled connector are joined by registered coupled outputs. */
  predicate Bound(g: Graph) {
    Leaks(g) || forall c | c in g.conns && Ties(c) :: c.consumer in Spread(g, {c.producer.stage})
  }

  lemma LeaksNoPartition(g: Graph, sets: seq<set<Stage>>)
    requires Partitions(g, sets)
    ensures !Leaks(g)
  {
    hide Stages;
    forall s, c | s in Stages(g) && c in Outputs(g, s) && c.kind != Decoupled ensures c.consumer in Stages(g) {
      OneCluster(g, sets, s);
      var i :| 0 <= i < |sets| && s in sets[i];
      assert KeepsCoupled(g, sets[i]);
      assert c.consumer in sets[i];
      assert c.consumer in Union(sets);
    }
  }

  lemma RestKeepsCoupled(g: Graph, sets: seq<set<Stage>>, i: nat)
    requires Partitions(g, sets) && i < |sets|
    ensures sets[i] <= Stages(g) && KeepsCoupled(g, Stages(g) - sets[i])
  {
    var rest := Stages(g) - sets[i];
    assert sets[i] <= Union(sets);
    forall s, c | s in rest && c in Outputs(g, s) && c.kind != Decoupled ensures c.consumer in rest {
      assert s in Union(sets);
      var j :| 0 <= j < |sets| && s in sets[j];
      assert KeepsCoupled(g, sets[j]);
      assert c.consumer in sets[j] && sets[j] <= Union(sets);
      assert if i < j then sets[i] !! sets[j] else sets[j] !! sets[i];
    }
  }

  /** Both sides of a split that part accepts are closed under neighbours. */
  lemma KeptIsClosed(g: Graph, cl: set<Stage>)
    requires cl <= Stages(g) && KeepsCoupled(g, cl) && KeepsCoupled(g, Stages(g) - cl)
    ensures Neighbours(g, cl) <= cl && Neighbours(g, Stages(g) - cl) <= Stages(g) - cl
  {
    hide Stages;
  }

  lemma ClosedIsKept(g: Graph, cl: set<Stage>)
    requires !Leaks(g) && cl <= Stages(g) && Neighbours(g, cl) <= cl
    ensures KeepsCoupled(g, cl) && KeepsCoupled(g, Stages(g) - cl)
  {
    hide Stages;
    var rest := Stages(g) - cl;
    forall s, c | s in cl && c in Outputs(g, s) && c.kind != Decoupled ensures c.consumer in cl {
      assert Couples(g, s, c.consumer);
      assert c.consumer in Neighbours(g, cl);
    }
    forall s, c | s in rest && c in Outputs(g, s) && c.kind != Decoupled ensures c.consumer in rest {
      assert Couples(g, s, c.consumer);
      assert Adjacent(g, c.consumer, s);
      assert c.consumer in cl ==> s in Neighbours(g, cl);
    }
  }

  lemma EndsAreStages(g: Graph, c: Connector)
    requires c in g.conns && Ties(c)
    ensures c.producer.stage in Stages(g) && c.consumer in Stages(g)
  {
  }

  lemma BoundVerifies(g: Graph, sets: seq<set<Stage>>)
    requires Bound(g) && Partitions(g, sets)
    ensures Verifies(g, sets)
  {
    hide KeepsCoupled, Stages, Neighbours, Leaks, Spread;
    LeaksNoPartition(g, sets);
    forall c, i | c in g.conns && Ties(c) && 0 <= i < |sets|
      ensures c.producer.stage in sets[i] <==> c.consumer in sets[i]
    {
      RestKeepsCoupled(g, sets, i);
      KeptIsClosed(g, sets[i]);
      EndsAreStages(g, c);
      var p := c.producer.stage;
      if p in sets[i] {
        SpreadIsLeast(g, {p}, sets[i]);
      } else {
        SpreadIsLeast(g, {p}, Stages(g) - sets[i]);
      }
    }
  }

  /** What part accepts, verify accepts as well, exactly for the graphs whose registered outputs bind the two ends of
      every coupled connector. */
  lemma PartImpliesVerify(g: Graph)
    ensures (forall sets | Partitions(g, sets) :: Verifies(g, sets)) <==> Bound(g)
  {
    hide KeepsCoupled, Stages, Neighbours, Leaks, Spread;
    if Bound(g) {
      forall sets | Partitions(g, sets) ensures Verifies(g, sets) {
        BoundVerifies(g, sets);
      }
    } else {
      var c :| c in g.conns && Ties(c) && c.consumer !in Spread(g, {c.producer.stage});
      EndsAreStages(g, c);
      var cl := Spread(g, {c.producer.stage});
      ClosedIsKept(g, cl);
      InTwo(g, cl);
      var sets := [cl, Stages(g) - cl];
      assert c.producer.stage in sets[0] && c.consumer !in sets[0];
      assert !Verifies(g, sets);
    }
  }

  lemma InTwo(g: Graph, cl: set<Stage>)
    requires cl <= Stages(g) && KeepsCoupled(g, cl) && KeepsCoupled(g, Stages(g) - cl)
    ensures Partitions(g, [cl, Stages(g) - cl])
  {
    hide KeepsCoupled, Stages;
    var sets := [cl, Stages(g) - cl];
    forall s | s in Stages(g) ensures s in Union(sets) {
      assert s in sets[0] || s in sets[1];
    }
  }

  /** A coupled connector that was added without being registered escapes part: two stages that must run together are
      accepted in different clusters. */
  lemma UnregisteredEscapes()
    ensures exists g, sets :: Partitions(g, sets) && !Verifies(g, sets)
  {
    var a, b := Stage(0, Unset), Stage(1, Unset);
    var c := Connector(From(a), b, Coupled);
    var g := Graph({c}, map[]);
    assert Stages(g) == {a, b};
    assert Neighbours(g, {a}) == {};
    assert Spread(g, {a}) == {a};
    assert c in g.conns && Ties(c) && c.consumer !in Spread(g, {c.producer.stage});
    assert !Bound(g);
    PartImpliesVerify(g);
  }

  // ----- processes -----

  datatype Address = Address(ip: string, port: nat)

  ghost predicate Interned(known: seq<Address>) {
    forall i, j | 0 <= i < j < |known| :: known[i] != known[j]
  }

  /** The position of an address, or one past the end. */
  function Find(known: seq<Address>, a: Address): (r: nat)
    ensures r <= |known|
    ensures r < |known| ==> known[r] == a
    ensures r == |known| ==> a !in known
  {
    if known == [] then 0
    else
      var r := Find(known[..|known| - 1], a);
      if r < |known| - 1 then r else if known[|known| - 1] == a then |known| - 1 else |known|
  }

  function Intern(known: seq<Address>, a: Address): seq<Address> {
    if Find(known, a) < |known| then known else known + [a]
  }

  /** get_process */
  method GetProcess(known: seq<Address>, a: Address) returns (more: seq<Address>, p: nat)
    requires Interned(known)
    ensures more == Intern(known, a) && p == Find(known, a)
    ensures p < |more| && more[p] == a && known <= more && Interned(more)
  {
    var i := 0;
    while i < |known|
      invariant 0 <= i <= |known| && a !in known[..i]
    {
      if known[i] == a {
        SamePlace(known, Find(known, a), i);
        return known, i;
      }
      i := i + 1;
    }
    assert known[..i] == known;
    more, p := known + [a], |known|;
  }

  lemma SamePlace(known: seq<Address>, i: nat, j: nat)
    requires Interned(known) && j < |known| && i <= |known|
    requires (i < |known| ==> known[i] == known[j]) && (i == |known| ==> known[j] !in known)
    ensures i == j
  {
  }
}
