/** What an accepted partition and mapping guarantees about where handlers are and where events go. */
module Shipping {
  import opened Placement
  import opened Deploying

  /** A graph with its list of clusters, the processes of all cluster objects and the known addresses. */
  datatype Plan = Plan(graph: Graph, members: seq<set<Stage>>, clusters: seq<nat>,
                       procs: seq<seq<nat>>, known: seq<Address>)

  ghost predicate Known(p: Plan) {
    && |p.procs| == |p.members| && (forall i | 0 <= i < |p.clusters| :: p.clusters[i] < |p.members|)
    && Interned(p.known) && ProcsOk(p.procs, p.known)
  }

  function Sets(p: Plan): seq<set<Stage>>
    requires forall i | 0 <= i < |p.clusters| :: p.clusters[i] < |p.members|
  {
    seq(|p.clusters|, i requires 0 <= i < |p.clusters| => p.members[p.clusters[i]])
  }

  /** What part and then map have accepted. */
  ghost predicate Accepted(p: Plan) {
    && Known(p) && Partitions(p.graph, Sets(p)) && Accepts(p.clusters, p.procs) && SerialAlone(p.members, p.procs)
  }

  /** cluster:is_local */
  ghost predicate LocalTo(p: Plan, i: nat, a: Address)
    requires Known(p) && i < |p.clusters|
  {
    a in Addresses(p.known, p.procs[p.clusters[i]])
  }

  /** The stages whose handlers prepare_graph leaves in place for a process; the others are emptied. */
  ghost predicate Ships(p: Plan, s: Stage, a: Address)
    requires Known(p)
  {
    s in Stages(p.graph) && exists i :: 0 <= i < |p.clusters| && s in p.members[p.clusters[i]] && LocalTo(p, i, a)
  }

  lemma SameAddress(p: Plan, c: nat, j: nat, d: nat, k: nat)
    requires Known(p) && c < |p.procs| && d < |p.procs| && j < |p.procs[c]| && k < |p.procs[d]|
    requires p.known[p.procs[c][j]] == p.known[p.procs[d][k]]
    ensures p.procs[c][j] == p.procs[d][k]
  {
  }

  /** A process is local to at most one cluster. */
  lemma OneClusterPerProcess(p: Plan, i: nat, j: nat, a: Address)
    requires Accepted(p) && i < |p.clusters| && j < |p.clusters| && LocalTo(p, i, a) && LocalTo(p, j, a)
    ensures p.clusters[i] == p.clusters[j]
  {
    hide Partitions, Interned, SerialAlone;
    var c, d := p.clusters[i], p.clusters[j];
    var x :| 0 <= x < |p.procs[c]| && Addresses(p.known, p.procs[c])[x] == a;
    var y :| 0 <= y < |p.procs[d]| && Addresses(p.known, p.procs[d])[y] == a;
    SameAddress(p, c, x, d, y);
    assert Exclusive(set k | 0 <= k < |p.clusters| :: p.clusters[k], p.procs);
  }

  /** A process gets the handlers of its one cluster, all of them and no others. */
  lemma ShipsExactly(p: Plan, i: nat, a: Address)
    requires Accepted(p) && i < |p.clusters| && LocalTo(p, i, a)
    ensures forall s: Stage :: Ships(p, s, a) <==> s in p.members[p.clusters[i]]
  {
    hide Interned, SerialAlone, Accepts, LocalTo;
    forall s: Stage ensures Ships(p, s, a) <==> s in p.members[p.clusters[i]] {
      if s in p.members[p.clusters[i]] {
        assert s in Sets(p)[i];
        assert s in Union(Sets(p));
      } else if Ships(p, s, a) {
        var j :| 0 <= j < |p.clusters| && s in p.members[p.clusters[j]] && LocalTo(p, j, a);
        OneClusterPerProcess(p, i, j, a);
        assert false;
      }
    }
  }

  /** A coupled output of a handler leads to a stage whose handler is in the same process. */
  lemma CoupledStaysLocal(p: Plan, s: Stage, c: Connector, a: Address)
    requires Accepted(p) && Ships(p, s, a) && c in Outputs(p.graph, s) && c.kind != Decoupled
    ensures Ships(p, c.consumer, a)
  {
    hide Interned, SerialAlone, Accepts, LocalTo;
    var i :| 0 <= i < |p.clusters| && s in p.members[p.clusters[i]] && LocalTo(p, i, a);
    assert KeepsCoupled(p.graph, Sets(p)[i]);
    assert c.consumer in Sets(p)[i];
    ShipsExactly(p, i, a);
  }

  /** The same for every coupled connector of a graph that graph:verify has accepted too, as graph:run demands. */
  lemma VerifiedStaysLocal(p: Plan, c: Connector, a: Address)
    requires Accepted(p) && Verifies(p.graph, Sets(p)) && c in p.graph.conns
    requires c.producer.From? && c.kind != Decoupled && Ships(p, c.producer.stage, a)
    ensures Ships(p, c.consumer, a)
  {
    hide Interned, SerialAlone, Accepts, LocalTo;
    var i :| 0 <= i < |p.clusters| && c.producer.stage in p.members[p.clusters[i]] && LocalTo(p, i, a);
    assert c.producer.stage in Sets(p)[i];
    assert c.consumer in Sets(p)[i];
    ShipsExactly(p, i, a);
  }

  /** A stage declared serial has its handler in exactly one process. */
  lemma SerialInOneProcess(p: Plan, s: Stage)
    requires Accepted(p) && s in Stages(p.graph) && s.serial == Yes
    ensures exists a :: Ships(p, s, a)
    ensures forall a, b | Ships(p, s, a) && Ships(p, s, b) :: a == b
  {
    hide Interned;
    OneCluster(p.graph, Sets(p), s);
    var i :| 0 <= i < |Sets(p)| && s in Sets(p)[i];
    var c := p.clusters[i];
    assert HasSerial(p.members[c]);
    assert |p.procs[c]| == 1;
    var a := p.known[p.procs[c][0]];
    assert Addresses(p.known, p.procs[c])[0] == a;
    assert LocalTo(p, i, a) && s in p.members[p.clusters[i]];
    assert Ships(p, s, a);
    forall b, d | Ships(p, s, b) && Ships(p, s, d) ensures b == d {
      var j :| 0 <= j < |p.clusters| && s in p.members[p.clusters[j]] && LocalTo(p, j, b);
      var k :| 0 <= k < |p.clusters| && s in p.members[p.clusters[k]] && LocalTo(p, k, d);
      assert s in Sets(p)[j] && s in Sets(p)[k];
      assert i == j == k;
    }
  }

  // ----- what counts as serial -----

  /** The constructor of stages: `serial or stateful`, as Lua evaluates it. */
  function SerialField(serial: Flag, stateful: Flag): Flag {
    if serial == Yes then Yes else stateful
  }

  /** The kernel takes a stage for serial when the field is present, whatever it holds. */
  predicate KernelSerial(s: Stage) {
    s.serial != Unset
  }

  /** The two tests agree except on a field that holds false, which the constructor leaves exactly when `serial` is not
      true and `stateful` is false. */
  lemma SerialTestsAgree(s: Stage, serial: Flag, stateful: Flag)
    requires s.serial == SerialField(serial, stateful)
    ensures KernelSerial(s) <==> serial == Yes || stateful != Unset
    ensures HasSerial({s}) <==> serial == Yes || stateful == Yes
    ensures (KernelSerial(s) <==> HasSerial({s})) <==> !(serial != Yes && stateful == No)
  {
    assert s in {s};
  }

  /** So a stage made with `stateful = false` is run as serial in each process and still accepted on two processes. */
  lemma SerialOnTwoProcesses(a: Address, b: Address)
    requires a != b
    ensures exists p: Plan, s: Stage ::
              Accepted(p) && s.serial == SerialField(Unset, No) && KernelSerial(s) && Ships(p, s, a) && Ships(p, s, b)
  {
    var s := Stage(0, SerialField(Unset, No));
    var g := Graph({Connector(NoProducer, s, Decoupled)}, map[]);
    var p := Plan(g, [{s}], [0], [[0, 1]], [a, b]);
    assert Stages(g) == {s};
    assert Sets(p) == [{s}];
    assert s in Sets(p)[0];
    assert Union(Sets(p)) == {s};
    assert Accepted(p);
    assert Addresses(p.known, p.procs[0]) == [a, b];
    assert LocalTo(p, 0, a) && LocalTo(p, 0, b) && s in p.members[p.clusters[0]];
    assert Ships(p, s, a) && Ships(p, s, b);
  }

  // ----- the choice of a process -----

  /** The counter of a cluster after `sends` remote sends: STORE leaves the successor and hands back the old value. */
  function Counter(n: nat, sends: nat): nat
    requires n > 0
  {
    if sends == 0 then 0 else (Counter(n, sends - 1) + 1) % n
  }

  lemma {:induction false} CounterIs(n: nat, sends: nat)
    requires n > 0
    ensures Counter(n, sends) == sends % n
  {
    if sends > 0 {
      var x := sends - 1;
      CounterIs(n, x);
      var c := Counter(n, x);
      NextModulo(x, n);
      assert (c + 1) % n == sends % n;
    }
  }

  lemma NextModulo(x: nat, n: nat)
    requires n > 0
    ensures (x % n + 1) % n == (x + 1) % n
  {
    var q, r := x / n, x % n;
    assert x == n * q + r;
    if r + 1 < n {
      DivisionIsUnique(x + 1, n, q, r + 1);
    } else {
      assert x + 1 == n * (q + 1);
      DivisionIsUnique(x + 1, n, q + 1, 0);
      DivisionIsUnique(n, n, 1, 0);
    }
  }

  lemma SmallMultiple(n: int, d: int, y: int)
    requires n > 0 && n * d == y && y < n && -y < n
    ensures d == 0 && y == 0
  {
  }

  lemma DivisionIsUnique(x: nat, n: nat, q: nat, r: nat)
    requires n > 0 && r < n && x == n * q + r
    ensures x % n == r
  {
    assert x == n * (x / n) + x % n;
    SmallMultiple(n, x / n - q, r - x % n);
  }

  /** The process that takes the remote send number `sends` to a stage of cluster `i`. */
  ghost function Chosen(p: Plan, i: nat, sends: nat): Address
    requires Accepted(p) && i < |p.clusters|
  {
    var c := p.clusters[i];
    CounterIs(|p.procs[c]|, sends);
    p.known[p.procs[c][Counter(|p.procs[c]|, sends)]]
  }

  /** Every remote send picks a process that was given the stage's handler, and never the sender itself. */
  lemma SendFindsHandler(p: Plan, s: Stage, i: nat, sends: nat, self: Address)
    requires Accepted(p) && i < |p.clusters| && s in p.members[p.clusters[i]] && !LocalTo(p, i, self)
    ensures Ships(p, s, Chosen(p, i, sends)) && Chosen(p, i, sends) != self
  {
    hide Interned, SerialAlone, Exclusive;
    var c := p.clusters[i];
    CounterIs(|p.procs[c]|, sends);
    var k := Counter(|p.procs[c]|, sends);
    assert Addresses(p.known, p.procs[c])[k] == Chosen(p, i, sends);
    assert LocalTo(p, i, Chosen(p, i, sends));
    ShipsExactly(p, i, Chosen(p, i, sends));
  }

  /** Send number `sends` goes to the process at that number modulo `n`, in the order in which map was given them. */
  lemma ChosenInOrder(p: Plan, i: nat, sends: nat)
    requires Accepted(p) && i < |p.clusters|
    ensures var all := Addresses(p.known, p.procs[p.clusters[i]]);
            all != [] && Chosen(p, i, sends) == all[sends % |all|]
  {
    hide Interned, SerialAlone, Exclusive;
    CounterIs(|p.procs[p.clusters[i]]|, sends);
  }

  /** The processes of a cluster are different ones. */
  lemma DistinctAddresses(p: Plan, i: nat, x: nat, y: nat)
    requires Accepted(p) && i < |p.clusters|
    requires var all := Addresses(p.known, p.procs[p.clusters[i]]); x < |all| && y < |all| && all[x] == all[y]
    ensures x == y
  {
    hide Partitions, Interned, SerialAlone;
    var c := p.clusters[i];
    SameAddress(p, c, x, c, y);
    assert Exclusive(set k | 0 <= k < |p.clusters| :: p.clusters[k], p.procs);
  }

  /** In turn: any `n` remote sends in a row to a cluster of `n` processes reach each of them exactly once. */
  lemma SendsTakeTurns(p: Plan, i: nat, first: nat, a: Address)
    requires Accepted(p) && i < |p.clusters| && LocalTo(p, i, a)
    ensures var n := |p.procs[p.clusters[i]]|;
            && (exists t: nat :: first <= t < first + n && Chosen(p, i, t) == a)
            && (forall t: nat, u: nat | first <= t < first + n && first <= u < first + n
                                        && Chosen(p, i, t) == a == Chosen(p, i, u) :: t == u)
  {
    assert Known(p);
    hide Accepted, Chosen;
    var all := Addresses(p.known, p.procs[p.clusters[i]]);
    var n := |all|;
    var k :| 0 <= k < n && all[k] == a;
    TurnOf(n, first, k);
    var t: nat :| first <= t < first + n && t % n == k;
    ChosenInOrder(p, i, t);
    forall t: nat, u: nat | first <= t < first + n && first <= u < first + n && Chosen(p, i, t) == a == Chosen(p, i, u)
      ensures t == u
    {
      ChosenInOrder(p, i, t);
      ChosenInOrder(p, i, u);
      DistinctAddresses(p, i, t % n, u % n);
      SameRemainder(t, u, n);
    }
  }

  lemma TurnOf(n: nat, first: nat, k: nat)
    requires k < n
    ensures exists t: nat :: first <= t < first + n && t % n == k
  {
    var r := first % n;
    var t := if k >= r then first - r + k else first - r + n + k;
    assert first == n * (first / n) + r;
    var q := if k >= r then first / n else first / n + 1;
    assert t == n * q + k;
    DivisionIsUnique(t, n, q, k);
    assert first <= t < first + n && t % n == k;
  }

  lemma SameRemainder(t: nat, u: nat, n: nat)
    requires n > 0 && t % n == u % n && t - u < n && u - t < n
    ensures t == u
  {
    assert t == n * (t / n) + t % n && u == n * (u / n) + u % n;
    SmallMultiple(n, t / n - u / n, t - u);
  }

  // ----- part, then map -----

  /** The lists of addresses give every cluster a process and no process to two places. */
  ghost predicate Fit(clusters: seq<nat>, args: seq<seq<Address>>) {
    && (forall i | 0 <= i < |clusters| :: Wanted(clusters, args, [], clusters[i]) != [])
    && forall i, j, x, y | 0 <= i < |clusters| && 0 <= j < |clusters|
                           && 0 <= x < |Wanted(clusters, args, [], clusters[i])|
                           && 0 <= y < |Wanted(clusters, args, [], clusters[j])|
                           && Wanted(clusters, args, [], clusters[i])[x] ==
                              Wanted(clusters, args, [], clusters[j])[y] ::
         clusters[i] == clusters[j] && x == y
  }

  /** Interning makes equal addresses equal processes, so the test on processes is a test on addresses. */
  lemma AcceptsIsFit(p: Plan, args: seq<seq<Address>>)
    requires Known(p)
    requires forall c | 0 <= c < |p.members| :: Addresses(p.known, p.procs[c]) == Wanted(p.clusters, args, [], c)
    ensures Accepts(p.clusters, p.procs) <==> Fit(p.clusters, args)
  {
    hide Interned, Wanted;
    var cs := set i | 0 <= i < |p.clusters| :: p.clusters[i];
    if Accepts(p.clusters, p.procs) {
      forall i, j, x, y | 0 <= i < |p.clusters| && 0 <= j < |p.clusters|
                          && 0 <= x < |Wanted(p.clusters, args, [], p.clusters[i])|
                          && 0 <= y < |Wanted(p.clusters, args, [], p.clusters[j])|
                          && Wanted(p.clusters, args, [], p.clusters[i])[x] ==
                             Wanted(p.clusters, args, [], p.clusters[j])[y]
        ensures p.clusters[i] == p.clusters[j] && x == y
      {
        SameAddress(p, p.clusters[i], x, p.clusters[j], y);
      }
    }
    if Fit(p.clusters, args) {
      forall c, d, j, k | c in cs && d in cs && 0 <= j < |p.procs[c]| && 0 <= k < |p.procs[d]|
                          && p.procs[c][j] == p.procs[d][k]
        ensures c == d && j == k
      {
        assert Addresses(p.known, p.procs[c])[j] == Addresses(p.known, p.procs[d])[k];
      }
    }
  }

  /** A new graph is accepted exactly when the clusters partition it, clusters with a serial stage get one address,
      and the lists fit; then every cluster runs where its list says. */
  method Deploy(graph: Graph, members: seq<set<Stage>>, clusters: seq<nat>, args: seq<seq<Address>>)
    returns (ok: bool, p: Plan)
    requires forall i | 0 <= i < |clusters| :: clusters[i] < |members|
    ensures p.graph == graph && p.members == members && p.clusters == clusters
    ensures ok <==> Partitions(graph, Sets(p)) && SerialRespected(members, clusters, args) && Fit(clusters, args)
    ensures ok ==> Accepted(p)
    ensures ok ==> forall c | 0 <= c < |members| :: Addresses(p.known, p.procs[c]) == Wanted(clusters, args, [], c)
  {
    hide Partitions, Interned, SerialRespected, Accepts, Fit, Wanted, ProcsOk, HasSerial;
    var d := new Deployment(graph, members);
    ok := d.Part(clusters);
    p := Plan(graph, members, clusters, d.procs, d.known);
    assert Sets(p) == d.Sets(clusters);
    if ok {
      ok := d.Map(args);
      p := Plan(graph, members, clusters, d.procs, d.known);
      if SerialRespected(members, clusters, args) {
        AcceptsIsFit(p, args);
      }
    }
  }
}
