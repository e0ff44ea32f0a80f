/** graph:part and graph:map as they run, and what an accepted mapping guarantees. */
module Deploying {
  import opened Placement

  /** cluster:has_serial looks at the truth of the field. */
  predicate HasSerial(cl: set<Stage>) {
    exists s | s in cl :: s.serial == Yes
  }

  // ----- the assignments of graph:map -----

  datatype Assigned = Failed | Assigned(procs: seq<seq<nat>>, known: seq<Address>)

  ghost predicate ProcsOk(procs: seq<seq<nat>>, known: seq<Address>) {
    forall c, k | 0 <= c < |procs| && 0 <= k < |procs[c]| :: procs[c][k] < |known|
  }

  /** set_process for the first address, add_process for the others */
  function AddOne(serial: bool, procs: seq<seq<nat>>, c: nat, known: seq<Address>, a: Address, first: bool): Assigned
    requires c < |procs|
  {
    var now := if first then [] else procs[c];
    if serial && |now| > 0 then Failed
    else Assigned(procs[c := now + [Find(known, a)]], Intern(known, a))
  }

  function AddAll(serial: bool, procs: seq<seq<nat>>, c: nat, known: seq<Address>, addrs: seq<Address>): (r: Assigned)
    requires c < |procs|
    ensures r.Assigned? ==> |r.procs| == |procs|
  {
    if addrs == [] then Assigned(procs, known)
    else
      var before := AddAll(serial, procs, c, known, addrs[..|addrs| - 1]);
      if before.Failed? then Failed
      else AddOne(serial, before.procs, c, before.known, addrs[|addrs| - 1], |addrs| == 1)
  }

  /** The i-th list of addresses goes to the i-th cluster; lists beyond the last cluster are ignored. */
  function AssignAll(members: seq<set<Stage>>, clusters: seq<nat>, procs: seq<seq<nat>>, known: seq<Address>,
                     args: seq<seq<Address>>): (r: Assigned)
    requires |members| == |procs| && forall i | 0 <= i < |clusters| :: clusters[i] < |procs|
    ensures r.Assigned? ==> |r.procs| == |procs|
  {
    if args == [] then Assigned(procs, known)
    else
      var before := AssignAll(members, clusters, procs, known, args[..|args| - 1]);
      if before.Failed? then Failed
      else if |args| > |clusters| then before
      else
        var c := clusters[|args| - 1];
        AddAll(HasSerial(members[c]), before.procs, c, before.known, args[|args| - 1])
  }

  // ----- seen as addresses -----

  function Addresses(known: seq<Address>, ids: seq<nat>): (r: seq<Address>)
    requires forall k | 0 <= k < |ids| :: ids[k] < |known|
    ensures |r| == |ids|
  {
    seq(|ids|, k requires 0 <= k < |ids| => known[ids[k]])
  }

  lemma AddressesLater(known: seq<Address>, more: seq<Address>, ids: seq<nat>)
    requires known <= more && forall k | 0 <= k < |ids| :: ids[k] < |known|
    ensures Addresses(more, ids) == Addresses(known, ids)
  {
  }

  lemma InternFacts(known: seq<Address>, a: Address)
    requires Interned(known)
    ensures known <= Intern(known, a) && Interned(Intern(known, a))
    ensures Find(known, a) < |Intern(known, a)| && Intern(known, a)[Find(known, a)] == a
  {
  }

  lemma AddOneGives(serial: bool, procs: seq<seq<nat>>, c: nat, known: seq<Address>, a: Address, first: bool)
    requires c < |procs| && Interned(known) && ProcsOk(procs, known) && !(serial && !first && procs[c] != [])
    ensures var r := AddOne(serial, procs, c, known, a, first);
            && r.Assigned? && |r.procs| == |procs|
            && known <= r.known && Interned(r.known) && ProcsOk(r.procs, r.known)
            && (forall x | 0 <= x < |procs| && x != c :: r.procs[x] == procs[x])
            && Addresses(r.known, r.procs[c]) == (if first then [] else Addresses(known, procs[c])) + [a]
  {
    hide Interned;
    InternFacts(known, a);
    var r := AddOne(serial, procs, c, known, a, first);
    var now := if first then [] else procs[c];
    AddressesLater(known, r.known, now);
    assert Addresses(r.known, r.procs[c]) == Addresses(r.known, now) + [a];
  }

  /** Nothing but cluster `c` changes; it holds the addresses in order; a cluster with a serial stage takes only one. */
  lemma {:induction false} AddAllGives(serial: bool, procs: seq<seq<nat>>, c: nat, known: seq<Address>,
                                       addrs: seq<Address>)
    requires c < |procs| && Interned(known) && ProcsOk(procs, known)
    ensures var r := AddAll(serial, procs, c, known, addrs);
            && (r.Failed? <==> serial && |addrs| >= 2)
            && (r.Assigned? ==>
                  && known <= r.known && Interned(r.known) && ProcsOk(r.procs, r.known)
                  && (forall x | 0 <= x < |procs| && x != c :: r.procs[x] == procs[x])
                  && (addrs == [] ==> r.procs[c] == procs[c])
                  && (addrs != [] ==> Addresses(r.known, r.procs[c]) == addrs))
  {
    hide Interned, AddOne;
    if addrs != [] {
      var init := addrs[..|addrs| - 1];
      AddAllGives(serial, procs, c, known, init);
      var before := AddAll(serial, procs, c, known, init);
      if before.Assigned? {
        if serial && |addrs| >= 2 {
          AddOneFails(before.procs, c, before.known, addrs[|addrs| - 1]);
        } else {
          AddOneGives(serial, before.procs, c, before.known, addrs[|addrs| - 1], |addrs| == 1);
        }
      }
    }
  }

  lemma AddOneFails(procs: seq<seq<nat>>, c: nat, known: seq<Address>, a: Address)
    requires c < |procs| && procs[c] != []
    ensures AddOne(true, procs, c, known, a, false).Failed?
  {
  }

  /** The last non-empty list, among the first `n`, that goes to cluster `c`; -1 if there is none. */
  function LastList(clusters: seq<nat>, args: seq<seq<Address>>, c: nat, n: nat): (r: int)
    requires n <= |args|
    ensures -1 <= r < n
  {
    if n == 0 then -1
    else if n <= |clusters| && clusters[n - 1] == c && args[n - 1] != [] then n - 1
    else LastList(clusters, args, c, n - 1)
  }

  lemma {:induction false} LastListPrefix(clusters: seq<nat>, args: seq<seq<Address>>, more: seq<seq<Address>>, c: nat,
                                          n: nat)
    requires n <= |args| && args <= more
    ensures LastList(clusters, more, c, n) == LastList(clusters, args, c, n)
  {
    if n > 0 {
      LastListPrefix(clusters, args, more, c, n - 1);
    }
  }

  /** The addresses a cluster has after the assignments. */
  function Wanted(clusters: seq<nat>, args: seq<seq<Address>>, before: seq<Address>, c: nat): seq<Address> {
    var i := LastList(clusters, args, c, |args|);
    if i < 0 then before else args[i]
  }

  /** No cluster with a serial stage is given two addresses. */
  ghost predicate SerialRespected(members: seq<set<Stage>>, clusters: seq<nat>, args: seq<seq<Address>>)
    requires forall i | 0 <= i < |clusters| :: clusters[i] < |members|
  {
    forall i | 0 <= i < |args| && i < |clusters| :: HasSerial(members[clusters[i]]) ==> |args[i]| <= 1
  }

  /** A cluster with a serial stage refuses the second address of list `i`. */
  predicate RefusesList(members: seq<set<Stage>>, clusters: seq<nat>, args: seq<seq<Address>>, i: nat)
    requires (forall k | 0 <= k < |clusters| :: clusters[k] < |members|) && i < |args|
  {
    i < |clusters| && HasSerial(members[clusters[i]]) && |args[i]| > 1
  }

  /** What is assigned, from list `i` on: all lists, or those before the first that is refused, and of that one the
      first address. */
  function Done(members: seq<set<Stage>>, clusters: seq<nat>, args: seq<seq<Address>>, i: nat): seq<seq<Address>>
    requires (forall k | 0 <= k < |clusters| :: clusters[k] < |members|) && i <= |args|
    decreases |args| - i
  {
    if i == |args| then args
    else if RefusesList(members, clusters, args, i) then args[..i] + [args[i][..1]]
    else Done(members, clusters, args, i + 1)
  }

  lemma {:induction false} DoneAll(members: seq<set<Stage>>, clusters: seq<nat>, args: seq<seq<Address>>, i: nat)
    requires (forall k | 0 <= k < |clusters| :: clusters[k] < |members|) && i <= |args|
    requires SerialRespected(members, clusters, args)
    ensures Done(members, clusters, args, i) == args
    decreases |args| - i
  {
    if i < |args| {
      DoneAll(members, clusters, args, i + 1);
    }
  }

  lemma WantedNext(clusters: seq<nat>, args: seq<seq<Address>>, before: seq<Address>, c: nat)
    requires args != []
    ensures var i := |args| - 1;
            Wanted(clusters, args, before, c) ==
            if i < |clusters| && clusters[i] == c && args[i] != [] then args[i]
            else Wanted(clusters, args[..i], before, c)
  {
    var init := args[..|args| - 1];
    LastListPrefix(clusters, init, args, c, |init|);
  }

  lemma RespectedNext(members: seq<set<Stage>>, clusters: seq<nat>, args: seq<seq<Address>>)
    requires args != [] && forall i | 0 <= i < |clusters| :: clusters[i] < |members|
    ensures var i := |args| - 1;
            SerialRespected(members, clusters, args) <==>
            && SerialRespected(members, clusters, args[..i])
            && (i < |clusters| && HasSerial(members[clusters[i]]) ==> |args[i]| <= 1)
  {
    hide HasSerial;
    assert forall k | 0 <= k < |args| - 1 :: args[..|args| - 1][k] == args[k];
  }

  lemma {:induction false} AssignAllGives(members: seq<set<Stage>>, clusters: seq<nat>, procs: seq<seq<nat>>,
                                          known: seq<Address>, args: seq<seq<Address>>)
    requires |members| == |procs| && (forall i | 0 <= i < |clusters| :: clusters[i] < |procs|)
    requires Interned(known) && ProcsOk(procs, known)
    ensures var r := AssignAll(members, clusters, procs, known, args);
            && (r.Assigned? <==> SerialRespected(members, clusters, args))
            && (r.Assigned? ==>
                  && known <= r.known && Interned(r.known) && ProcsOk(r.procs, r.known)
                  && forall c | 0 <= c < |procs| ::
                       Addresses(r.known, r.procs[c]) == Wanted(clusters, args, Addresses(known, procs[c]), c))
  {
    hide HasSerial, Interned, AddAll;
    if args != [] {
      hide SerialRespected, Wanted;
      var init := args[..|args| - 1];
      AssignAllGives(members, clusters, procs, known, init);
      RespectedNext(members, clusters, args);
      var before := AssignAll(members, clusters, procs, known, init);
      if before.Assigned? {
        if |args| <= |clusters| {
          var x := clusters[|args| - 1];
          AddAllGives(HasSerial(members[x]), before.procs, x, before.known, args[|args| - 1]);
        }
        var r := AssignAll(members, clusters, procs, known, args);
        if r.Assigned? {
          forall c | 0 <= c < |procs|
            ensures Addresses(r.known, r.procs[c]) == Wanted(clusters, args, Addresses(known, procs[c]), c)
          {
            WantedNext(clusters, args, Addresses(known, procs[c]), c);
            AddressesLater(before.known, r.known, before.procs[c]);
          }
        }
      }
    }
  }

  // ----- acceptance -----

  /** Every cluster has a process and no process is used twice. */
  ghost predicate Accepts(clusters: seq<nat>, procs: seq<seq<nat>>)
    requires forall i | 0 <= i < |clusters| :: clusters[i] < |procs|
  {
    && (forall i | 0 <= i < |clusters| :: procs[clusters[i]] != [])
    && Exclusive(set i | 0 <= i < |clusters| :: clusters[i], procs)
  }

  ghost predicate Exclusive(cs: set<nat>, procs: seq<seq<nat>>)
    requires forall c | c in cs :: c < |procs|
  {
    forall c, d, j, k | c in cs && d in cs && 0 <= j < |procs[c]| && 0 <= k < |procs[d]|
                        && procs[c][j] == procs[d][k] ::
      c == d && j == k
  }

  ghost predicate Uses(cs: set<nat>, procs: seq<seq<nat>>, used: set<nat>)
    requires forall c | c in cs :: c < |procs|
  {
    && (forall c, j | c in cs && 0 <= j < |procs[c]| :: procs[c][j] in used)
    && (forall p | p in used :: exists c, j :: c in cs && 0 <= j < |procs[c]| && procs[c][j] == p)
  }

  /** A cluster with a serial stage has at most one process. */
  ghost predicate SerialAlone(members: seq<set<Stage>>, procs: seq<seq<nat>>) {
    |procs| == |members| && forall c | 0 <= c < |procs| && HasSerial(members[c]) :: |procs[c]| <= 1
  }

  datatype Parts = Unparted | Parted(clusters: seq<nat>)

  class Deployment {
    const graph: Graph
    /** The stages of each cluster object, and the processes it is mapped to. */
    const members: seq<set<Stage>>
    var procs: seq<seq<nat>>
    var known: seq<Address>
    var parts: Parts

    ghost predicate Valid()
      reads this
    {
      && SerialAlone(members, procs) && Interned(known) && ProcsOk(procs, known)
      && (parts.Parted? ==> forall i | 0 <= i < |parts.clusters| :: parts.clusters[i] < |members|)
    }

    constructor (graph: Graph, members: seq<set<Stage>>)
      ensures Valid() && this.graph == graph && this.members == members
      ensures parts == Unparted && known == [] && forall c | 0 <= c < |procs| :: procs[c] == []
    {
      this.graph := graph;
      this.members := members;
      procs := seq(|members|, _ => []);
      known := [];
      parts := Unparted;
    }

    ghost function Sets(clusters: seq<nat>): seq<set<Stage>>
      requires forall i | 0 <= i < |clusters| :: clusters[i] < |members|
    {
      seq(|clusters|, i requires 0 <= i < |clusters| => members[clusters[i]])
    }

    /** graph:part: accepts exactly the partitions that keep coupled stages together; after a failure the graph is
        not partitioned. */
    method Part(clusters: seq<nat>) returns (ok: bool)
      requires Valid() && forall i | 0 <= i < |clusters| :: clusters[i] < |members|
      modifies this`parts
      ensures Valid()
      ensures ok <==> Partitions(graph, Sets(clusters))
      ensures parts == if ok then Parted(clusters) else Unparted
    {
      hide KeepsCoupled, Interned, ProcsOk;
      parts := Unparted;
      var all: set<Stage> := {};
      var i := 0;
      ghost var sets := Sets(clusters);
      while i < |clusters|
        invariant 0 <= i <= |clusters| && parts == Unparted
        invariant all == Union(sets[..i]) && Disjoint(sets[..i])
        invariant forall j | 0 <= j < i :: KeepsCoupled(graph, sets[j])
      {
        var cl := members[clusters[i]];
        UnionNext(sets, i);
        DisjointNext(sets, i);
        if all * cl != {} || !KeepsCoupled(graph, cl) {
          assert sets[i] == cl;
          DisjointPrefix(sets, i + 1);
          return false;
        }
        assert forall s | s in all && s in cl :: s in all * cl;
        assert all !! sets[i];
        all := all + cl;
        i := i + 1;
      }
      assert sets[..i] == sets;
      if Stages(graph) - all != {} || all - Stages(graph) != {} {
        return false;
      }
      parts := Parted(clusters);
      ok := true;
    }

    /** graph:map; a list for a cluster that does not exist is ignored, and a cluster without a list keeps its
        processes. */
    method Map(args: seq<seq<Address>>) returns (ok: bool)
      requires Valid() && parts.Parted?
      modifies this
      ensures Valid() && old(known) <= known
      ensures ok <==> SerialRespected(members, old(parts).clusters, args) && Accepts(old(parts).clusters, procs)
      ensures SerialRespected(members, old(parts).clusters, args) ==>
                forall c | 0 <= c < |members| ::
                  Addresses(known, procs[c]) ==
                  Wanted(old(parts).clusters, args, Addresses(old(known), old(procs)[c]), c)
      ensures forall c | 0 <= c < |members| ::
                Addresses(known, procs[c]) ==
                Wanted(old(parts).clusters, Done(members, old(parts).clusters, args, 0),
                       Addresses(old(known), old(procs)[c]), c)
      ensures parts == if ok || !SerialRespected(members, old(parts).clusters, args) then old(parts) else Unparted
    {
      hide Interned, ProcsOk, HasSerial, Exclusive, AddAll;
      var clusters := parts.clusters;
      AssignAllGives(members, clusters, procs, known, Done(members, clusters, args, 0));
      if SerialRespected(members, clusters, args) {
        DoneAll(members, clusters, args, 0);
      }
      ok := AssignLists(clusters, args);
      if ok {
        ok := Check(clusters);
        if !ok {
          parts := Unparted;
        }
      }
    }

    /** The outer loop of graph:map. */
    method AssignLists(clusters: seq<nat>, args: seq<seq<Address>>) returns (ok: bool)
      requires Valid() && forall i | 0 <= i < |clusters| :: clusters[i] < |members|
      modifies this`procs, this`known
      ensures Valid() && old(known) <= known
      ensures ok <==> SerialRespected(members, clusters, args)
      ensures AssignAll(members, clusters, old(procs), old(known), Done(members, clusters, args, 0)) ==
              Assigned(procs, known)
    {
      hide Interned, ProcsOk, HasSerial, AddAll, AssignAll, SerialRespected;
      var i := 0;
      NoLists(members, clusters, procs, known);
      while i < |args|
        invariant 0 <= i <= |args| && Valid() && old(known) <= known && parts == old(parts)
        invariant AssignAll(members, clusters, old(procs), old(known), args[..i]) == Assigned(procs, known)
        invariant Done(members, clusters, args, 0) == Done(members, clusters, args, i)
      {
        NextList(members, clusters, old(procs), old(known), args, i);
        if i < |clusters| {
          ok := AddProcesses(clusters[i], args[i]);
          if !ok {
            Truncated(members, clusters, old(procs), old(known), args, i);
            AssignAllGives(members, clusters, old(procs), old(known), args[..i + 1]);
            RespectedPrefix(members, clusters, args, i + 1);
            return;
          }
        }
        i := i + 1;
      }
      assert args[..i] == args;
      AssignAllGives(members, clusters, old(procs), old(known), args);
      ok := true;
    }

    /** The inner loop: set_process, then add_process. */
    method AddProcesses(c: nat, addrs: seq<Address>) returns (ok: bool)
      requires Valid() && c < |members|
      modifies this`procs, this`known
      ensures Valid() && old(known) <= known
      ensures var r := AddAll(HasSerial(members[c]), old(procs), c, old(known), addrs);
              ok == r.Assigned? && (ok ==> procs == r.procs && known == r.known)
      ensures ok <==> !(HasSerial(members[c]) && |addrs| > 1)
      ensures !ok ==> AddAll(HasSerial(members[c]), old(procs), c, old(known), addrs[..1]) == Assigned(procs, known)
    {
      hide Interned, ProcsOk, HasSerial, AddAll, AddOne;
      AddAllGives(HasSerial(members[c]), procs, c, known, addrs);
      var j := 0;
      NoAddresses(HasSerial(members[c]), procs, c, known);
      while j < |addrs|
        invariant 0 <= j <= |addrs| && Valid() && old(known) <= known && parts == old(parts)
        invariant AddAll(HasSerial(members[c]), old(procs), c, old(known), addrs[..j]) == Assigned(procs, known)
      {
        NextAddress(HasSerial(members[c]), old(procs), c, old(known), addrs, j);
        ok := AddProcess(c, addrs[j], j == 0);
        if !ok {
          AddAllFails(HasSerial(members[c]), old(procs), c, old(known), addrs, j + 1);
          AddAllGives(HasSerial(members[c]), old(procs), c, old(known), addrs[..j]);
          AddAllGives(HasSerial(members[c]), old(procs), c, old(known), addrs[..j + 1]);
          return;
        }
        j := j + 1;
      }
      assert addrs[..j] == addrs;
      ok := true;
    }

    /** cluster:set_process when `first`, otherwise cluster:add_process */
    method AddProcess(c: nat, a: Address, first: bool) returns (ok: bool)
      requires Valid() && c < |members|
      modifies this`procs, this`known
      ensures Valid() && old(known) <= known
      ensures var r := AddOne(HasSerial(members[c]), old(procs), c, old(known), a, first);
              ok == r.Assigned? && (ok ==> procs == r.procs && known == r.known)
      ensures !ok ==> procs == old(procs) && known == old(known)
    {
      hide Interned, HasSerial, Intern, Find;
      if first {
        procs := procs[c := []];
      }
      if HasSerial(members[c]) && |procs[c]| > 0 {
        return false;
      }
      var more, p := GetProcess(known, a);
      known := more;
      procs := procs[c := procs[c] + [p]];
      ok := true;
    }

    /** The final loop: every cluster object once, every process at most once. */
    method Check(clusters: seq<nat>) returns (ok: bool)
      requires Valid() && forall i | 0 <= i < |clusters| :: clusters[i] < |members|
      ensures ok <==> Accepts(clusters, procs)
    {
      hide Interned, ProcsOk, HasSerial;
      var visited: set<nat> := {};
      var used: set<nat> := {};
      var i := 0;
      while i < |clusters|
        invariant 0 <= i <= |clusters| && visited == set j | 0 <= j < i :: clusters[j]
        invariant forall j | 0 <= j < i :: procs[clusters[j]] != []
        invariant Exclusive(visited, procs) && Uses(visited, procs, used)
      {
        var c := clusters[i];
        if procs[c] == [] {
          return false;
        }
        if c !in visited {
          var fine;
          fine, used := Mark(visited, c, used);
          if !fine {
            ExclusiveFewer(visited + {c}, set j | 0 <= j < |clusters| :: clusters[j], procs);
            return false;
          }
          visited := visited + {c};
        }
        i := i + 1;
      }
      ok := true;
    }

    /** One round of it. */
    method Mark(visited: set<nat>, c: nat, used: set<nat>) returns (fine: bool, more: set<nat>)
      requires Valid() && c < |members| && c !in visited && forall x | x in visited :: x < |members|
      requires Exclusive(visited, procs) && Uses(visited, procs, used)
      ensures fine <==> Exclusive(visited + {c}, procs)
      ensures fine ==> Uses(visited + {c}, procs, more)
    {
      hide Interned, ProcsOk;
      more := used;
      var j := 0;
      while j < |procs[c]|
        invariant 0 <= j <= |procs[c]|
        invariant more == used + set k | 0 <= k < j :: procs[c][k]
        invariant forall k | 0 <= k < j :: procs[c][k] !in used
        invariant forall k, l | 0 <= k < l < j :: procs[c][k] != procs[c][l]
      {
        if procs[c][j] in more {
          if procs[c][j] in used {
            var d, k :| d in visited && 0 <= k < |procs[d]| && procs[d][k] == procs[c][j];
            assert d in visited + {c} && c in visited + {c};
          } else {
            var k :| 0 <= k < j && procs[c][k] == procs[c][j];
            assert c in visited + {c};
          }
          return false, more;
        }
        more := more + {procs[c][j]};
        j := j + 1;
      }
      fine := true;
      MarkedAll(visited, c, procs, used, more);
    }
  }

  lemma MarkedAll(visited: set<nat>, c: nat, procs: seq<seq<nat>>, used: set<nat>, more: set<nat>)
    requires c < |procs| && c !in visited && (forall x | x in visited :: x < |procs|)
    requires Exclusive(visited, procs) && Uses(visited, procs, used)
    requires more == used + set k | 0 <= k < |procs[c]| :: procs[c][k]
    requires forall k | 0 <= k < |procs[c]| :: procs[c][k] !in used
    requires forall k, l | 0 <= k < l < |procs[c]| :: procs[c][k] != procs[c][l]
    ensures Exclusive(visited + {c}, procs) && Uses(visited + {c}, procs, more)
  {
    var both := visited + {c};
    forall p | p in more ensures exists x, j :: x in both && 0 <= j < |procs[x]| && procs[x][j] == p {
      if p in used {
        var x, j :| x in visited && 0 <= j < |procs[x]| && procs[x][j] == p;
        assert x in both;
      } else {
        var j :| 0 <= j < |procs[c]| && procs[c][j] == p;
        assert c in both;
      }
    }
    forall x, y, j, k | x in both && y in both && 0 <= j < |procs[x]| && 0 <= k < |procs[y]|
                        && procs[x][j] == procs[y][k]
      ensures x == y && j == k
    {
      assert x in visited ==> procs[x][j] in used;
      assert y in visited ==> procs[y][k] in used;
    }
  }

  lemma ExclusiveFewer(cs: set<nat>, ds: set<nat>, procs: seq<seq<nat>>)
    requires cs <= ds && forall c | c in ds :: c < |procs|
    ensures Exclusive(ds, procs) ==> Exclusive(cs, procs)
  {
  }

  // ----- the loops against their specification -----

  lemma NoLists(members: seq<set<Stage>>, clusters: seq<nat>, procs: seq<seq<nat>>, known: seq<Address>)
    requires |members| == |procs| && forall i | 0 <= i < |clusters| :: clusters[i] < |procs|
    ensures AssignAll(members, clusters, procs, known, []) == Assigned(procs, known)
  {
  }

  lemma NextList(members: seq<set<Stage>>, clusters: seq<nat>, procs: seq<seq<nat>>, known: seq<Address>,
                 args: seq<seq<Address>>, i: nat)
    requires |members| == |procs| && (forall k | 0 <= k < |clusters| :: clusters[k] < |procs|) && i < |args|
    ensures var before := AssignAll(members, clusters, procs, known, args[..i]);
            AssignAll(members, clusters, procs, known, args[..i + 1]) ==
            if before.Failed? then Failed
            else if i >= |clusters| then before
            else AddAll(HasSerial(members[clusters[i]]), before.procs, clusters[i], before.known, args[i])
  {
    hide HasSerial, AddAll;
    assert args[..i + 1][..i] == args[..i];
  }

  /** The lists before `i`, and the first address of list `i`. */
  lemma Truncated(members: seq<set<Stage>>, clusters: seq<nat>, procs: seq<seq<nat>>, known: seq<Address>,
                  args: seq<seq<Address>>, i: nat)
    requires |members| == |procs| && (forall k | 0 <= k < |clusters| :: clusters[k] < |procs|)
    requires i < |args| && i < |clusters| && |args[i]| > 1
    ensures var before := AssignAll(members, clusters, procs, known, args[..i]);
            AssignAll(members, clusters, procs, known, args[..i] + [args[i][..1]]) ==
            if before.Failed? then Failed
            else AddAll(HasSerial(members[clusters[i]]), before.procs, clusters[i], before.known, args[i][..1])
  {
    hide HasSerial, AddAll;
    var some := args[..i] + [args[i][..1]];
    assert some[..i] == args[..i];
  }

  lemma RespectedPrefix(members: seq<set<Stage>>, clusters: seq<nat>, args: seq<seq<Address>>, n: nat)
    requires (forall i | 0 <= i < |clusters| :: clusters[i] < |members|) && n <= |args|
    ensures SerialRespected(members, clusters, args) ==> SerialRespected(members, clusters, args[..n])
  {
    hide HasSerial;
    assert forall i | 0 <= i < n :: args[..n][i] == args[i];
  }

  lemma NoAddresses(serial: bool, procs: seq<seq<nat>>, c: nat, known: seq<Address>)
    requires c < |procs|
    ensures AddAll(serial, procs, c, known, []) == Assigned(procs, known)
  {
  }

  lemma NextAddress(serial: bool, procs: seq<seq<nat>>, c: nat, known: seq<Address>, addrs: seq<Address>, j: nat)
    requires c < |procs| && j < |addrs|
    ensures var before := AddAll(serial, procs, c, known, addrs[..j]);
            AddAll(serial, procs, c, known, addrs[..j + 1]) ==
            if before.Failed? then Failed else AddOne(serial, before.procs, c, before.known, addrs[j], j == 0)
  {
    hide AddOne;
    assert addrs[..j + 1][..j] == addrs[..j];
  }

  lemma {:induction false} AddAllFails(serial: bool, procs: seq<seq<nat>>, c: nat, known: seq<Address>,
                                       addrs: seq<Address>, j: nat)
    requires c < |procs| && j <= |addrs| && AddAll(serial, procs, c, known, addrs[..j]).Failed?
    ensures AddAll(serial, procs, c, known, addrs).Failed?
    decreases |addrs| - j
  {
    hide AddOne, AddAll;
    if j < |addrs| {
      NextAddress(serial, procs, c, known, addrs, j);
      AddAllFails(serial, procs, c, known, addrs, j + 1);
    } else {
      assert addrs[..j] == addrs;
    }
  }

  lemma UnionNext(sets: seq<set<Stage>>, i: nat)
    requires i < |sets|
    ensures Union(sets[..i + 1]) == Union(sets[..i]) + sets[i]
  {
    forall s | s in Union(sets[..i]) ensures s in Union(sets[..i + 1]) {
      var j :| 0 <= j < i && s in sets[..i][j];
      assert s in sets[..i + 1][j];
    }
    forall s | s in sets[i] ensures s in Union(sets[..i + 1]) {
      assert s in sets[..i + 1][i];
    }
    forall s | s in Union(sets[..i + 1]) && s !in sets[i] ensures s in Union(sets[..i]) {
      var j :| 0 <= j < i + 1 && s in sets[..i + 1][j];
      assert s in sets[..i][j];
    }
  }

  lemma DisjointNext(sets: seq<set<Stage>>, i: nat)
    requires i < |sets| && Disjoint(sets[..i])
    ensures Disjoint(sets[..i + 1]) <==> Union(sets[..i]) !! sets[i]
  {
    var more := sets[..i + 1];
    if Union(sets[..i]) !! sets[i] {
      forall j, k | 0 <= j < k < |more| ensures more[j] !! more[k] {
        assert more[j] == sets[..i][j];
        if k < i {
          assert more[k] == sets[..i][k];
        } else {
          assert sets[..i][j] <= Union(sets[..i]);
        }
      }
    } else {
      var s :| s in Union(sets[..i]) && s in sets[i];
      var j :| 0 <= j < i && s in sets[..i][j];
      assert s in more[j] && s in more[i];
    }
  }

  lemma DisjointPrefix(sets: seq<set<Stage>>, n: nat)
    requires n <= |sets|
    ensures Disjoint(sets) ==> Disjoint(sets[..n])
  {
    forall i, j | 0 <= i < j < n && Disjoint(sets) ensures sets[..n][i] !! sets[..n][j] {
      assert sets[i] !! sets[j];
    }
  }
}
