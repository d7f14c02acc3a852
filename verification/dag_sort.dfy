/** config/utils.go: proxyGroupsDagSort. The graph is a map from names to node records that only the
    map refers to; iterating over the map visits its keys in an arbitrary order. */
module DagSort {
  import opened Options
  import opened Sequences
  import opened DagSpec

  datatype GraphNode = GraphNode(indegree: int, data: Option<Mapping>, option: Option<Group>, outdegree: int, from: seq<string>)
  type Graph = map<string, GraphNode>

  datatype Result = Sorted | DecodeError | Duplicate(name: string) | Loop(names: seq<string>)

  // ---------- Building the graph ----------

  function AllNames(gs: seq<Group>): set<string> {
    if gs == [] then {} else {gs[0].name} + (set p | p in gs[0].proxies) + AllNames(gs[1..])
  }

  lemma {:induction false} AllNamesConcat(a: seq<Group>, b: seq<Group>)
    ensures AllNames(a + b) == AllNames(a) + AllNames(b)
  {
    if a == [] {
      assert a + b == b;
    } else {
      AllNamesConcat(a[1..], b);
      assert (a + b)[1..] == a[1..] + b;
    }
  }

  lemma AllNamesOne(g: Group)
    ensures AllNames([g]) == {g.name} + (set p | p in g.proxies)
  {
    assert [g][1..] == [];
  }

  lemma {:induction false} UnnamedHasNoDegree(gs: seq<Group>, gone: set<string>, x: string)
    requires x !in AllNames(gs)
    ensures InDegree(gs, gone, x) == 0
  {
    if gs != [] {
      UnnamedHasNoDegree(gs[1..], gone, x);
    }
  }

  lemma {:induction false} MemberIsNamed(gs: seq<Group>, i: nat)
    requires i < |gs|
    ensures gs[i].name in AllNames(gs) && forall x :: x in gs[i].proxies ==> x in AllNames(gs)
    decreases i
  {
    if i > 0 {
      MemberIsNamed(gs[1..], i - 1);
    }
  }

  /** Keys and in-degrees are those of the groups seen so far. */
  ghost predicate Degrees(gs: seq<Group>, graph: Graph) {
    graph.Keys == AllNames(gs)
    && forall x :: x in graph ==> graph[x].indegree == InDegree(gs, {}, x) && graph[x].outdegree == 0 && graph[x].from == []
  }

  /** A node carries the config entry of its name, if there is one. */
  ghost predicate Declared(ms: seq<Mapping>, graph: Graph) {
    AllDecoded(ms)
    && (forall i :: 0 <= i < |ms| && ms[i].group.name in graph ==>
          graph[ms[i].group.name].data == Some(ms[i]) && graph[ms[i].group.name].option == Some(ms[i].group))
    && (forall x :: x in graph && (graph[x].data.Some? || graph[x].option.Some?) ==>
          exists i :: 0 <= i < |ms| && ms[i].group.name == x)
  }

  lemma DegreesDeclare(gs: seq<Group>, graph: Graph, name: string, node: GraphNode)
    requires Degrees(gs, graph)
    requires node.indegree == (if name in graph then graph[name].indegree else 0) && node.outdegree == 0 && node.from == []
    ensures Degrees(gs + [Group(name, [])], graph[name := node])
  {
    AllNamesConcat(gs, [Group(name, [])]);
    AllNamesOne(Group(name, []));
    forall x | x in graph[name := node] ensures graph[name := node][x].indegree == InDegree(gs + [Group(name, [])], {}, x) {
      InDegreeConcat(gs, [Group(name, [])], {}, x);
      OneDegree(Group(name, []), x);
      if x !in graph { UnnamedHasNoDegree(gs, {}, x); }
    }
  }

  lemma OneDegree(g: Group, x: string)
    ensures InDegree([g], {}, x) == Times(g.proxies, x)
  {
    assert [g][1..] == [];
  }

  lemma DegreesList(gs: seq<Group>, graph: Graph, name: string, listed: seq<string>, proxy: string, node: GraphNode)
    requires Degrees(gs + [Group(name, listed)], graph)
    requires node.indegree == (if proxy in graph then graph[proxy].indegree else 0) + 1 && node.outdegree == 0 && node.from == []
    ensures Degrees(gs + [Group(name, listed + [proxy])], graph[proxy := node])
  {
    var before, after := Group(name, listed), Group(name, listed + [proxy]);
    hide AllNames, InDegree;
    var graph' := graph[proxy := node];
    assert graph'.Keys == AllNames(gs + [after]) by {
      AllNamesConcat(gs, [before]);
      AllNamesConcat(gs, [after]);
      AllNamesOne(before);
      AllNamesOne(after);
    }
    forall x | x in graph' ensures graph'[x].indegree == InDegree(gs + [after], {}, x) {
      InDegreeConcat(gs, [before], {}, x);
      InDegreeConcat(gs, [after], {}, x);
      OneDegree(before, x);
      OneDegree(after, x);
      if x !in graph { UnnamedHasNoDegree(gs + [before], {}, x); }
    }
  }

  lemma DeclaredAdd(ms: seq<Mapping>, graph: Graph, mapping: Mapping, node: GraphNode)
    requires Declared(ms, graph) && mapping.Decoded? && node.data == Some(mapping) && node.option == Some(mapping.group)
    requires forall i :: 0 <= i < |ms| ==> ms[i].group.name != mapping.group.name
    ensures Declared(ms + [mapping], graph[mapping.group.name := node])
  {
    var all, graph' := ms + [mapping], graph[mapping.group.name := node];
    forall x | x in graph' && (graph'[x].data.Some? || graph'[x].option.Some?)
      ensures exists i :: 0 <= i < |all| && all[i].group.name == x
    {
      if x == mapping.group.name {
        assert all[|ms|].group.name == x;
      } else {
        var i :| 0 <= i < |ms| && ms[i].group.name == x;
        assert all[i].group.name == x;
      }
    }
  }

  lemma DeclaredKeep(ms: seq<Mapping>, graph: Graph, x: string, node: GraphNode)
    requires Declared(ms, graph)
    requires forall i :: 0 <= i < |ms| ==> ms[i].group.name in graph
    requires if x in graph then node.data == graph[x].data && node.option == graph[x].option
             else node.data == None && node.option == None
    ensures Declared(ms, graph[x := node])
  {
  }

  /** One step of the outer loop: a group is declared and its members are counted. */
  method AddGroup(graph0: Graph, mapping: Mapping, ghost ms: seq<Mapping>) returns (duplicate: bool, graph: Graph)
    requires mapping.Decoded? && AllDecoded(ms) && Degrees(Groups(ms), graph0) && Declared(ms, graph0)
    ensures duplicate <==> exists i :: 0 <= i < |ms| && ms[i].group.name == mapping.group.name
    ensures !duplicate ==> Degrees(Groups(ms + [mapping]), graph) && Declared(ms + [mapping], graph)
  {
    hide Degrees, AllNames, InDegree, Declared;
    graph := graph0;
    var option := mapping.group;
    var name := option.name;
    NamesAreKeys(ms, graph);
    HasDataMeans(ms, graph, name);
    if name in graph {
      if graph[name].data.Some? { return true, graph; }
      graph := graph[name := graph[name].(data := Some(mapping), option := Some(option))];
    } else {
      graph := graph[name := GraphNode(0, Some(mapping), Some(option), 0, [])];
    }
    duplicate := false;
    FreshNode(Groups(ms), graph0, name);
    DegreesDeclare(Groups(ms), graph0, name, graph[name]);
    DeclaredAdd(ms, graph0, mapping, graph[name]);
    for j := 0 to |option.proxies|
      invariant Degrees(Groups(ms) + [Group(name, option.proxies[..j])], graph)
      invariant Declared(ms + [mapping], graph)
      invariant forall i :: 0 <= i < |ms| + 1 ==> (ms + [mapping])[i].group.name in graph
    {
      var proxy := option.proxies[j];
      ghost var before := graph;
      if proxy in graph {
        graph := graph[proxy := graph[proxy].(indegree := graph[proxy].indegree + 1)];
      } else {
        graph := graph[proxy := GraphNode(1, None, None, 0, [])];
      }
      assert option.proxies[..j + 1] == option.proxies[..j] + [proxy];
      FreshNode(Groups(ms) + [Group(name, option.proxies[..j])], before, proxy);
      DegreesList(Groups(ms), before, name, option.proxies[..j], proxy, graph[proxy]);
      DeclaredKeep(ms + [mapping], before, proxy, graph[proxy]);
    }
    assert option == Group(name, option.proxies[..|option.proxies|]);
    assert Groups(ms + [mapping]) == Groups(ms) + [option];
  }

  lemma HasDataMeans(ms: seq<Mapping>, graph: Graph, x: string)
    requires Declared(ms, graph) && forall i :: 0 <= i < |ms| ==> ms[i].group.name in graph
    ensures x in graph && graph[x].data.Some? <==> exists i :: 0 <= i < |ms| && ms[i].group.name == x
  {
  }

  lemma NamesAreKeys(ms: seq<Mapping>, graph: Graph)
    requires AllDecoded(ms) && Degrees(Groups(ms), graph)
    ensures forall i :: 0 <= i < |ms| ==> ms[i].group.name in graph
  {
    forall i | 0 <= i < |ms| ensures ms[i].group.name in graph {
      MemberIsNamed(Groups(ms), i);
    }
  }

  lemma FreshNode(gs: seq<Group>, graph: Graph, x: string)
    requires Degrees(gs, graph)
    ensures x in graph ==> graph[x].outdegree == 0 && graph[x].from == []
  {
  }

  /** Step 1.1: stops at the first entry that does not decode or repeats a name. */
  method BuildGraph(config: array<Mapping>) returns (r: Result, graph: Graph)
    ensures r.Sorted? || r.DecodeError? || r.Duplicate?
    ensures r.Sorted? ==>
              AllDecoded(config[..]) && DistinctNames(Groups(config[..]))
              && Degrees(Groups(config[..]), graph) && Declared(config[..], graph)
    ensures r.DecodeError? ==> exists n :: 0 <= n < config.Length && config[n].Undecodable?
    ensures r.Duplicate? ==>
              exists i, j :: 0 <= i < j < config.Length && config[i].Decoded? && config[j].Decoded?
                             && config[i].group.name == config[j].group.name == r.name
  {
    hide Degrees, Declared;
    graph := map[];
    EmptyDegrees();
    assert Groups([]) == [];
    for n := 0 to config.Length
      invariant AllDecoded(config[..n]) && DistinctNames(Groups(config[..n]))
      invariant Degrees(Groups(config[..n]), graph) && Declared(config[..n], graph)
    {
      var mapping := config[n];
      if mapping.Undecodable? { return DecodeError, graph; }
      assert config[..n + 1] == config[..n] + [mapping];
      var duplicate;
      duplicate, graph := AddGroup(graph, mapping, config[..n]);
      if duplicate {
        ghost var i :| 0 <= i < n && config[..n][i].group.name == mapping.group.name;
        assert config[i].group.name == config[n].group.name;
        return Duplicate(mapping.group.name), graph;
      }
      assert forall i :: 0 <= i < n ==> config[..n][i].group.name != mapping.group.name;
      assert Groups(config[..n + 1]) == Groups(config[..n]) + [mapping.group];
    }
    assert config[..config.Length] == config[..];
    r := Sorted;
  }

  lemma EmptyDegrees()
    ensures Degrees([], map[]) && Declared([], map[])
  {
  }

  // ---------- The first peel ----------

  /** The queue holds the nodes of in-degree 0, each once. */
  ghost predicate QueuedIn(graph: Graph, queue: seq<string>) {
    Distinct(queue) && forall x :: x in queue <==> x in graph && graph[x].indegree == 0
  }

  /** In-degrees count the groups that remain, plus what of `rest` has not been taken off yet. */
  ghost predicate Counts(gs: seq<Group>, graph: Graph, gone: set<string>, rest: seq<string>) {
    forall x :: x in graph ==> graph[x].indegree == InDegree(gs, gone, x) + Times(rest, x)
  }

  /** What the first peel keeps: nothing that remains lists anything that has been removed. */
  ghost predicate Peeling(gs: seq<Group>, graph: Graph, gone: set<string>) {
    graph.Keys == AllNames(gs) - gone && gone <= AllNames(gs)
    && forall x :: x in gone ==> InDegree(gs, gone, x) == 0
  }

  lemma ChildrenRemain(gs: seq<Group>, graph: Graph, gone: set<string>, k: nat)
    requires Peeling(gs, graph, gone) && k < |gs| && gs[k].name in graph
    ensures forall x :: x in gs[k].proxies ==> x in graph
  {
    hide AllNames, InDegree;
    MemberIsNamed(gs, k);
    forall x | x in gs[k].proxies ensures x in graph {
      assert Edge(gs, gs[k].name, x);
      ListedHasDegree(gs, gone, x);
    }
  }

  /** Starting on a group: what it lists is split off from the counts. */
  lemma CountsSplit(gs: seq<Group>, graph: Graph, gone: set<string>, k: nat)
    requires DistinctNames(gs) && k < |gs| && gs[k].name !in gone && Counts(gs, graph, gone, [])
    ensures Counts(gs, graph, gone + {gs[k].name}, gs[k].proxies)
  {
    hide InDegree;
    forall x | x in graph
      ensures graph[x].indegree == InDegree(gs, gone + {gs[k].name}, x) + Times(gs[k].proxies, x)
    {
      RemovingGroup(gs, gone, k, x);
    }
  }

  /** A node that is no group takes nothing with it. */
  lemma CountsForget(gs: seq<Group>, graph: Graph, gone: set<string>, name: string)
    requires Counts(gs, graph, gone, []) && forall i :: 0 <= i < |gs| ==> gs[i].name != name
    ensures Counts(gs, graph, gone + {name}, [])
  {
    hide InDegree;
    forall x | x in graph ensures InDegree(gs, gone + {name}, x) == InDegree(gs, gone, x) {
      Forgetting(gs, gone, x, name);
    }
  }

  lemma {:induction false} InDegreeShrinks(gs: seq<Group>, gone: set<string>, more: set<string>, x: string)
    requires gone <= more
    ensures InDegree(gs, more, x) <= InDegree(gs, gone, x)
  {
    if gs != [] {
      InDegreeShrinks(gs[1..], gone, more, x);
    }
  }

  /** Removing a node that nothing remaining lists. */
  lemma PeelingStep(gs: seq<Group>, graph: Graph, gone: set<string>, name: string)
    requires Peeling(gs, graph, gone) && name in graph && InDegree(gs, gone, name) == 0
    ensures Peeling(gs, graph - {name}, gone + {name})
  {
    hide AllNames, InDegree;
    forall x | x in gone + {name} ensures InDegree(gs, gone + {name}, x) == 0 {
      InDegreeShrinks(gs, gone, gone + {name}, x);
    }
  }

  /** Nothing on a cycle is ever removed: its predecessor on the cycle would have to go first. */
  lemma CyclesSurvive(gs: seq<Group>, gone: set<string>, name: string)
    requires InDegree(gs, gone, name) == 0
    requires forall x :: OnCycle(gs, x) ==> x !in gone
    ensures forall x :: OnCycle(gs, x) ==> x !in gone + {name}
  {
    hide OnCycle, InDegree;
    if OnCycle(gs, name) {
      CyclesContinue(gs, name);
      var y :| Edge(gs, y, name) && OnCycle(gs, y);
      ListedHasDegree(gs, gone, name);
    }
  }

  /** The members of a removed group lose one in-degree each, and those that reach 0 are queued. */
  method TakeOff(ghost gs: seq<Group>, graph0: Graph, queue0: seq<string>, proxies: seq<string>, ghost gone: set<string>)
    returns (graph: Graph, queue: seq<string>)
    requires Counts(gs, graph0, gone, proxies) && QueuedIn(graph0, queue0) && queue0 != []
    requires forall x :: x in proxies ==> x in graph0
    ensures graph.Keys == graph0.Keys && Counts(gs, graph, gone, []) && QueuedIn(graph, queue)
    ensures |queue| >= |queue0| && queue[0] == queue0[0]
    ensures SameButDegrees(graph0, graph)
  {
    hide InDegree;
    graph, queue := graph0, queue0;
    assert proxies[0..] == proxies;
    for j := 0 to |proxies|
      invariant graph.Keys == graph0.Keys && Counts(gs, graph, gone, proxies[j..]) && QueuedIn(graph, queue)
      invariant |queue| >= |queue0| && queue[0] == queue0[0]
      invariant SameButDegrees(graph0, graph)
    {
      var proxy := proxies[j];
      var child := graph[proxy];
      ListStep(proxies, j);
      graph := graph[proxy := child.(indegree := child.indegree - 1)];
      if child.indegree - 1 == 0 {
        queue := queue + [proxy];
      }
    }
  }

  lemma ListStep(s: seq<string>, j: nat)
    requires j < |s|
    ensures forall x :: Times(s[j..], x) == (if x == s[j] then 1 else 0) + Times(s[j + 1..], x)
  {
    assert s[j..] == [s[j]] + s[j + 1..];
  }

  ghost predicate SameButDegrees(a: Graph, b: Graph) {
    a.Keys == b.Keys
    && forall x :: x in a ==> b[x] == a[x].(indegree := b[x].indegree)
  }

  // ---------- The order written back ----------

  /** The last entries of the slice: the groups removed so far, each once, and every one of them
      followed by all the groups that list it. */
  ghost predicate Emitted(ms: seq<Mapping>, gone: set<string>, r: seq<Mapping>)
    requires AllDecoded(ms)
  {
    (forall i :: 0 <= i < |r| ==> r[i] in ms && r[i].group.name in gone)
    && Distinct(r)
    && (forall m :: m in ms && m.group.name in gone ==> m in r)
    && (forall i, m :: 0 <= i < |r| && m in ms && r[i].group.name in m.group.proxies ==> m in r[i + 1..])
  }

  lemma ListersAreOut(ms: seq<Mapping>, gone: set<string>, r: seq<Mapping>, name: string)
    requires AllDecoded(ms) && Emitted(ms, gone, r) && InDegree(Groups(ms), gone, name) == 0
    ensures forall o :: o in ms && name in o.group.proxies ==> o in r
  {
    hide InDegree;
    forall o | o in ms && name in o.group.proxies ensures o in r {
      ListedHasDegree(Groups(ms), gone, name);
      var i :| 0 <= i < |ms| && ms[i] == o;
      assert Groups(ms)[i] == o.group;
      assert Edge(Groups(ms), o.group.name, name);
    }
  }

  lemma EmitStep(ms: seq<Mapping>, gone: set<string>, r: seq<Mapping>, m: Mapping)
    requires AllDecoded(ms) && DistinctNames(Groups(ms)) && Emitted(ms, gone, r)
    requires m in ms && m.group.name !in gone && InDegree(Groups(ms), gone, m.group.name) == 0
    ensures Emitted(ms, gone + {m.group.name}, [m] + r)
  {
    hide InDegree, DistinctNames, Emitted;
    ListersAreOut(ms, gone, r, m.group.name);
    EmittedAll(ms, gone, r, m);
    EmittedLater(ms, gone, r, m);
    EmittedNow(ms, gone, r, m);
  }

  lemma EmittedAll(ms: seq<Mapping>, gone: set<string>, r: seq<Mapping>, m: Mapping)
    requires AllDecoded(ms) && DistinctNames(Groups(ms)) && Emitted(ms, gone, r) && m in ms
    ensures forall o :: o in ms && o.group.name in gone + {m.group.name} ==> o in [m] + r
  {
    hide DistinctNames;
    forall o | o in ms && o.group.name in gone + {m.group.name} ensures o in [m] + r {
      if o.group.name == m.group.name { SameName(ms, o, m); }
    }
  }

  lemma EmittedNow(ms: seq<Mapping>, gone: set<string>, r: seq<Mapping>, m: Mapping)
    requires AllDecoded(ms) && Emitted(ms, gone, r) && m in ms && m.group.name !in gone
    requires var s := [m] + r;
             (forall o :: o in ms && o.group.name in gone + {m.group.name} ==> o in s)
             && (forall i, o :: 0 <= i < |s| && o in ms && s[i].group.name in o.group.proxies ==> o in s[i + 1..])
    ensures Emitted(ms, gone + {m.group.name}, [m] + r)
  {
  }

  lemma EmittedLater(ms: seq<Mapping>, gone: set<string>, r: seq<Mapping>, m: Mapping)
    requires AllDecoded(ms) && Emitted(ms, gone, r) && m in ms
    requires forall o :: o in ms && m.group.name in o.group.proxies ==> o in r
    ensures var s := [m] + r;
            forall i, o :: 0 <= i < |s| && o in ms && s[i].group.name in o.group.proxies ==> o in s[i + 1..]
  {
    var s := [m] + r;
    forall i, o | 0 <= i < |s| && o in ms && s[i].group.name in o.group.proxies ensures o in s[i + 1..] {
      if i == 0 { assert s[1..] == r; } else { assert s[i + 1..] == r[i..]; }
    }
  }

  lemma EmitFits(ms: seq<Mapping>, gone: set<string>, r: seq<Mapping>, m: Mapping)
    requires AllDecoded(ms) && Emitted(ms, gone, r) && m in ms && m.group.name !in gone
    ensures |r| < |ms|
  {
    NoDupFits([m] + r, ms);
  }

  lemma SameName(ms: seq<Mapping>, a: Mapping, b: Mapping)
    requires AllDecoded(ms) && DistinctNames(Groups(ms)) && a in ms && b in ms && a.group.name == b.group.name
    ensures a == b
  {
    var i :| 0 <= i < |ms| && ms[i] == a;
    var j :| 0 <= j < |ms| && ms[j] == b;
    assert Groups(ms)[i].name == Groups(ms)[j].name;
  }

  lemma TakeOut<T>(s: seq<T>, k: nat)
    requires k < |s|
    ensures var rest := s[..k] + s[k + 1..];
            (forall x :: x in s && x != s[k] ==> x in rest) && multiset(s) == multiset(rest) + multiset{s[k]}
            && (Distinct(s) ==> Distinct(rest))
  {
    var rest := s[..k] + s[k + 1..];
    forall x | x in s && x != s[k] ensures x in rest {
      var j :| 0 <= j < |s| && s[j] == x;
      assert rest[if j < k then j else j - 1] == x;
    }
    assert s == s[..k] + ([s[k]] + s[k + 1..]);
  }

  /** Entries of `s`, none twice, are at most as many as those of `t`. */
  lemma {:induction false} NoDupFits<T>(s: seq<T>, t: seq<T>)
    requires Distinct(s) && forall i :: 0 <= i < |s| ==> s[i] in t
    ensures |s| <= |t|
    decreases |s|
  {
    if s != [] {
      var k :| 0 <= k < |t| && t[k] == s[0];
      TakeOut(t, k);
      NoDupFits(s[1..], t[..k] + t[k + 1..]);
    }
  }

  lemma {:induction false} NoDupPermutation<T>(s: seq<T>, t: seq<T>)
    requires Distinct(s) && |s| == |t| && forall i :: 0 <= i < |t| ==> t[i] in s
    requires Distinct(t)
    ensures multiset(s) == multiset(t)
    decreases |s|
  {
    if s != [] {
      var k :| 0 <= k < |s| && s[k] == t[0];
      TakeOut(s, k);
      NoDupPermutation(s[..k] + s[k + 1..], t[1..]);
      assert t == [t[0]] + t[1..];
    }
  }

  /** When every name is gone, the slice is a permutation with members before those that list them. */
  lemma AllEmitted(ms: seq<Mapping>, r: seq<Mapping>)
    requires AllDecoded(ms) && DistinctNames(Groups(ms)) && Emitted(ms, AllNames(Groups(ms)), r) && |r| <= |ms|
    ensures |r| == |ms| && multiset(r) == multiset(ms) && AllDecoded(r) && Ordered(Groups(r))
  {
    hide AllNames;
    forall i | 0 <= i < |ms| ensures ms[i] in r {
      MemberIsNamed(Groups(ms), i);
    }
    assert Distinct(ms) by {
      forall i, j | 0 <= i < j < |ms| ensures ms[i] != ms[j] {
        assert Groups(ms)[i].name != Groups(ms)[j].name;
      }
    }
    NoDupFits(ms, r);
    NoDupPermutation(r, ms);
    forall i, k | 0 <= i < |r| && 0 <= k < |r| && Groups(r)[k].name in Groups(r)[i].proxies ensures k < i {
      assert r[i] in r[k + 1..];
      var j :| 0 <= j < |r[k + 1..]| && r[k + 1..][j] == r[i];
      assert r[k + 1 + j] == r[i];
    }
  }

  /** The names whose node has this degree 0, in the arbitrary order of a map iteration. */
  method NamesWithout(graph: Graph, outgoing: bool) returns (queue: seq<string>)
    ensures Distinct(queue)
    ensures forall x :: x in queue <==> x in graph && (if outgoing then graph[x].outdegree else graph[x].indegree) == 0
  {
    queue := [];
    var left := graph.Keys;
    while left != {}
      invariant left <= graph.Keys && Distinct(queue)
      invariant forall x :: x in queue <==>
                  x in graph && x !in left && (if outgoing then graph[x].outdegree else graph[x].indegree) == 0
      decreases left
    {
      var name :| name in left;
      left := left - {name};
      if (if outgoing then graph[name].outdegree else graph[name].indegree) == 0 {
        queue := queue + [name];
      }
    }
  }

  lemma DequeuedIn(graph: Graph, queue: seq<string>)
    requires QueuedIn(graph, queue) && queue != []
    ensures QueuedIn(graph - {queue[0]}, queue[1..])
  {
    var rest := queue[1..];
    forall x ensures x in rest <==> x in queue && x != queue[0] {
      if x in queue && x != queue[0] {
        var i :| 0 <= i < |queue| && queue[i] == x;
        assert rest[i - 1] == x;
      }
    }
  }

  lemma DeclaredShrinks(ms: seq<Mapping>, graph: Graph, name: string)
    requires Declared(ms, graph)
    ensures Declared(ms, graph - {name})
  {
  }

  lemma DeclaredSame(ms: seq<Mapping>, a: Graph, b: Graph)
    requires Declared(ms, a) && SameButDegrees(a, b)
    ensures Declared(ms, b)
  {
  }

  lemma DeclaredAt(ms: seq<Mapping>, graph: Graph, name: string) returns (k: nat)
    requires Declared(ms, graph) && name in graph && graph[name].option.Some?
    ensures k < |ms| && ms[k].group.name == name && graph[name].data == Some(ms[k]) && graph[name].option == Some(ms[k].group)
  {
    k :| 0 <= k < |ms| && ms[k].group.name == name;
  }

  /** The state between two turns of the sorting loop. */
  ghost predicate SortState(ms: seq<Mapping>, graph: Graph, queue: seq<string>, gone: set<string>, r: seq<Mapping>) {
    AllDecoded(ms) && Declared(ms, graph) && DistinctNames(Groups(ms))
    && Peeling(Groups(ms), graph, gone) && Counts(Groups(ms), graph, gone, []) && QueuedIn(graph, queue)
    && Emitted(ms, gone, r) && (forall x :: OnCycle(Groups(ms), x) ==> x !in gone)
    && Unlinked(graph)
  }

  ghost predicate Unlinked(graph: Graph) {
    forall x :: x in graph ==> graph[x].outdegree == 0 && graph[x].from == []
  }

  lemma SortStart(ms: seq<Mapping>, graph: Graph, queue: seq<string>)
    requires AllDecoded(ms) && DistinctNames(Groups(ms)) && Degrees(Groups(ms), graph) && Declared(ms, graph)
    requires QueuedIn(graph, queue)
    ensures SortState(ms, graph, queue, {}, [])
  {
  }

  /** One turn of the sorting loop: the node at the head of the queue is taken out of the graph. */
  method SortTurn(ghost ms: seq<Mapping>, graph0: Graph, queue0: seq<string>, ghost gone: set<string>, ghost r: seq<Mapping>)
    returns (graph: Graph, queue: seq<string>, emit: Option<Mapping>)
    requires SortState(ms, graph0, queue0, gone, r) && queue0 != []
    ensures graph.Keys == graph0.Keys - {queue0[0]} && queue0[0] in graph0
    ensures emit.Some? ==> |r| < |ms|
    ensures SortState(ms, graph, queue, gone + {queue0[0]}, if emit.Some? then [emit.value] + r else r)
  {
    hide InDegree, Declared, Emitted, AllNames, OnCycle, QueuedIn, DistinctNames;
    ghost var gs := Groups(ms);
    var name := queue0[0];
    HeadIsQueued(graph0, queue0);
    var node := graph0[name];
    graph, queue, emit := graph0, queue0, None;
    CyclesSurvive(gs, gone, name);
    PeelingStep(gs, graph0, gone, name);
    if node.option.Some? {
      ghost var k := DeclaredAt(ms, graph0, name);
      emit := node.data;
      EmitFits(ms, gone, r, ms[k]);
      EmitStep(ms, gone, r, ms[k]);
      CountsSplit(gs, graph0, gone, k);
      ChildrenRemain(gs, graph0, gone, k);
      graph, queue := TakeOff(gs, graph0, queue0, node.option.value.proxies, gone + {name});
      DeclaredSame(ms, graph0, graph);
    } else {
      NotDeclared(ms, graph0, name);
      CountsForget(gs, graph0, gone, name);
      EmitNothing(ms, gone, r, name);
    }
    DequeuedIn(graph, queue);
    DeclaredShrinks(ms, graph, name);
    graph, queue := graph - {name}, queue[1..];
  }

  lemma HeadIsQueued(graph: Graph, queue: seq<string>)
    requires QueuedIn(graph, queue) && queue != []
    ensures queue[0] in graph && graph[queue[0]].indegree == 0
  {
  }

  lemma NotDeclared(ms: seq<Mapping>, graph: Graph, name: string)
    requires Declared(ms, graph) && name in graph && graph[name].option.None?
    ensures forall i :: 0 <= i < |ms| ==> Groups(ms)[i].name != name
  {
  }

  lemma EmitNothing(ms: seq<Mapping>, gone: set<string>, r: seq<Mapping>, name: string)
    requires AllDecoded(ms) && Emitted(ms, gone, r) && forall i :: 0 <= i < |ms| ==> Groups(ms)[i].name != name
    ensures Emitted(ms, gone + {name}, r)
  {
    forall m | m in ms ensures m.group.name != name {
      var i :| 0 <= i < |ms| && ms[i] == m;
      assert Groups(ms)[i].name != name;
    }
  }

  /** Step 1.2: takes nodes of in-degree 0 out of the graph and fills the slice from its end. */
  method Sort(config: array<Mapping>, graph0: Graph) returns (graph: Graph, ghost gone: set<string>)
    requires AllDecoded(config[..]) && DistinctNames(Groups(config[..]))
    requires Degrees(Groups(config[..]), graph0) && Declared(config[..], graph0)
    modifies config
    ensures exists queue, r :: SortState(old(config[..]), graph, queue, gone, r) && queue == []
    ensures graph == map[] ==>
              multiset(config[..]) == multiset(old(config[..])) && AllDecoded(config[..]) && Ordered(Groups(config[..]))
  {
    hide Degrees, Declared, SortState, EndsWith;
    ghost var ms := config[..];
    var index := 0;
    var queue := NamesWithout(graph0, false);
    graph := graph0;
    gone := {};
    ghost var r: seq<Mapping> := [];
    assert QueuedIn(graph, queue);
    SortStart(ms, graph, queue);
    NothingWritten(config);
    while |queue| > 0
      invariant index == |r| <= config.Length == |ms| && EndsWith(config, r)
      invariant SortState(ms, graph, queue, gone, r)
      decreases graph.Keys
    {
      var name := queue[0];
      var emit;
      graph, queue, emit := SortTurn(ms, graph, queue, gone, r);
      gone := gone + {name};
      if emit.Some? {
        index := index + 1;
        PutInFront(config, index, emit.value, r);
        r := [emit.value] + r;
      }
    }
    if graph == map[] {
      SortedAll(ms, graph, queue, gone, r);
      AllWritten(config, r);
    }
  }

  /** The part of the slice that has been written. */
  ghost predicate EndsWith(config: array<Mapping>, r: seq<Mapping>)
    reads config
  {
    |r| <= config.Length && config[config.Length - |r|..] == r
  }

  lemma NothingWritten(config: array<Mapping>)
    ensures EndsWith(config, [])
  {
  }

  lemma AllWritten(config: array<Mapping>, r: seq<Mapping>)
    requires EndsWith(config, r) && |r| == config.Length
    ensures r == config[..]
  {
  }

  method PutInFront(config: array<Mapping>, index: nat, m: Mapping, ghost r: seq<Mapping>)
    requires index == |r| + 1 <= config.Length && EndsWith(config, r)
    modifies config
    ensures EndsWith(config, [m] + r)
  {
    config[config.Length - index] := m;
  }

  lemma SortedAll(ms: seq<Mapping>, graph: Graph, queue: seq<string>, gone: set<string>, r: seq<Mapping>)
    requires SortState(ms, graph, queue, gone, r) && graph == map[] && |r| <= |ms|
    ensures |r| == |ms| && multiset(r) == multiset(ms) && AllDecoded(r) && Ordered(Groups(r))
  {
    hide Emitted, Declared, AllNames, DistinctNames, InDegree;
    assert graph.Keys == {};
    forall x | x in AllNames(Groups(ms)) ensures x in gone {
      assert x !in graph.Keys;
    }
    assert AllNames(Groups(ms)) == gone;
    AllEmitted(ms, r);
  }

  // ---------- The second peel ----------

  /** What a name lists: nothing, unless it is a group. */
  ghost function Listed(gs: seq<Group>, x: string): seq<string> {
    if exists i :: 0 <= i < |gs| && gs[i].name == x then gs[Position(gs, x)].proxies else []
  }

  lemma ListedIsEdge(gs: seq<Group>, x: string, y: string)
    requires DistinctNames(gs)
    ensures y in Listed(gs, x) <==> Edge(gs, x, y)
  {
    if Edge(gs, x, y) {
      var i :| 0 <= i < |gs| && gs[i].name == x && y in gs[i].proxies;
      assert Position(gs, x) == i;
    }
  }

  /** What the nodes know of their lists. */
  ghost predicate KnowsLists(gs: seq<Group>, graph: Graph) {
    forall x :: x in graph ==> Listed(gs, x) == if graph[x].option.Some? then graph[x].option.value.proxies else []
  }

  lemma DeclaredKnows(ms: seq<Mapping>, graph: Graph)
    requires AllDecoded(ms) && Declared(ms, graph) && DistinctNames(Groups(ms))
    ensures KnowsLists(Groups(ms), graph)
  {
    hide AllDecoded;
    forall x | x in graph
      ensures Listed(Groups(ms), x) == if graph[x].option.Some? then graph[x].option.value.proxies else []
    {
      if graph[x].option.Some? {
        var k := DeclaredAt(ms, graph, x);
        assert Groups(ms)[k].name == x;
        assert Position(Groups(ms), x) == k;
      } else {
        NotDeclared(ms, graph, x);
      }
    }
  }

  /** Degrees and back references once the nodes of `done` have been gone through, and the first
      `j` members of `name`. */
  ghost predicate Linked(gs: seq<Group>, graph: Graph, done: set<string>, name: string, j: nat)
    requires j <= |Listed(gs, name)|
  {
    forall x :: x in graph ==>
      graph[x].outdegree == (if x in done then |Listed(gs, x)| else if x == name then j else 0)
      && (forall f :: Times(graph[x].from, f)
                      == if f in done then Times(Listed(gs, f), x)
                         else if f == name then Times(Listed(gs, name)[..j], x) else 0)
  }

  lemma LinkStep(gs: seq<Group>, a: Graph, done: set<string>, name: string, j: nat)
    requires j < |Listed(gs, name)| && name !in done && name in a && Listed(gs, name)[j] in a
    requires Linked(gs, a, done, name, j)
    ensures var b := a[name := a[name].(outdegree := a[name].outdegree + 1)];
            var child := Listed(gs, name)[j];
            Linked(gs, b[child := b[child].(from := b[child].from + [name])], done, name, j + 1)
  {
    hide Listed, Times;
    var l := Listed(gs, name);
    assert l[..j + 1] == l[..j] + [l[j]];
    TimesAppend(l[..j], l[j]);
    TimesAppend(a[l[j]].from, name);
  }

  lemma TimesAppend(s: seq<string>, y: string)
    ensures forall x :: Times(s + [y], x) == Times(s, x) + if x == y then 1 else 0
  {
  }

  /** Step 2.1: counts out-degrees and records, for every node, who lists it. */
  method LinkBack(ghost gs: seq<Group>, graph0: Graph) returns (graph: Graph)
    requires KnowsLists(gs, graph0) && Linked(gs, graph0, {}, "", 0)
    requires forall x, y :: x in graph0 && y in Listed(gs, x) ==> y in graph0
    ensures graph.Keys == graph0.Keys && KnowsLists(gs, graph) && Linked(gs, graph, graph.Keys, "", 0)
  {
    hide Listed, Linked, Times;
    graph := graph0;
    var left := graph.Keys;
    assert graph0.Keys - left == {};
    while left != {}
      invariant left <= graph.Keys == graph0.Keys && KnowsLists(gs, graph)
      invariant Linked(gs, graph, graph0.Keys - left, "", 0)
      decreases left
    {
      var name :| name in left;
      ghost var done := graph0.Keys - left;
      var proxies := if graph[name].option.Some? then graph[name].option.value.proxies else [];
      LinkTurn(gs, graph, done, name);
      graph := LinkNode(gs, graph, done, name, proxies);
      left := left - {name};
      LinkTurnEnds(gs, graph, done, name);
      assert done + {name} == graph0.Keys - left;
    }
    assert graph0.Keys - left == graph.Keys;
  }

  /** One node is linked back from everything it lists. */
  method LinkNode(ghost gs: seq<Group>, graph0: Graph, ghost done: set<string>, name: string, proxies: seq<string>)
    returns (graph: Graph)
    requires KnowsLists(gs, graph0) && Linked(gs, graph0, done, name, 0) && name in graph0 && name !in done
    requires proxies == Listed(gs, name) && forall y :: y in proxies ==> y in graph0
    ensures graph.Keys == graph0.Keys && KnowsLists(gs, graph) && Linked(gs, graph, done, name, |proxies|)
  {
    hide Listed, Linked, Times;
    graph := graph0;
    for j := 0 to |proxies|
      invariant graph.Keys == graph0.Keys && KnowsLists(gs, graph)
      invariant Linked(gs, graph, done, name, j)
    {
      LinkStep(gs, graph, done, name, j);
      graph := graph[name := graph[name].(outdegree := graph[name].outdegree + 1)];
      var child := proxies[j];
      graph := graph[child := graph[child].(from := graph[child].from + [name])];
    }
  }

  lemma LinkTurn(gs: seq<Group>, graph: Graph, done: set<string>, name: string)
    requires Linked(gs, graph, done, "", 0) && name !in done
    ensures Linked(gs, graph, done, name, 0)
  {
    hide Listed;
  }

  lemma LinkTurnEnds(gs: seq<Group>, graph: Graph, done: set<string>, name: string)
    requires Linked(gs, graph, done, name, |Listed(gs, name)|) && name !in done
    ensures Linked(gs, graph, done + {name}, "", 0)
  {
    hide Listed;
    assert Listed(gs, name)[..|Listed(gs, name)|] == Listed(gs, name);
  }

  /** What the second peel keeps: whatever it has removed from `rest` lists nothing that remains. */
  ghost predicate Stripping(gs: seq<Group>, graph: Graph, rest: set<string>, gone: set<string>) {
    graph.Keys == rest - gone
    && (forall x, y :: x in rest && Edge(gs, x, y) ==> y in rest)
    && (forall x, y :: x in rest && x in gone && Edge(gs, x, y) ==> y in gone)
    && (forall x, f :: x in graph ==> Times(graph[x].from, f) == if f in rest then Times(Listed(gs, f), x) else 0)
    && (forall x :: OnCycle(gs, x) ==> x in graph)
  }

  ghost predicate OutCounts(gs: seq<Group>, graph: Graph, gone: set<string>, from: seq<string>) {
    forall x :: x in graph ==> graph[x].outdegree == Present(Listed(gs, x), gone) + Times(from, x)
  }

  ghost predicate QueuedOut(graph: Graph, queue: seq<string>) {
    Distinct(queue) && forall x :: x in queue <==> x in graph && graph[x].outdegree == 0
  }

  /** The listers of a removed node lose one out-degree for each time they list it. */
  method TakeOffBack(ghost gs: seq<Group>, graph0: Graph, queue0: seq<string>, from: seq<string>, ghost gone: set<string>)
    returns (graph: Graph, queue: seq<string>)
    requires OutCounts(gs, graph0, gone, from) && QueuedOut(graph0, queue0) && queue0 != []
    requires forall f :: f in from ==> f in graph0
    ensures graph.Keys == graph0.Keys && OutCounts(gs, graph, gone, []) && QueuedOut(graph, queue)
    ensures |queue| >= |queue0| && queue[0] == queue0[0]
    ensures forall x :: x in graph ==> graph[x].from == graph0[x].from
  {
    hide Listed, Present;
    graph, queue := graph0, queue0;
    assert from[0..] == from;
    for j := 0 to |from|
      invariant graph.Keys == graph0.Keys && OutCounts(gs, graph, gone, from[j..]) && QueuedOut(graph, queue)
      invariant |queue| >= |queue0| && queue[0] == queue0[0]
      invariant forall x :: x in graph ==> graph[x].from == graph0[x].from
    {
      var f := from[j];
      ListStep(from, j);
      graph := graph[f := graph[f].(outdegree := graph[f].outdegree - 1)];
      if graph[f].outdegree == 0 {
        queue := queue + [f];
      }
    }
  }

  lemma OutSplit(gs: seq<Group>, graph: Graph, rest: set<string>, gone: set<string>, name: string)
    requires Stripping(gs, graph, rest, gone) && name in graph && OutCounts(gs, graph, gone, [])
    ensures OutCounts(gs, graph, gone + {name}, graph[name].from)
  {
    hide Listed, Present, OnCycle, Edge;
    forall x | x in graph
      ensures graph[x].outdegree == Present(Listed(gs, x), gone + {name}) + Times(graph[name].from, x)
    {
      RemovingName(Listed(gs, x), gone, name);
    }
  }

  lemma ListersRemain(gs: seq<Group>, graph: Graph, rest: set<string>, gone: set<string>, name: string)
    requires DistinctNames(gs) && Stripping(gs, graph, rest, gone) && name in graph
    ensures forall f :: f in graph[name].from ==> f in graph
  {
    hide Listed, OnCycle, Edge;
    forall f | f in graph[name].from ensures f in graph {
      assert Times(graph[name].from, f) > 0;
      ListedIsEdge(gs, f, name);
    }
  }

  lemma StripStep(gs: seq<Group>, graph: Graph, rest: set<string>, gone: set<string>, name: string)
    requires DistinctNames(gs) && Stripping(gs, graph, rest, gone) && name in graph
    requires Present(Listed(gs, name), gone) == 0
    ensures Stripping(gs, graph - {name}, rest, gone + {name})
  {
    hide Listed, Present, OnCycle, Edge, DistinctNames;
    forall y | Edge(gs, name, y) ensures y in gone {
      ListedIsEdge(gs, name, y);
      PresentMeans(Listed(gs, name), gone);
    }
    OffCycles(gs, name, gone);
  }

  lemma OffCycles(gs: seq<Group>, name: string, gone: set<string>)
    requires forall y :: Edge(gs, name, y) ==> y in gone
    requires forall x :: OnCycle(gs, x) ==> x !in gone
    ensures !OnCycle(gs, name)
  {
    hide OnCycle, Edge;
    if OnCycle(gs, name) {
      CyclesContinue(gs, name);
    }
  }

  lemma StrippingSame(gs: seq<Group>, a: Graph, b: Graph, rest: set<string>, gone: set<string>)
    requires Stripping(gs, a, rest, gone) && a.Keys == b.Keys && forall x :: x in a ==> b[x].from == a[x].from
    ensures Stripping(gs, b, rest, gone)
  {
    hide Listed, OnCycle, Edge;
  }

  lemma DequeuedOut(graph: Graph, queue: seq<string>)
    requires QueuedOut(graph, queue) && queue != []
    ensures queue[0] in graph && graph[queue[0]].outdegree == 0 && QueuedOut(graph - {queue[0]}, queue[1..])
  {
    var rest := queue[1..];
    forall x ensures x in rest <==> x in queue && x != queue[0] {
      if x in queue && x != queue[0] {
        var i :| 0 <= i < |queue| && queue[i] == x;
        assert rest[i - 1] == x;
      }
    }
  }

  /** Step 2.2: takes nodes of out-degree 0 out of the graph. */
  method Strip(ghost gs: seq<Group>, graph0: Graph, ghost rest: set<string>, ghost gone0: set<string>)
    returns (graph: Graph, ghost gone: set<string>)
    requires DistinctNames(gs) && Stripping(gs, graph0, rest, gone0) && OutCounts(gs, graph0, gone0, [])
    ensures Stripping(gs, graph, rest, gone) && OutCounts(gs, graph, gone, [])
    ensures forall x :: x in graph ==> graph[x].outdegree != 0
  {
    hide Listed, Present, OnCycle, Edge, DistinctNames, Stripping, OutCounts;
    graph, gone := graph0, gone0;
    var queue := NamesWithout(graph, true);
    while |queue| > 0
      invariant Stripping(gs, graph, rest, gone) && OutCounts(gs, graph, gone, []) && QueuedOut(graph, queue)
      decreases graph.Keys
    {
      var name := queue[0];
      DequeuedOut(graph, queue);
      var node := graph[name];
      OutZero(gs, graph, gone, name);
      StripStep(gs, graph, rest, gone, name);
      OutSplit(gs, graph, rest, gone, name);
      ListersRemain(gs, graph, rest, gone, name);
      ghost var before := graph;
      graph, queue := TakeOffBack(gs, graph, queue, node.from, gone + {name});
      DequeuedOut(graph, queue);
      StrippingSame(gs, before - {name}, graph - {name}, rest, gone + {name});
      OutShrinks(gs, graph, gone + {name}, name);
      graph, queue, gone := graph - {name}, queue[1..], gone + {name};
    }
  }

  lemma OutZero(gs: seq<Group>, graph: Graph, gone: set<string>, name: string)
    requires OutCounts(gs, graph, gone, []) && name in graph && graph[name].outdegree == 0
    ensures Present(Listed(gs, name), gone) == 0
  {
    hide Listed, Present;
  }

  lemma OutShrinks(gs: seq<Group>, graph: Graph, gone: set<string>, name: string)
    requires OutCounts(gs, graph, gone, [])
    ensures OutCounts(gs, graph - {name}, gone, [])
  {
    hide Listed, Present;
  }

  // ---------- The whole ----------

  /** Names every cycle goes through, each listing one of them and listed by one of them. */
  ghost predicate LocatesLoops(gs: seq<Group>, names: set<string>) {
    (forall x :: OnCycle(gs, x) ==> x in names)
    && (forall x :: x in names ==> HasPred(gs, names, x) && HasSucc(gs, names, x))
  }

  /** After the first peel every remaining node is listed by a remaining one. */
  lemma ResidueHasPreds(ms: seq<Mapping>, graph: Graph, gone: set<string>, r: seq<Mapping>)
    requires SortState(ms, graph, [], gone, r)
    ensures forall x :: x in graph ==> HasPred(Groups(ms), graph.Keys, x)
  {
    hide AllNames, InDegree, Declared, Emitted, OnCycle;
    var gs := Groups(ms);
    forall x | x in graph ensures HasPred(gs, graph.Keys, x) {
      assert x !in [] && graph[x].indegree != 0;
      ListedHasDegree(gs, gone, x);
      var y :| y !in gone && Edge(gs, y, x);
      EdgeIsNamed(gs, y, x);
    }
  }

  lemma EdgeIsNamed(gs: seq<Group>, u: string, v: string)
    requires Edge(gs, u, v)
    ensures u in AllNames(gs) && v in AllNames(gs)
  {
    var i :| 0 <= i < |gs| && gs[i].name == u && v in gs[i].proxies;
    MemberIsNamed(gs, i);
  }

  lemma ResidueIsClosed(ms: seq<Mapping>, graph: Graph, gone: set<string>, r: seq<Mapping>)
    requires SortState(ms, graph, [], gone, r)
    ensures forall x, y :: x in graph && Edge(Groups(ms), x, y) ==> y in graph
    ensures forall x :: OnCycle(Groups(ms), x) ==> x in graph
  {
    hide AllNames, InDegree, Declared, Emitted, OnCycle;
    var gs := Groups(ms);
    forall x, y | x in graph && Edge(gs, x, y) ensures y in graph {
      EdgeIsNamed(gs, x, y);
      ListedHasDegree(gs, gone, y);
    }
    forall x | OnCycle(gs, x) ensures x in graph {
      CyclesContinue(gs, x);
      var y :| Edge(gs, y, x) && OnCycle(gs, y);
      EdgeIsNamed(gs, y, x);
    }
  }

  lemma {:induction false} AllPresent(s: seq<string>)
    ensures Present(s, {}) == |s|
  {
    if s != [] {
      AllPresent(s[1..]);
    }
  }

  lemma UnlinkedIsLinked(gs: seq<Group>, graph: Graph)
    requires Unlinked(graph)
    ensures Linked(gs, graph, {}, "", 0)
  {
    hide Listed;
  }

  lemma StripStart(gs: seq<Group>, graph: Graph)
    requires Linked(gs, graph, graph.Keys, "", 0)
    requires forall x, y :: x in graph && Edge(gs, x, y) ==> y in graph
    requires forall x :: OnCycle(gs, x) ==> x in graph
    ensures Stripping(gs, graph, graph.Keys, {}) && OutCounts(gs, graph, {}, [])
  {
    hide Listed, OnCycle, Edge, Present;
    forall x | x in graph ensures Present(Listed(gs, x), {}) == |Listed(gs, x)| {
      AllPresent(Listed(gs, x));
    }
  }

  lemma StrippedLocates(gs: seq<Group>, graph: Graph, rest: set<string>, gone: set<string>)
    requires DistinctNames(gs) && Stripping(gs, graph, rest, gone) && OutCounts(gs, graph, gone, [])
    requires forall x :: x in graph ==> graph[x].outdegree != 0
    requires forall x :: x in rest ==> HasPred(gs, rest, x)
    ensures LocatesLoops(gs, graph.Keys)
  {
    hide HasPred, HasSucc, Stripping, OutCounts, OnCycle, Edge, DistinctNames;
    forall x | x in graph ensures HasPred(gs, graph.Keys, x) && HasSucc(gs, graph.Keys, x) {
      StrippedPred(gs, graph, rest, gone, x);
      StrippedSucc(gs, graph, rest, gone, x);
    }
    StrippedKeepsCycles(gs, graph, rest, gone);
  }

  lemma StrippedKeepsCycles(gs: seq<Group>, graph: Graph, rest: set<string>, gone: set<string>)
    requires Stripping(gs, graph, rest, gone)
    ensures forall x :: OnCycle(gs, x) ==> x in graph
  {
    hide OnCycle;
  }

  lemma StrippedPred(gs: seq<Group>, graph: Graph, rest: set<string>, gone: set<string>, x: string)
    requires Stripping(gs, graph, rest, gone) && x in graph && forall z :: z in rest ==> HasPred(gs, rest, z)
    ensures HasPred(gs, graph.Keys, x)
  {
    hide Listed, OnCycle, Edge;
    assert HasPred(gs, rest, x);
    var y :| y in rest && Edge(gs, y, x);
    assert y in graph.Keys;
  }

  lemma StrippedSucc(gs: seq<Group>, graph: Graph, rest: set<string>, gone: set<string>, x: string)
    requires DistinctNames(gs) && Stripping(gs, graph, rest, gone) && OutCounts(gs, graph, gone, [])
    requires x in graph && graph[x].outdegree != 0
    ensures HasSucc(gs, graph.Keys, x)
  {
    hide Listed, OnCycle, Edge, Present, DistinctNames;
    PresentMeans(Listed(gs, x), gone);
    var i :| 0 <= i < |Listed(gs, x)| && Listed(gs, x)[i] !in gone;
    ListedIsEdge(gs, x, Listed(gs, x)[i]);
    assert Listed(gs, x)[i] in graph.Keys;
  }

  /** Steps 2.1 to 2.3: what is left of the graph is reduced to its loops and their names reported. */
  method Locate(ghost ms: seq<Mapping>, graph0: Graph, ghost gone0: set<string>, ghost r: seq<Mapping>) returns (names: seq<string>)
    requires AllDecoded(ms) && SortState(ms, graph0, [], gone0, r) && graph0 != map[]
    ensures Distinct(names) && names != [] && !Acyclic(Groups(ms))
    ensures LocatesLoops(Groups(ms), set x | x in names)
  {
    hide SortState, Linked, Stripping, OutCounts, Edge, OnCycle, Listed, LocatesLoops, KnowsLists, Acyclic, HasPred;
    ghost var gs := Groups(ms);
    ResidueIsReady(ms, graph0, gone0, r);
    NonEmpty(graph0);
    ClosedBackwardsHasCycle(gs, graph0.Keys);
    var graph := LinkBack(gs, graph0);
    StripStart(gs, graph);
    ghost var gone;
    graph, gone := Strip(gs, graph, graph0.Keys, {});
    StrippedLocates(gs, graph, graph0.Keys, gone);
    SurvivorsKeepCycles(gs, graph.Keys);
    names := Report(graph);
    assert (set x | x in names) == graph.Keys;
    ghost var x :| OnCycle(gs, x);
    assert x in names;
  }

  lemma ResidueIsReady(ms: seq<Mapping>, graph: Graph, gone: set<string>, r: seq<Mapping>)
    requires AllDecoded(ms) && SortState(ms, graph, [], gone, r)
    ensures DistinctNames(Groups(ms)) && KnowsLists(Groups(ms), graph) && Linked(Groups(ms), graph, {}, "", 0)
    ensures forall x, y :: x in graph && y in Listed(Groups(ms), x) ==> y in graph
    ensures forall x, y :: x in graph && Edge(Groups(ms), x, y) ==> y in graph
    ensures forall x :: OnCycle(Groups(ms), x) ==> x in graph
    ensures forall x :: x in graph ==> HasPred(Groups(ms), graph.Keys, x)
  {
    hide Declared, Linked, DistinctNames, Emitted, Peeling, Counts, QueuedIn, Edge, OnCycle, Listed, KnowsLists, HasPred;
    ResidueHasPreds(ms, graph, gone, r);
    ResidueIsClosed(ms, graph, gone, r);
    DeclaredKnows(ms, graph);
    UnlinkedIsLinked(Groups(ms), graph);
    forall x, y | x in graph && y in Listed(Groups(ms), x) ensures y in graph {
      ListedIsEdge(Groups(ms), x, y);
    }
  }

  lemma NonEmpty(graph: Graph)
    ensures graph.Keys == {} ==> graph == map[]
  {
    if graph.Keys == {} {
      assert graph == map[];
    }
  }

  lemma SurvivorsKeepCycles(gs: seq<Group>, names: set<string>)
    requires LocatesLoops(gs, names)
    ensures forall x :: OnCycle(gs, x) ==> x in names
  {
    hide OnCycle;
  }

  method Report(graph: Graph) returns (names: seq<string>)
    ensures Distinct(names) && forall x :: x in names <==> x in graph
  {
    names := [];
    var left := graph.Keys;
    while left != {}
      invariant left <= graph.Keys && Distinct(names)
      invariant forall x :: x in names <==> x in graph && x !in left
      decreases left
    {
      var name :| name in left;
      left := left - {name};
      names := names + [name];
    }
  }

  /** Sorts the groups by dependency in place, or says why it cannot. Without decoding errors and with
      distinct names it succeeds exactly on acyclic groups; then the slice is a permutation in which
      every group comes after the groups it lists. Otherwise the names reported are those of a part
      of the graph that contains every loop and in which every name has a lister and a listed one. */
  method ProxyGroupsDagSort(config: array<Mapping>) returns (r: Result)
    modifies config
    ensures r.Sorted? || r.Loop? ==> AllDecoded(old(config[..])) && DistinctNames(Groups(old(config[..])))
    ensures r.Sorted? ==>
              Acyclic(Groups(old(config[..])))
              && multiset(config[..]) == multiset(old(config[..])) && AllDecoded(config[..]) && Ordered(Groups(config[..]))
    ensures r.Loop? ==>
              !Acyclic(Groups(old(config[..]))) && Distinct(r.names) && r.names != []
              && LocatesLoops(Groups(old(config[..])), set x | x in r.names)
    ensures r.DecodeError? || r.Duplicate? ==> config[..] == old(config[..])
    ensures r.DecodeError? ==> !AllDecoded(config[..])
    ensures r.Duplicate? ==> AllDecoded(config[..]) ==> !DistinctNames(Groups(config[..]))
  {
    hide Degrees, Declared, SortState, Acyclic, LocatesLoops;
    ghost var ms := config[..];
    var graph;
    r, graph := BuildGraph(config);
    if r.Duplicate? {
      ghost var i, j :| 0 <= i < j < config.Length && config[i].Decoded? && config[j].Decoded?
                        && config[i].group.name == config[j].group.name == r.name;
      assert AllDecoded(ms) ==> Groups(ms)[i].name == Groups(ms)[j].name;
    }
    if !r.Sorted? { return; }
    ghost var gone;
    graph, gone := Sort(config, graph);
    ghost var queue, emitted :| SortState(ms, graph, queue, gone, emitted) && queue == [];
    if graph == map[] {
      PermutedOrder(ms, config[..]);
      return Sorted;
    }
    var names := Locate(ms, graph, gone, emitted);
    r := Loop(names);
  }

  /** An order of the permuted groups shows that the given ones have no cycle. */
  lemma PermutedOrder(ms: seq<Mapping>, r: seq<Mapping>)
    requires AllDecoded(ms) && AllDecoded(r) && multiset(ms) == multiset(r) && DistinctNames(Groups(ms)) && Ordered(Groups(r))
    ensures Acyclic(Groups(ms))
  {
    hide Ordered;
    var gs, hs := Groups(ms), Groups(r);
    PermutedNames(ms, r);
    OrderedIsAcyclic(hs);
    forall p ensures !Cycle(gs, p) {
      if Cycle(gs, p) {
        CycleMoves(ms, r, p);
      }
    }
  }

  lemma PermutedNames(ms: seq<Mapping>, r: seq<Mapping>)
    requires AllDecoded(ms) && AllDecoded(r) && multiset(ms) == multiset(r) && DistinctNames(Groups(ms))
    ensures DistinctNames(Groups(r))
  {
    forall i, j | 0 <= i < j < |r| ensures Groups(r)[i].name != Groups(r)[j].name {
      TwoOf(ms, r, i, j);
    }
  }

  lemma CycleMoves(ms: seq<Mapping>, r: seq<Mapping>, p: seq<string>)
    requires AllDecoded(ms) && AllDecoded(r) && multiset(ms) == multiset(r) && Cycle(Groups(ms), p)
    ensures Cycle(Groups(r), p)
  {
    hide Edge;
    forall i | 0 <= i < |p| - 1 ensures Edge(Groups(r), p[i], p[i + 1]) {
      EdgeMoves(ms, r, p[i], p[i + 1]);
    }
  }

  lemma EdgeMoves(ms: seq<Mapping>, r: seq<Mapping>, u: string, v: string)
    requires AllDecoded(ms) && AllDecoded(r) && multiset(ms) == multiset(r) && Edge(Groups(ms), u, v)
    ensures Edge(Groups(r), u, v)
  {
    var i :| 0 <= i < |ms| && Groups(ms)[i].name == u && v in Groups(ms)[i].proxies;
    assert ms[i] in multiset(r);
    var j :| 0 <= j < |r| && r[j] == ms[i];
    assert Groups(r)[j].name == u && v in Groups(r)[j].proxies;
  }

  /** Two places of a permutation hold entries with different names. */
  lemma TwoOf(ms: seq<Mapping>, r: seq<Mapping>, i: nat, j: nat)
    requires AllDecoded(ms) && AllDecoded(r) && multiset(ms) == multiset(r) && DistinctNames(Groups(ms)) && i < j < |r|
    ensures r[i].group.name != r[j].group.name
  {
    assert r[i] in multiset(ms) && r[j] in multiset(ms);
    if r[i].group.name == r[j].group.name {
      SameName(ms, r[i], r[j]);
      Twice(r, i, j);
      OnlyOnce(ms, r[i]);
    }
  }

  lemma Twice<T>(s: seq<T>, i: nat, j: nat)
    requires i < j < |s| && s[i] == s[j]
    ensures multiset(s)[s[i]] >= 2
  {
    TakeOut(s, i);
    assert (s[..i] + s[i + 1..])[j - 1] == s[i];
  }

  lemma {:induction false} OnlyOnce(ms: seq<Mapping>, m: Mapping)
    requires AllDecoded(ms) && DistinctNames(Groups(ms))
    ensures multiset(ms)[m] <= 1
  {
    if ms != [] {
      assert Groups(ms[1..]) == Groups(ms)[1..];
      OnlyOnce(ms[1..], m);
      assert ms == [ms[0]] + ms[1..];
      if m == ms[0] {
        forall i | 0 <= i < |ms[1..]| ensures ms[1..][i] != m {
          assert Groups(ms)[0].name != Groups(ms)[i + 1].name;
        }
        assert m !in multiset(ms[1..]);
      }
    }
  }
}
