/** config/utils.go: proxy groups that list one another, as a directed graph. */
module DagSpec {
  /** A decoded group: its name and the members it lists, which may be groups or plain proxies. */
  datatype Group = Group(name: string, proxies: seq<string>)

  /** A config entry: the decoder makes a group of it or fails. */
  datatype Mapping = Undecodable(id: nat) | Decoded(id: nat, group: Group)

  ghost predicate AllDecoded(ms: seq<Mapping>) {
    forall i :: 0 <= i < |ms| ==> ms[i].Decoded?
  }

  ghost predicate DistinctNames(gs: seq<Group>) {
    forall i, j :: 0 <= i < j < |gs| ==> gs[i].name != gs[j].name
  }

  function Groups(ms: seq<Mapping>): (gs: seq<Group>)
    requires AllDecoded(ms)
    ensures |gs| == |ms|
  {
    seq(|ms|, i requires 0 <= i < |ms| => ms[i].group)
  }

  /** `u` is a group that lists `v`. */
  ghost predicate Edge(gs: seq<Group>, u: string, v: string) {
    exists i :: 0 <= i < |gs| && gs[i].name == u && v in gs[i].proxies
  }

  ghost predicate Path(gs: seq<Group>, p: seq<string>) {
    |p| > 0 && forall i :: 0 <= i < |p| - 1 ==> Edge(gs, p[i], p[i + 1])
  }

  ghost predicate Cycle(gs: seq<Group>, p: seq<string>) {
    Path(gs, p) && |p| > 1 && p[0] == p[|p| - 1]
  }

  ghost predicate Acyclic(gs: seq<Group>) { forall p :: !Cycle(gs, p) }

  ghost predicate OnCycle(gs: seq<Group>, x: string) { exists p :: Cycle(gs, p) && p[0] == x }

  /** Every listed group comes strictly before the group that lists it. */
  ghost predicate Ordered(gs: seq<Group>) {
    forall i, k :: 0 <= i < |gs| && 0 <= k < |gs| && gs[k].name in gs[i].proxies ==> k < i
  }

  // ---------- Cycles ----------

  lemma CyclesContinue(gs: seq<Group>, x: string)
    requires OnCycle(gs, x)
    ensures exists y :: Edge(gs, y, x) && OnCycle(gs, y)
    ensures exists y :: Edge(gs, x, y) && OnCycle(gs, y)
  {
    var p :| Cycle(gs, p) && p[0] == x;
    var y, z := p[|p| - 2], p[1];
    var back, on := [y] + p[..|p| - 1], p[1..] + [z];
    assert Edge(gs, p[|p| - 2], p[|p| - 1]) && Edge(gs, p[0], p[1]);
    forall i | 0 <= i < |back| - 1 ensures Edge(gs, back[i], back[i + 1]) {
      assert i > 0 ==> Edge(gs, p[i - 1], p[i]);
    }
    forall i | 0 <= i < |on| - 1 ensures Edge(gs, on[i], on[i + 1]) {
      assert i < |on| - 2 ==> Edge(gs, p[i + 1], p[i + 2]);
    }
    assert Cycle(gs, back) && back[0] == y;
    assert Cycle(gs, on) && on[0] == z;
  }

  lemma {:induction false} PathGoesBack(gs: seq<Group>, p: seq<string>, pos: map<string, int>)
    requires Path(gs, p)
    requires forall u, v :: Edge(gs, u, v) ==> u in pos && (v in pos ==> pos[v] < pos[u])
    requires p[|p| - 1] in pos
    ensures p[0] in pos && pos[p[|p| - 1]] <= pos[p[0]] - (|p| - 1)
  {
    if |p| > 1 {
      assert Edge(gs, p[0], p[1]);
      forall i | 0 <= i < |p[1..]| - 1 ensures Edge(gs, p[1..][i], p[1..][i + 1]) {
        assert Edge(gs, p[i + 1], p[i + 2]);
      }
      PathGoesBack(gs, p[1..], pos);
    }
  }

  lemma OrderedIsAcyclic(gs: seq<Group>)
    requires DistinctNames(gs) && Ordered(gs)
    ensures Acyclic(gs)
  {
    var pos := map x | x in (set i | 0 <= i < |gs| :: gs[i].name) :: Position(gs, x);
    forall u, v | Edge(gs, u, v) ensures u in pos && (v in pos ==> pos[v] < pos[u]) {
      var i :| 0 <= i < |gs| && gs[i].name == u && v in gs[i].proxies;
    }
    forall p ensures !Cycle(gs, p) {
      if Cycle(gs, p) {
        assert Edge(gs, p[0], p[1]);
        PathGoesBack(gs, p, pos);
      }
    }
  }

  ghost function Position(gs: seq<Group>, x: string): (k: int)
    requires exists i :: 0 <= i < |gs| && gs[i].name == x
    ensures 0 <= k < |gs| && gs[k].name == x
  {
    var i :| 0 <= i < |gs| && gs[i].name == x; i
  }

  /** `x` is listed by a member of `nodes`. */
  ghost predicate HasPred(gs: seq<Group>, nodes: set<string>, x: string) {
    exists y :: y in nodes && Edge(gs, y, x)
  }

  /** `x` lists a member of `nodes`. */
  ghost predicate HasSucc(gs: seq<Group>, nodes: set<string>, x: string) {
    exists y :: y in nodes && Edge(gs, x, y)
  }

  lemma PickPred(gs: seq<Group>, nodes: set<string>, x: string) returns (y: string)
    requires HasPred(gs, nodes, x)
    ensures y in nodes && Edge(gs, y, x)
  {
    y :| y in nodes && Edge(gs, y, x);
  }

  lemma Extend(gs: seq<Group>, y: string, q: seq<string>)
    requires Path(gs, q) && Edge(gs, y, q[0])
    ensures Path(gs, [y] + q)
  {
    hide Edge;
    var p := [y] + q;
    forall i | 0 <= i < |p| - 1 ensures Edge(gs, p[i], p[i + 1]) {
      assert i > 0 ==> Edge(gs, q[i - 1], q[i]);
    }
  }

  /** Where every node has a predecessor inside a finite set, a path can be extended backwards. */
  lemma {:induction false} BackwardPath(gs: seq<Group>, nodes: set<string>, n: nat) returns (p: seq<string>)
    requires nodes != {} && forall x :: x in nodes ==> HasPred(gs, nodes, x)
    ensures |p| == n + 1 && Path(gs, p) && forall i :: 0 <= i < |p| ==> p[i] in nodes
  {
    hide HasPred, Edge;
    if n == 0 {
      var x :| x in nodes;
      p := [x];
    } else {
      var q := BackwardPath(gs, nodes, n - 1);
      var y := PickPred(gs, nodes, q[0]);
      Extend(gs, y, q);
      p := [y] + q;
    }
  }

  lemma {:induction false} Pigeonhole(s: seq<string>, nodes: set<string>)
    requires |s| > |nodes| && forall i :: 0 <= i < |s| ==> s[i] in nodes
    ensures exists i, j :: 0 <= i < j < |s| && s[i] == s[j]
    decreases |s|
  {
    if j :| 1 <= j < |s| && s[j] == s[0] {
      assert 0 <= 0 < j < |s| && s[0] == s[j];
    } else {
      var rest := s[1..];
      forall i | 0 <= i < |rest| ensures rest[i] in nodes - {s[0]} {
        assert rest[i] == s[i + 1];
      }
      Pigeonhole(rest, nodes - {s[0]});
      var i, j :| 0 <= i < j < |rest| && rest[i] == rest[j];
      assert s[i + 1] == s[j + 1];
    }
  }

  lemma ClosedBackwardsHasCycle(gs: seq<Group>, nodes: set<string>)
    requires nodes != {} && forall x :: x in nodes ==> HasPred(gs, nodes, x)
    ensures !Acyclic(gs) && exists x :: x in nodes && OnCycle(gs, x)
  {
    hide HasPred, Edge;
    var p := BackwardPath(gs, nodes, |nodes|);
    Pigeonhole(p, nodes);
    var i, j :| 0 <= i < j < |p| && p[i] == p[j];
    var c := p[i..j + 1];
    forall k | 0 <= k < |c| - 1 ensures Edge(gs, c[k], c[k + 1]) {
      assert Edge(gs, p[i + k], p[i + k + 1]);
    }
    assert Cycle(gs, c) && c[0] in nodes;
  }

  // ---------- Degrees ----------

  function Times(s: seq<string>, x: string): nat { multiset(s)[x] }

  /** How often the groups that are not `gone` list `x`. */
  function InDegree(gs: seq<Group>, gone: set<string>, x: string): nat {
    if gs == [] then 0
    else (if gs[0].name in gone then 0 else Times(gs[0].proxies, x)) + InDegree(gs[1..], gone, x)
  }

  lemma {:induction false} ListedHasDegree(gs: seq<Group>, gone: set<string>, x: string)
    ensures InDegree(gs, gone, x) > 0 <==> exists y :: y !in gone && Edge(gs, y, x)
  {
    if gs != [] {
      ListedHasDegree(gs[1..], gone, x);
      forall y ensures Edge(gs, y, x) <==> (gs[0].name == y && x in gs[0].proxies) || Edge(gs[1..], y, x) {
        EdgeUnfolds(gs, y, x);
      }
      if gs[0].name !in gone && x in gs[0].proxies {
        assert Edge(gs, gs[0].name, x);
      }
    }
  }

  lemma EdgeUnfolds(gs: seq<Group>, u: string, v: string)
    requires gs != []
    ensures Edge(gs, u, v) <==> (gs[0].name == u && v in gs[0].proxies) || Edge(gs[1..], u, v)
  {
    if Edge(gs[1..], u, v) {
      var i :| 0 <= i < |gs[1..]| && gs[1..][i].name == u && v in gs[1..][i].proxies;
      assert gs[i + 1].name == u && v in gs[i + 1].proxies;
    }
    if Edge(gs, u, v) && !(gs[0].name == u && v in gs[0].proxies) {
      var i :| 0 <= i < |gs| && gs[i].name == u && v in gs[i].proxies;
      assert gs[1..][i - 1].name == u && v in gs[1..][i - 1].proxies;
    }
  }

  lemma {:induction false} Forgetting(gs: seq<Group>, gone: set<string>, x: string, name: string)
    requires forall i :: 0 <= i < |gs| ==> gs[i].name != name
    ensures InDegree(gs, gone + {name}, x) == InDegree(gs, gone, x)
  {
    if gs != [] {
      Forgetting(gs[1..], gone, x, name);
    }
  }

  /** Removing a group takes away exactly what it lists. */
  lemma {:induction false} RemovingGroup(gs: seq<Group>, gone: set<string>, k: nat, x: string)
    requires DistinctNames(gs) && k < |gs| && gs[k].name !in gone
    ensures InDegree(gs, gone, x) == InDegree(gs, gone + {gs[k].name}, x) + Times(gs[k].proxies, x)
    decreases k
  {
    if k == 0 {
      Forgetting(gs[1..], gone, x, gs[0].name);
    } else {
      RemovingGroup(gs[1..], gone, k - 1, x);
    }
  }

  lemma {:induction false} InDegreeConcat(a: seq<Group>, b: seq<Group>, gone: set<string>, x: string)
    ensures InDegree(a + b, gone, x) == InDegree(a, gone, x) + InDegree(b, gone, x)
  {
    if a == [] {
      assert a + b == b;
    } else {
      InDegreeConcat(a[1..], b, gone, x);
      assert (a + b)[1..] == a[1..] + b;
    }
  }

  /** How many of these names are not `gone`. */
  function Present(s: seq<string>, gone: set<string>): nat {
    if s == [] then 0 else (if s[0] in gone then 0 else 1) + Present(s[1..], gone)
  }

  lemma {:induction false} PresentMeans(s: seq<string>, gone: set<string>)
    ensures Present(s, gone) > 0 <==> exists i :: 0 <= i < |s| && s[i] !in gone
  {
    if s != [] {
      PresentMeans(s[1..], gone);
      if Present(s[1..], gone) > 0 {
        var i :| 0 <= i < |s[1..]| && s[1..][i] !in gone;
        assert s[i + 1] !in gone;
      }
      if i :| 1 <= i < |s| && s[i] !in gone {
        assert s[1..][i - 1] !in gone;
      }
    }
  }

  lemma {:induction false} RemovingName(s: seq<string>, gone: set<string>, x: string)
    requires x !in gone
    ensures Present(s, gone) == Present(s, gone + {x}) + Times(s, x)
  {
    if s != [] {
      RemovingName(s[1..], gone, x);
      assert s == [s[0]] + s[1..];
    }
  }
}
