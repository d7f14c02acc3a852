/** config/config.go, adapter/outboundgroup/parser.go and relay.go: groups are built in sorted order,
    each from proxies that exist already, and a relay follows selections down to plain proxies. */
module GroupBuild {
  import opened Options
  import opened DagSpec
  import DagSort

  /** A constructed proxy. A group refers to the proxies it was built from and to the parsed providers
      it uses. */
  class Proxy {
    const name: string
    const selects: bool // every kind of group but a relay unwraps to one of its proxies
    const members: seq<Proxy>
    const use: seq<string>

    constructor (name: string, selects: bool, members: seq<Proxy>, use: seq<string>)
      ensures this.name == name && this.selects == selects && this.members == members && this.use == use
    {
      this.name, this.selects, this.members, this.use := name, selects, members, use;
    }
  }

  /** The options of a group besides its name and proxies; `checked` says that a url and an interval
      are given, `strategyKnown` that the load-balancing strategy is one of the two. */
  datatype Details = Details(kind: string, use: seq<string>, checked: bool, strategyKnown: bool)

  type Detailing = string -> Details

  predicate KnownKind(kind: string) {
    kind == "url-test" || kind == "select" || kind == "fallback" || kind == "load-balance" || kind == "relay"
  }

  predicate Unchecked(kind: string) { kind == "select" || kind == "relay" }

  datatype Result =
    | Built(proxies: map<string, Proxy>)
    | NotSorted(reason: DagSort.Result)
    | Failed(why: Failure, name: string)

  datatype Failure =
    | FormatError | MissingProxies | NotFound | DuplicateProvider | MissingHealthCheck | NoSuchProvider | NotForUse
    | UnknownKind | UnknownStrategy | NameTaken

  // ---------- Construction ----------

  /** getProxies: every listed name is looked up, and the first unknown one is an error. */
  method GetProxies(mapping: map<string, Proxy>, list: seq<string>) returns (r: Option<seq<Proxy>>, missing: string)
    ensures r.Some? <==> forall i :: 0 <= i < |list| ==> list[i] in mapping
    ensures r.Some? ==> |r.value| == |list| && forall i :: 0 <= i < |list| ==> r.value[i] == mapping[list[i]]
    ensures r.None? ==>
              exists i :: 0 <= i < |list| && list[i] == missing && missing !in mapping && forall j :: 0 <= j < i ==> list[j] in mapping
  {
    var ps := [];
    for i := 0 to |list|
      invariant |ps| == i && forall j :: 0 <= j < i ==> list[j] in mapping && ps[j] == mapping[list[j]]
    {
      if list[i] !in mapping { return None, list[i]; }
      ps := ps + [mapping[list[i]]];
    }
    return Some(ps), "";
  }

  /** getProviders: the first name that is unknown, or that of a provider made for a group, is an error. */
  method GetProviders(compatible: map<string, bool>, list: seq<string>) returns (why: Option<Failure>)
    ensures why == None <==> forall i :: 0 <= i < |list| ==> list[i] in compatible && !compatible[list[i]]
    ensures why == Some(NoSuchProvider) <==> FirstUnusable(list, compatible, false)
    ensures why == Some(NotForUse) <==> FirstUnusable(list, compatible, true)
    ensures why.Some? ==> why == Some(NoSuchProvider) || why == Some(NotForUse)
  {
    for i := 0 to |list|
      invariant forall j :: 0 <= j < i ==> list[j] in compatible && !compatible[list[j]]
    {
      if list[i] !in compatible { return Some(NoSuchProvider); }
      if compatible[list[i]] { return Some(NotForUse); }
    }
    why := None;
  }

  /** What each failure complains of. */
  ghost predicate Wrong(why: Failure, g: Group, d: Details, known: set<string>, compatible: map<string, bool>) {
    match why
    case FormatError => d.kind == "" || g.name == ""
    case MissingProxies => g.proxies == [] && d.use == []
    case NotFound => exists i :: 0 <= i < |g.proxies| && g.proxies[i] !in known
    case DuplicateProvider => g.proxies != [] && d.use == [] && g.name in compatible
    case MissingHealthCheck => g.proxies != [] && d.use == [] && d.kind != "select" && d.kind != "relay" && !d.checked
    case NoSuchProvider => FirstUnusable(d.use, compatible, false)
    case NotForUse => FirstUnusable(d.use, compatible, true)
    case UnknownKind => !KnownKind(d.kind)
    case UnknownStrategy => d.kind == "load-balance" && !d.strategyKnown
    case NameTaken => g.name in known
  }

  /** The first provider that cannot be used exists, made for a group, or does not exist. */
  ghost predicate FirstUnusable(use: seq<string>, compatible: map<string, bool>, made: bool) {
    exists i :: 0 <= i < |use| && (forall j :: 0 <= j < i ==> use[j] in compatible && !compatible[use[j]])
      && if made then use[i] in compatible && compatible[use[i]] else use[i] !in compatible
  }

  /** The order in which the source looks for failures; the two about providers exclude each other. */
  function Turn(why: Failure): nat {
    match why
    case FormatError => 0
    case MissingProxies => 1
    case NotFound => 2
    case DuplicateProvider => 3
    case MissingHealthCheck => 4
    case NoSuchProvider => 5
    case NotForUse => 5
    case UnknownKind => 6
    case UnknownStrategy => 7
    case NameTaken => 8
  }

  /** What a group needs of its own options and of the providers parsed beforehand. */
  predicate Acceptable(g: Group, d: Details, parsed: set<string>) {
    g.name != "" && KnownKind(d.kind) && (g.proxies != [] || d.use != [])
    && (g.proxies != [] && d.use == [] ==> g.name !in parsed && (Unchecked(d.kind) || d.checked))
    && (forall i :: 0 <= i < |d.use| ==> d.use[i] in parsed)
    && (d.kind == "load-balance" ==> d.strategyKnown)
  }

  /** The names known when the groups before the `n`-th have been built. */
  ghost function KnownBefore(known: set<string>, gs: seq<Group>, n: nat): set<string>
    requires n <= |gs|
  {
    known + set i | 0 <= i < n :: gs[i].name
  }

  ghost predicate BuildableAt(known: set<string>, parsed: set<string>, gs: seq<Group>, details: Detailing, n: nat)
    requires n < |gs|
  {
    Acceptable(gs[n], details(gs[n].name), parsed) && gs[n].name !in KnownBefore(known, gs, n)
    && forall m :: m in gs[n].proxies ==> m in KnownBefore(known, gs, n)
  }

  /** The providers known by then: those parsed, and one made for each group built from proxies alone. */
  ghost function Providers(parsed: map<string, bool>, gs: seq<Group>, details: Detailing, n: nat): map<string, bool>
    requires n <= |gs|
  {
    if n == 0 then parsed
    else if gs[n - 1].proxies != [] && details(gs[n - 1].name).use == [] then
      Providers(parsed, gs, details, n - 1)[gs[n - 1].name := true]
    else Providers(parsed, gs, details, n - 1)
  }

  /** The object built for a group refers to the objects its members name. */
  ghost predicate BuiltFrom(proxies: map<string, Proxy>, g: Group, details: Detailing) {
    g.name in proxies
    && var p := proxies[g.name];
       p.name == g.name && p.selects == (details(g.name).kind != "relay") && p.use == details(g.name).use
       && |p.members| == |g.proxies|
       && forall i :: 0 <= i < |g.proxies| ==> g.proxies[i] in proxies && p.members[i] == proxies[g.proxies[i]]
  }

  /** The providers a group may find: those parsed, and one for each group built so far from proxies
      alone. */
  ghost predicate ProvidersOf(compatible: map<string, bool>, parsed: set<string>, built: set<string>) {
    (forall x :: x in parsed ==> x in compatible && !compatible[x])
    && (forall x :: x in compatible && x !in parsed ==> compatible[x] && x in built)
  }

  /** ParseProxyGroup: the object for one group, or the first thing wrong with it. */
  method ParseProxyGroup(g: Group, d: Details, proxies: map<string, Proxy>, compatible: map<string, bool>, ghost parsed: set<string>)
    returns (p: Option<Proxy>, why: Failure, after: map<string, bool>)
    requires ProvidersOf(compatible, parsed, proxies.Keys)
    ensures p.Some? && g.name !in proxies <==>
              Acceptable(g, d, parsed) && g.name !in proxies && forall i :: 0 <= i < |g.proxies| ==> g.proxies[i] in proxies
    ensures p.Some? ==>
              p.value.name == g.name && p.value.selects == (d.kind != "relay") && p.value.use == d.use && |p.value.members| == |g.proxies|
              && (forall i :: 0 <= i < |g.proxies| ==> g.proxies[i] in proxies && p.value.members[i] == proxies[g.proxies[i]])
              && ProvidersOf(after, parsed, proxies.Keys + {g.name})
    ensures p.None? ==> Turn(why) < 8 && Wrong(why, g, d, proxies.Keys, compatible)
    ensures forall f: Failure :: Turn(f) < (if p.Some? then 8 else Turn(why)) ==> !Wrong(f, g, d, proxies.Keys, compatible)
    ensures p.Some? ==> after == if g.proxies != [] && d.use == [] then compatible[g.name := true] else compatible
  {
    after := compatible;
    p, why := None, FormatError;
    if d.kind == "" || g.name == "" { return; }
    if |g.proxies| == 0 && |d.use| == 0 { why := MissingProxies; return; }
    var members: seq<Proxy> := [];
    if |g.proxies| != 0 {
      var ps, missing := GetProxies(proxies, g.proxies);
      if ps.None? { why := NotFound; return; }
      members := ps.value;
      if |d.use| == 0 {
        if g.name in compatible { why := DuplicateProvider; return; }
        if !Unchecked(d.kind) && !d.checked { why := MissingHealthCheck; return; }
        after := compatible[g.name := true];
      }
    }
    if |d.use| != 0 {
      var wrong := GetProviders(after, d.use);
      if wrong.Some? { why := wrong.value; return; }
    }
    if !KnownKind(d.kind) { why := UnknownKind; return; }
    if d.kind == "load-balance" && !d.strategyKnown { why := UnknownStrategy; return; }
    var made := new Proxy(g.name, d.kind != "relay", members, d.use);
    p := Some(made);
  }

  /** The group loop of parseProxies: it succeeds exactly when every group, at its turn, is acceptable,
      has a name not taken, and lists only names that are known by then. */
  method ParseGroups(gs: seq<Group>, proxies0: map<string, Proxy>, parsed: map<string, bool>, details: Detailing)
    returns (r: Result)
    requires forall x :: x in parsed ==> !parsed[x]
    ensures r.Built? || r.Failed?
    ensures r.Built? <==> forall n :: 0 <= n < |gs| ==> BuildableAt(proxies0.Keys, parsed.Keys, gs, details, n)
    ensures r.Failed? ==>
              exists n :: 0 <= n < |gs| && r.name == gs[n].name && !BuildableAt(proxies0.Keys, parsed.Keys, gs, details, n)
                && (forall i :: 0 <= i < n ==> BuildableAt(proxies0.Keys, parsed.Keys, gs, details, i))
                && Wrong(r.why, gs[n], details(gs[n].name), KnownBefore(proxies0.Keys, gs, n), Providers(parsed, gs, details, n))
    ensures r.Built? ==>
              r.proxies.Keys == KnownBefore(proxies0.Keys, gs, |gs|)
              && proxies0.Keys <= r.proxies.Keys && (forall x :: x in proxies0 ==> r.proxies[x] == proxies0[x])
              && forall n :: 0 <= n < |gs| ==> BuiltFrom(r.proxies, gs[n], details)
  {
    hide BuiltFrom, BuildableAt, KnownBefore, Acceptable, ProvidersOf, Wrong;
    var proxies, compatible := proxies0, parsed;
    NothingBuilt(proxies0.Keys, gs);
    ProvidersAtFirst(parsed, proxies0.Keys);
    for n := 0 to |gs|
      invariant proxies.Keys == KnownBefore(proxies0.Keys, gs, n)
      invariant proxies0.Keys <= proxies.Keys && forall x :: x in proxies0 ==> proxies[x] == proxies0[x]
      invariant ProvidersOf(compatible, parsed.Keys, proxies.Keys) && compatible == Providers(parsed, gs, details, n)
      invariant forall i :: 0 <= i < n ==> BuildableAt(proxies0.Keys, parsed.Keys, gs, details, i) && BuiltFrom(proxies, gs[i], details)
    {
      var g := gs[n];
      BuildableMeans(proxies0.Keys, parsed.Keys, gs, details, n);
      var p, why, after := ParseProxyGroup(g, details(g.name), proxies, compatible, parsed.Keys);
      assert (forall m :: m in g.proxies ==> m in proxies) <==> forall i :: 0 <= i < |g.proxies| ==> g.proxies[i] in proxies;
      if p.None? { return Failed(why, g.name); }
      if g.name in proxies {
        TakenIsWrong(g, details(g.name), proxies.Keys, compatible);
        return Failed(NameTaken, g.name);
      }
      ghost var before := proxies;
      proxies, compatible := proxies[g.name := p.value], after;
      forall i | 0 <= i < n ensures BuiltFrom(proxies, gs[i], details) {
        StillBuilt(before, proxies, gs[i], details);
      }
      NewlyBuilt(before, proxies, g, details, p.value);
      KnownGrows(proxies0.Keys, gs, n);
      assert proxies.Keys == before.Keys + {g.name};
    }
    r := Built(proxies);
  }

  lemma TakenIsWrong(g: Group, d: Details, known: set<string>, compatible: map<string, bool>)
    requires g.name in known
    ensures Wrong(NameTaken, g, d, known, compatible)
  {
  }

  lemma ProvidersAtFirst(parsed: map<string, bool>, built: set<string>)
    requires forall x :: x in parsed ==> !parsed[x]
    ensures ProvidersOf(parsed, parsed.Keys, built)
  {
  }

  lemma StillBuilt(a: map<string, Proxy>, b: map<string, Proxy>, g: Group, details: Detailing)
    requires BuiltFrom(a, g, details) && a.Keys <= b.Keys && forall x :: x in a ==> b[x] == a[x]
    ensures BuiltFrom(b, g, details)
  {
  }

  lemma NewlyBuilt(a: map<string, Proxy>, b: map<string, Proxy>, g: Group, details: Detailing, p: Proxy)
    requires p.name == g.name && p.selects == (details(g.name).kind != "relay") && p.use == details(g.name).use
    requires |p.members| == |g.proxies| && g.name !in a
    requires forall i :: 0 <= i < |g.proxies| ==> g.proxies[i] in a && p.members[i] == a[g.proxies[i]]
    requires b == a[g.name := p]
    ensures BuiltFrom(b, g, details)
  {
  }

  lemma NothingBuilt(known: set<string>, gs: seq<Group>)
    ensures KnownBefore(known, gs, 0) == known
  {
  }

  lemma BuildableMeans(known: set<string>, parsed: set<string>, gs: seq<Group>, details: Detailing, n: nat)
    requires n < |gs|
    ensures BuildableAt(known, parsed, gs, details, n)
            <==> Acceptable(gs[n], details(gs[n].name), parsed) && gs[n].name !in KnownBefore(known, gs, n)
                 && forall m :: m in gs[n].proxies ==> m in KnownBefore(known, gs, n)
  {
  }

  lemma KnownGrows(known: set<string>, gs: seq<Group>, n: nat)
    requires n < |gs|
    ensures KnownBefore(known, gs, n + 1) == KnownBefore(known, gs, n) + {gs[n].name}
  {
  }

  /** Every member is a built-in, a parsed proxy or a declared group. */
  ghost predicate MembersExist(known: set<string>, gs: seq<Group>) {
    forall i, m :: 0 <= i < |gs| && m in gs[i].proxies ==> m in KnownBefore(known, gs, |gs|)
  }

  ghost predicate AllAcceptable(known: set<string>, parsed: set<string>, gs: seq<Group>, details: Detailing) {
    forall i :: 0 <= i < |gs| ==> Acceptable(gs[i], details(gs[i].name), parsed) && gs[i].name !in known
  }

  /** In sorted order construction succeeds exactly when every member exists at all and every group is
      acceptable by itself. */
  lemma SortedGroupsBuild(known: set<string>, parsed: set<string>, gs: seq<Group>, details: Detailing)
    requires DistinctNames(gs) && Ordered(gs)
    ensures (forall n :: 0 <= n < |gs| ==> BuildableAt(known, parsed, gs, details, n))
            <==> MembersExist(known, gs) && AllAcceptable(known, parsed, gs, details)
  {
    hide Acceptable;
    if MembersExist(known, gs) && AllAcceptable(known, parsed, gs, details) {
      forall n | 0 <= n < |gs| ensures BuildableAt(known, parsed, gs, details, n) {
        forall m | m in gs[n].proxies ensures m in KnownBefore(known, gs, n) {
          assert m in KnownBefore(known, gs, |gs|);
          if m !in known {
            var k :| 0 <= k < |gs| && gs[k].name == m;
            assert k < n;
          }
        }
      }
    }
    if forall n :: 0 <= n < |gs| ==> BuildableAt(known, parsed, gs, details, n) {
      forall i, m | 0 <= i < |gs| && m in gs[i].proxies ensures m in KnownBefore(known, gs, |gs|) {
        assert BuildableAt(known, parsed, gs, details, i);
      }
      forall i | 0 <= i < |gs| ensures Acceptable(gs[i], details(gs[i].name), parsed) && gs[i].name !in known {
        assert BuildableAt(known, parsed, gs, details, i);
      }
    }
  }

  /** Whether all members exist and all groups are acceptable does not depend on their order. */
  lemma OrderIsIrrelevant(known: set<string>, parsed: set<string>, ms: seq<Mapping>, r: seq<Mapping>, details: Detailing)
    requires AllDecoded(ms) && AllDecoded(r) && multiset(ms) == multiset(r)
    requires MembersExist(known, Groups(ms)) && AllAcceptable(known, parsed, Groups(ms), details)
    ensures MembersExist(known, Groups(r)) && AllAcceptable(known, parsed, Groups(r), details)
  {
    hide Acceptable;
    forall i | 0 <= i < |r| ensures r[i] in ms {
      assert r[i] in multiset(ms);
    }
    forall i | 0 <= i < |r|
      ensures Acceptable(Groups(r)[i], details(Groups(r)[i].name), parsed) && Groups(r)[i].name !in known
    {
      var j :| 0 <= j < |ms| && ms[j] == r[i];
      assert Groups(ms)[j] == Groups(r)[i];
    }
    forall i, m | 0 <= i < |r| && m in Groups(r)[i].proxies ensures m in KnownBefore(known, Groups(r), |r|) {
      var j :| 0 <= j < |ms| && ms[j] == r[i];
      assert m in Groups(ms)[j].proxies;
      assert m in KnownBefore(known, Groups(ms), |ms|);
      if m !in known {
        var k :| 0 <= k < |ms| && Groups(ms)[k].name == m;
        assert ms[k] in multiset(r);
        var l :| 0 <= l < |r| && r[l] == ms[k];
        assert Groups(r)[l].name == m;
      }
    }
  }

  /** What a configuration needs to be built, in whatever order its groups are written. */
  ghost predicate Buildable(ms: seq<Mapping>, known: set<string>, parsed: set<string>, details: Detailing) {
    AllDecoded(ms) && DistinctNames(Groups(ms)) && Acyclic(Groups(ms))
    && MembersExist(known, Groups(ms)) && AllAcceptable(known, parsed, Groups(ms), details)
  }

  /** parseProxies, from sorting to construction. */
  method ParseProxies(config: array<Mapping>, proxies0: map<string, Proxy>, parsed: map<string, bool>, details: Detailing)
    returns (r: Result)
    requires forall x :: x in parsed ==> !parsed[x]
    modifies config
    ensures r.Built? <==> Buildable(old(config[..]), proxies0.Keys, parsed.Keys, details)
    ensures r.NotSorted? <==> AllDecoded(old(config[..])) ==> !DistinctNames(Groups(old(config[..]))) || !Acyclic(Groups(old(config[..])))
    ensures r.Built? ==> multiset(config[..]) == multiset(old(config[..])) && AllDecoded(config[..])
                         && Constructed(Groups(config[..]), r.proxies, proxies0, details)
  {
    hide Acyclic, Ordered, BuildableAt, MembersExist, AllAcceptable, BuiltFrom, KnownBefore;
    ghost var ms := config[..];
    var sorted := DagSort.ProxyGroupsDagSort(config);
    if !sorted.Sorted? { return NotSorted(sorted); }
    DagSort.PermutedNames(ms, config[..]);
    r := ParseGroups(Groups(config[..]), proxies0, parsed, details);
    SortedGroupsBuild(proxies0.Keys, parsed.Keys, Groups(config[..]), details);
    if Buildable(ms, proxies0.Keys, parsed.Keys, details) {
      OrderIsIrrelevant(proxies0.Keys, parsed.Keys, ms, config[..], details);
    }
    if r.Built? {
      OrderIsIrrelevant(proxies0.Keys, parsed.Keys, config[..], ms, details);
      NamesAreNew(proxies0.Keys, parsed.Keys, Groups(config[..]), details);
    }
  }

  lemma NamesAreNew(known: set<string>, parsed: set<string>, gs: seq<Group>, details: Detailing)
    requires AllAcceptable(known, parsed, gs, details)
    ensures forall i :: 0 <= i < |gs| ==> gs[i].name !in known && (gs[i].proxies != [] || details(gs[i].name).use != [])
  {
  }

  /** The outcome of construction: sorted groups, each referring to what its members name. */
  ghost predicate Constructed(gs: seq<Group>, proxies: map<string, Proxy>, proxies0: map<string, Proxy>, details: Detailing) {
    DistinctNames(gs) && Ordered(gs) && proxies.Keys == KnownBefore(proxies0.Keys, gs, |gs|)
    && (forall x :: x in proxies0 ==> x in proxies && proxies[x] == proxies0[x])
    && (forall n :: 0 <= n < |gs| ==> BuiltFrom(proxies, gs[n], details) && gs[n].name !in proxies0)
    && (forall n :: 0 <= n < |gs| ==> gs[n].proxies != [] || details(gs[n].name).use != [])
  }

  // ---------- Unwrapping ----------

  /** What the providers offer when the `t`-th unwrapping is made; they update themselves. */
  type Offer = (nat, string) -> seq<Proxy>

  function Offered(offer: Offer, t: nat, use: seq<string>): (ps: seq<Proxy>)
    decreases |use|
  {
    if |use| == 0 then [] else offer(t, use[0]) + Offered(offer, t, use[1..])
  }

  /** getProvidersProxies: the members first, then what the used providers offer. */
  function Candidates(p: Proxy, offer: Offer, t: nat): seq<Proxy> { p.members + Offered(offer, t, p.use) }

  /** What a group points at, at the `t`-th unwrapping; the choice need not be the same another time. */
  function Unwrap(p: Proxy, offer: Offer, choose: (nat, Proxy) -> nat, t: nat): (sub: Option<Proxy>)
    ensures sub.Some? ==> p.selects && sub.value in Candidates(p, offer, t)
  {
    var all := Candidates(p, offer, t);
    if p.selects && |all| > 0 then Some(all[choose(t, p) % |all|]) else None
  }

  /** A provider never offers nothing, and only proxies that do not unwrap. */
  ghost predicate Plain(offer: Offer) {
    forall t, u :: |offer(t, u)| > 0 && forall i :: 0 <= i < |offer(t, u)| ==> !offer(t, u)[i].selects
  }

  lemma {:induction false} OfferedArePlain(offer: Offer, t: nat, use: seq<string>)
    requires Plain(offer)
    ensures |use| > 0 ==> |Offered(offer, t, use)| > 0
    ensures forall i :: 0 <= i < |Offered(offer, t, use)| ==> !Offered(offer, t, use)[i].selects
    decreases |use|
  {
    if |use| > 0 {
      OfferedArePlain(offer, t, use[1..]);
    }
  }

  /** Each proxy is one the proxy before may unwrap to, at successive unwrappings from the `t`-th on. */
  ghost predicate Chain(c: seq<Proxy>, offer: Offer, t: nat) {
    forall i :: 0 <= i < |c| - 1 ==> c[i].selects && c[i + 1] in Candidates(c[i], offer, t + i)
  }

  /** The topological index of a name: one more than its group's place, or 0 for a plain proxy. */
  ghost function Level(gs: seq<Group>, x: string): (l: nat)
    ensures l <= |gs|
    ensures l > 0 ==> gs[l - 1].name == x
    ensures l == 0 ==> forall i :: 0 <= i < |gs| ==> gs[i].name != x
  {
    if exists i :: 0 <= i < |gs| && gs[i].name == x then Position(gs, x) + 1 else 0
  }

  /** Parsed proxies do not unwrap. */
  ghost predicate Parsed(proxies0: map<string, Proxy>) {
    forall x :: x in proxies0 ==> !proxies0[x].selects
  }

  ghost predicate Stands(proxies: map<string, Proxy>, x: string, p: Proxy) { x in proxies && proxies[x] == p }

  /** A proxy at a height: one that does not unwrap, at 0, or one that stands at a name of that index. */
  ghost predicate At(gs: seq<Group>, proxies: map<string, Proxy>, p: Proxy, height: nat) {
    (height == 0 && !p.selects) || exists x :: Stands(proxies, x, p) && Level(gs, x) == height
  }

  ghost predicate Placed(proxies: map<string, Proxy>, p: Proxy) {
    !p.selects || exists x :: Stands(proxies, x, p)
  }

  /** A member stands at a name of a lower index. */
  lemma MembersAreLower(gs: seq<Group>, proxies: map<string, Proxy>, proxies0: map<string, Proxy>, details: Detailing,
                        n: nat, q: Proxy)
    requires Constructed(gs, proxies, proxies0, details)
    requires n < |gs| && q in proxies[gs[n].name].members
    ensures exists y :: Stands(proxies, y, q) && Level(gs, y) < n + 1
  {
    hide Level;
    var p := proxies[gs[n].name];
    assert BuiltFrom(proxies, gs[n], details);
    var i :| 0 <= i < |p.members| && p.members[i] == q;
    var y := gs[n].proxies[i];
    assert Stands(proxies, y, q);
    Levels(gs, y);
    if Level(gs, y) > 0 {
      assert gs[Level(gs, y) - 1].name in gs[n].proxies;
    }
  }

  lemma Levels(gs: seq<Group>, x: string)
    ensures Level(gs, x) > 0 ==> Level(gs, x) <= |gs| && gs[Level(gs, x) - 1].name == x
    ensures Level(gs, x) == 0 ==> forall i :: 0 <= i < |gs| ==> gs[i].name != x
  {
  }

  /** A proxy that unwraps is a group, and stands at its place. */
  lemma SelectingIsGroup(gs: seq<Group>, proxies: map<string, Proxy>, proxies0: map<string, Proxy>, details: Detailing,
                         p: Proxy, height: nat)
    requires Constructed(gs, proxies, proxies0, details) && Parsed(proxies0)
    requires At(gs, proxies, p, height) && p.selects
    ensures 0 < height <= |gs| && p == proxies[gs[height - 1].name]
  {
    hide Level;
    var x :| Stands(proxies, x, p) && Level(gs, x) == height;
    assert x !in proxies0;
    var n :| 0 <= n < |gs| && gs[n].name == x;
    Levels(gs, x);
  }

  /** Whatever a group may unwrap to, now or later, is lower; and there always is something. */
  lemma CandidatesAreLower(gs: seq<Group>, proxies: map<string, Proxy>, proxies0: map<string, Proxy>, details: Detailing,
                           offer: Offer, t: nat, p: Proxy, height: nat)
    requires Constructed(gs, proxies, proxies0, details) && Parsed(proxies0) && Plain(offer)
    requires At(gs, proxies, p, height) && p.selects
    ensures |Candidates(p, offer, t)| > 0
    ensures forall q :: q in Candidates(p, offer, t) ==> exists lower: nat :: At(gs, proxies, q, lower) && lower < height
  {
    hide Level, Plain;
    SelectingIsGroup(gs, proxies, proxies0, details, p, height);
    var n := height - 1;
    assert BuiltFrom(proxies, gs[n], details);
    OfferedArePlain(offer, t, p.use);
    forall q | q in Candidates(p, offer, t) ensures exists lower: nat :: At(gs, proxies, q, lower) && lower < height {
      if q in p.members {
        MembersAreLower(gs, proxies, proxies0, details, n, q);
        var y :| Stands(proxies, y, q) && Level(gs, y) < n + 1;
        assert At(gs, proxies, q, Level(gs, y));
      } else {
        assert q in Offered(offer, t, p.use);
        assert At(gs, proxies, q, 0);
      }
    }
  }

  lemma HeightIsBounded(gs: seq<Group>, proxies: map<string, Proxy>, p: Proxy, height: nat)
    requires At(gs, proxies, p, height)
    ensures height <= |gs|
  {
  }

  lemma HeightOf(gs: seq<Group>, proxies: map<string, Proxy>, p: Proxy) returns (height: nat)
    requires Placed(proxies, p)
    ensures At(gs, proxies, p, height) && height <= |gs|
  {
    if !p.selects {
      height := 0;
    } else {
      var x :| Stands(proxies, x, p);
      height := Level(gs, x);
    }
  }

  /** Unwrapping ends: no chain from a proxy is longer than its height allows, whatever the groups and
      the providers do in between. */
  lemma {:induction false} ChainsAreShort(gs: seq<Group>, proxies: map<string, Proxy>, proxies0: map<string, Proxy>,
                                          details: Detailing, offer: Offer, t: nat, c: seq<Proxy>, height: nat)
    requires Constructed(gs, proxies, proxies0, details) && Parsed(proxies0) && Plain(offer)
    requires |c| > 0 && Chain(c, offer, t) && At(gs, proxies, c[0], height)
    ensures |c| <= height + 1 <= |gs| + 1
    decreases |c|
  {
    hide Constructed, At, Parsed, Plain, Candidates;
    HeightIsBounded(gs, proxies, c[0], height);
    if |c| > 1 {
      assert c[0].selects && c[1] in Candidates(c[0], offer, t);
      CandidatesAreLower(gs, proxies, proxies0, details, offer, t, c[0], height);
      var lower: nat :| At(gs, proxies, c[1], lower) && lower < height;
      forall i | 0 <= i < |c[1..]| - 1
        ensures c[1..][i].selects && c[1..][i + 1] in Candidates(c[1..][i], offer, t + 1 + i)
      {
        assert c[i + 1].selects && c[i + 2] in Candidates(c[i + 1], offer, t + (i + 1));
      }
      ChainsAreShort(gs, proxies, proxies0, details, offer, t + 1, c[1..], lower);
    }
  }

  /** The proxies met by successive unwrappings, beginning with the `t`-th, up to one that does not
      unwrap. */
  ghost predicate Selected(c: seq<Proxy>, offer: Offer, choose: (nat, Proxy) -> nat, t: nat) {
    |c| > 0 && (forall k :: 0 <= k < |c| - 1 ==> Unwrap(c[k], offer, choose, t + k) == Some(c[k + 1]))
    && !c[|c| - 1].selects
  }

  /** Relay.proxies: replaces every proxy of the slice by the end of its chain of selections, which may
      be made differently each time a group is asked. The loop ends because candidates stand lower;
      `chains` are the proxies met, and `starts` counts the unwrappings made before each. */
  method RelayProxies(slice: array<Proxy>, offer: Offer, choose: (nat, Proxy) -> nat, ghost gs: seq<Group>,
                      ghost proxies: map<string, Proxy>, ghost proxies0: map<string, Proxy>, ghost details: Detailing)
    returns (ghost chains: seq<seq<Proxy>>, ghost starts: seq<nat>)
    requires Constructed(gs, proxies, proxies0, details) && Parsed(proxies0) && Plain(offer)
    requires forall i :: 0 <= i < slice.Length ==> Placed(proxies, slice[i])
    modifies slice
    ensures |chains| == slice.Length && |starts| == slice.Length + 1 && starts[0] == 0
    ensures forall i :: 0 <= i < slice.Length ==>
              Selected(chains[i], offer, choose, starts[i]) && starts[i + 1] == starts[i] + |chains[i]| && |chains[i]| <= |gs| + 1
              && chains[i][0] == old(slice[i]) && slice[i] == chains[i][|chains[i]| - 1] && !slice[i].selects
  {
    hide Constructed, Level, Parsed, Plain, Selected, Placed;
    var t := 0;
    chains, starts := [], [0];
    for n := 0 to slice.Length
      invariant |chains| == n && |starts| == n + 1 && starts[0] == 0 && starts[n] == t
      invariant forall i :: 0 <= i < n ==>
                  Selected(chains[i], offer, choose, starts[i]) && starts[i + 1] == starts[i] + |chains[i]|
                  && 0 < |chains[i]| <= |gs| + 1
                  && chains[i][0] == old(slice[i]) && slice[i] == chains[i][|chains[i]| - 1] && !slice[i].selects
      invariant forall i :: n <= i < slice.Length ==> slice[i] == old(slice[i])
    {
      ghost var c;
      assert slice[n] == old(slice[n]) && Placed(proxies, old(slice[n]));
      t, c := FollowOne(slice, n, offer, choose, t, gs, proxies, proxies0, details);
      chains, starts := chains + [c], starts + [t];
    }
  }

  /** The inner loop: from the `n`-th proxy down, the next unwrapping being the `t`-th. */
  method FollowOne(slice: array<Proxy>, n: nat, offer: Offer, choose: (nat, Proxy) -> nat, t: nat, ghost gs: seq<Group>,
                   ghost proxies: map<string, Proxy>, ghost proxies0: map<string, Proxy>, ghost details: Detailing)
    returns (after: nat, ghost c: seq<Proxy>)
    requires Constructed(gs, proxies, proxies0, details) && Parsed(proxies0) && Plain(offer)
    requires n < slice.Length && Placed(proxies, slice[n])
    modifies slice
    ensures Selected(c, offer, choose, t) && after == t + |c| && 0 < |c| <= |gs| + 1
    ensures c[0] == old(slice[n]) && slice[n] == c[|c| - 1] && !slice[n].selects
    ensures forall i :: 0 <= i < slice.Length && i != n ==> slice[i] == old(slice[i])
  {
    hide Constructed, At, Parsed, Plain, Placed, Candidates;
    ghost var height := HeightOf(gs, proxies, slice[n]);
    c, after := [slice[n]], t + 1;
    if slice[n].selects { CandidatesAreLower(gs, proxies, proxies0, details, offer, t, slice[n], height); }
    var subproxy := Unwrap(slice[n], offer, choose, t);
    while subproxy.Some?
      invariant At(gs, proxies, slice[n], height) && 0 < |c| && |c| + height <= |gs| + 1
      invariant c[0] == old(slice[n]) && slice[n] == c[|c| - 1] && after == t + |c|
      invariant subproxy == Unwrap(slice[n], offer, choose, after - 1)
      invariant slice[n].selects ==> subproxy.Some?
      invariant forall k :: 0 <= k < |c| - 1 ==> Unwrap(c[k], offer, choose, t + k) == Some(c[k + 1])
      invariant forall i :: 0 <= i < slice.Length && i != n ==> slice[i] == old(slice[i])
      decreases height
    {
      CandidatesAreLower(gs, proxies, proxies0, details, offer, after - 1, slice[n], height);
      ghost var lower: nat :| At(gs, proxies, subproxy.value, lower) && lower < height;
      height := lower;
      slice[n] := subproxy.value;
      c := c + [subproxy.value];
      if slice[n].selects { CandidatesAreLower(gs, proxies, proxies0, details, offer, after, slice[n], height); }
      subproxy := Unwrap(subproxy.value, offer, choose, after);
      after := after + 1;
    }
  }
}
