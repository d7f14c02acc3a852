/** component/trie/domain.go: which domains a pattern answers, in terms of their labels. */
module TriePatterns {
  import opened Options
  import opened TrieSpec

  /** The last labels of a domain are those of `x`, where a star stands for any label. */
  predicate Ends(x: seq<string>, domain: seq<string>) {
    |x| <= |domain| && forall i :: 0 <= i < |x| ==> x[i] == "*" || x[i] == domain[|domain| - |x| + i]
  }

  /** What a pattern is for: with a plus in front, the domain behind it and everything below; with nothing in
      front of its first dot, everything below but not the domain itself; any other just as many labels as it
      has. */
  predicate Covers(pattern: seq<string>, domain: seq<string>)
    requires |pattern| > 0
  {
    if pattern[0] == "+" then Ends(pattern[1..], domain)
    else if pattern[0] == "" then |domain| >= |pattern| && Ends(pattern[1..], domain)
    else |domain| == |pattern| && Ends(pattern, domain)
  }

  /** The same read from the top-level label down: a beginning. */
  predicate Begins(x: Path, d: seq<string>) {
    |x| <= |d| && forall i :: 0 <= i < |x| ==> x[i] == "*" || x[i] == d[i]
  }

  lemma BeginsTail(x: Path, d: seq<string>)
    requires x != [] && d != []
    ensures Begins(x, d) <==> (x[0] == "*" || x[0] == d[0]) && Begins(x[1..], d[1..])
  {
    if (x[0] == "*" || x[0] == d[0]) && Begins(x[1..], d[1..]) {
      forall i | 0 <= i < |x| ensures x[i] == "*" || x[i] == d[i] {
        if i > 0 { assert x[1..][i - 1] == "*" || x[1..][i - 1] == d[1..][i - 1]; }
      }
    }
    if Begins(x, d) {
      forall i | 0 <= i < |x[1..]| ensures x[1..][i] == "*" || x[1..][i] == d[1..][i] {
        assert x[i + 1] == "*" || x[i + 1] == d[i + 1];
      }
    }
  }

  lemma EndsReversed(x: seq<string>, domain: seq<string>)
    ensures Ends(x, domain) <==> Begins(Reverse(x), Reverse(domain))
  {
    hide Reverse;
    var n, r, d := |x|, Reverse(x), Reverse(domain);
    if Begins(r, d) {
      forall i | 0 <= i < n ensures x[i] == "*" || x[i] == domain[|domain| - n + i] {
        assert r[n - 1 - i] == x[i] && d[n - 1 - i] == domain[|domain| - n + i];
      }
    }
    if Ends(x, domain) {
      forall i | 0 <= i < n ensures r[i] == "*" || r[i] == d[i] {
        assert x[n - 1 - i] == "*" || x[n - 1 - i] == domain[|domain| - n + (n - 1 - i)];
      }
    }
  }

  lemma {:induction false} MatchesLabels(x: Path, d: seq<string>)
    requires Labels(x)
    ensures Matches(x, d) <==> |x| == |d| && Begins(x, d)
    decreases |x|
  {
    hide Begins;
    if x == [] {
      BeginsAtOnce(d);
    } else if d != [] {
      BeginsTail(x, d);
      MatchesLabels(x[1..], d[1..]);
    }
  }

  lemma Lengths(x: seq<string>, domain: seq<string>)
    ensures Ends(x, domain) ==> |x| <= |domain|
  {
  }

  lemma BeginsAtOnce(d: seq<string>)
    ensures Begins([], d)
  {
  }

  lemma {:induction false} MatchesDotted(x: Path, d: seq<string>)
    requires Labels(x)
    ensures Matches(x + [""], d) <==> |x| < |d| && Begins(x, d)
    decreases |x|
  {
    hide Begins;
    if x == [] {
      BeginsAtOnce(d);
      assert x + [""] == [""];
    } else {
      assert (x + [""])[1..] == x[1..] + [""];
      if d != [] {
        BeginsTail(x, d);
        MatchesDotted(x[1..], d[1..]);
      }
    }
  }

  /** A pattern is stored where the domains it covers are looked for. */
  lemma StoredWhereCovered<T>(op: Op<T>, domain: string)
    requires ValidAndSplit(op.domain).Some? && ValidAndSplit(domain).Some? && Split(domain)[0] != ""
    ensures (exists p :: p in Stores(op) && Matches(p, Reverse(Split(domain)))) <==> Covers(Split(op.domain), Split(domain))
  {
    hide Split, Matches, Begins, Ends, Reverse;
    ValidMeans(op.domain);
    var parts, labels := Split(op.domain), Split(domain);
    var x, d := Reverse(parts[1..]), Reverse(labels);
    ReverseCons(parts[0], parts[1..]);
    assert [parts[0]] + parts[1..] == parts;
    ReverseCons("", parts[1..]);
    MatchesDotted(x, d);
    MatchesLabels(x, d);
    EndsReversed(parts[1..], labels);
    Lengths(parts[1..], labels);
    EndsReversed(parts, labels);
    if parts[0] != "" { MatchesLabels(Reverse(parts), d); }
    if parts[0] == "+" {
      assert Stores(op) == [x, x + [""]];
      assert Stores(op)[0] in Stores(op) && Stores(op)[1] in Stores(op);
    } else {
      assert Stores(op) == [Reverse(parts)];
      assert Stores(op)[0] in Stores(op);
    }
  }

  /** What is only on the way to where a pattern is stored matches no domain that the pattern covers. */
  lemma WayMatchesNothing<T>(op: Op<T>, domain: string, p: Path)
    requires ValidAndSplit(op.domain).Some? && ValidAndSplit(domain).Some? && Split(domain)[0] != ""
    requires Covers(Split(op.domain), Split(domain)) && p !in Stores(op)
    requires exists q :: q in Stores(op) && p in Prefixes(q)
    ensures !Matches(p, Reverse(Split(domain)))
  {
    hide Split, Matches, Begins, Ends, Reverse;
    ValidMeans(op.domain);
    var parts, d := Split(op.domain), Reverse(Split(domain));
    var x := Reverse(parts[1..]);
    ReverseCons(parts[0], parts[1..]);
    assert [parts[0]] + parts[1..] == parts;
    ReverseCons("", parts[1..]);
    var q :| q in Stores(op) && p in Prefixes(q);
    assert |p| < |q| by { if |p| == |q| { assert q[..|q|] == q; } }
    assert p == q[..|p|];
    Lengths(parts[1..], Split(domain));
    assert Labels(p);
    MatchesLabels(p, d);
    if parts[0] == "+" {
      assert Stores(op) == [x, x + [""]];
      assert x == (x + [""])[..|x|];
    }
  }

  /** A trie with one pattern answers exactly the domains that the pattern covers. */
  lemma OnePattern<T>(op: Op<T>, domain: string)
    requires ValidAndSplit(op.domain).Some? && ValidAndSplit(domain).Some? && Split(domain)[0] != ""
    ensures Search(Build([op]), domain) == if Covers(Split(op.domain), Split(domain)) then op.data else None
  {
    hide Split, Matches, Find, Stores, Prefixes, Covers, Build, Insert;
    var d := Reverse(Split(domain));
    var paths := Build([op]).Keys;
    SearchedLabels(domain);
    BuildHolds([op]);
    FindIsBest(paths, [], d);
    StoredWhereCovered(op, domain);
    var r := Find(paths, [], d);
    if r.Some? {
      assert r.value[0..] == r.value;
      OneLatest(op, r.value);
      assert [] + r.value == r.value && r.value in Build([op]);
      WayToStored(op, r.value);
      if Covers(Split(op.domain), Split(domain)) && r.value !in Stores(op) {
        WayMatchesNothing(op, domain, r.value);
      }
    } else if Covers(Split(op.domain), Split(domain)) {
      var p :| p in Stores(op) && Matches(p, d);
      assert [] + p == p;
      StoredIsOnWay(op, p);
    }
  }

  lemma OneLatest<T>(op: Op<T>, p: Path)
    ensures LatestAt([op], p) == if p in Stores(op) then op.data else None
  {
    assert [op][..0] == [];
  }

  lemma WayToStored<T>(op: Op<T>, p: Path)
    requires LeadsOn([op], p) && ValidAndSplit(op.domain).Some?
    ensures exists q :: q in Stores(op) && p in Prefixes(q)
  {
    if p == [] {
      ValidMeans(op.domain);
      var q := Stores(op)[0];
      assert q in Stores(op) && p == q[..0] && p in Prefixes(q);
    } else {
      hide Stores;
      var i, q :| 0 <= i < 1 && q in Stores([op][i]) && p in Prefixes(q);
    }
  }

  lemma StoredIsOnWay<T>(op: Op<T>, p: Path)
    requires p in Stores(op)
    ensures LeadsOn([op], p)
  {
    hide Stores;
    assert p == p[..|p|] && [op][0] == op;
    assert p in Stores([op][0]) && p in Prefixes(p);
  }

  /** A domain inserted without a plus is found with its data, whatever else the trie holds. */
  lemma OwnDomainIsFound<T>(ops: seq<Op<T>>, op: Op<T>)
    requires ValidAndSplit(op.domain).Some? && Split(op.domain)[0] != "" && Split(op.domain)[0] != "+"
    ensures Search(Build(ops + [op]), op.domain) == op.data
  {
    hide Split, Build, Search, Insert;
    ValidMeans(op.domain);
    var all, p := ops + [op], Reverse(Split(op.domain));
    assert Stores(op) == [p];
    BuildHolds(all);
    assert all[|ops|] == op && all[..|ops|] == ops;
    assert p in Stores(all[|ops|]) && p == p[..|p|] && p in Prefixes(p);
    LiteralDomainsWin(all, op.domain);
  }

  // ---------- Patterns as strings ----------

  lemma SplitStep(s: string)
    ensures s == "" ==> Split(s) == [""]
    ensures s != "" ==>
              var rest := Split(s[1..]);
              Split(s) == if s[0] == '.' then [""] + rest else [[s[0]] + rest[0]] + rest[1..]
  {
  }

  lemma {:induction false} SplitDot(a: string, b: string)
    ensures Split(a + "." + b) == Split(a) + Split(b)
  {
    hide Split;
    var s := a + "." + b;
    SplitStep(a);
    SplitStep(s);
    if a == "" {
      assert s[1..] == b;
    } else {
      SplitDot(a[1..], b);
      assert s[1..] == a[1..] + "." + b && s[0] == a[0];
      var rest := Split(a[1..]);
      assert (rest + Split(b))[1..] == rest[1..] + Split(b);
    }
  }

  lemma {:induction false} JoinDot(a: seq<string>, b: seq<string>)
    requires |a| > 0 && |b| > 0
    ensures Join(a + b) == Join(a) + "." + Join(b)
  {
    if |a| == 1 {
      assert (a + b)[1..] == b;
    } else {
      JoinDot(a[1..], b);
      assert (a + b)[1..] == a[1..] + b;
      assert a[0] + "." + (Join(a[1..]) + "." + Join(b)) == (a[0] + "." + Join(a[1..])) + "." + Join(b);
    }
  }

  lemma {:induction false} OneLabel(l: string)
    requires '.' !in l
    ensures Split(l) == [l]
  {
    if l != "" {
      assert l[0] in l && l == [l[0]] + l[1..];
      OneLabel(l[1..]);
    }
  }

  predicate Literal(x: string) { forall i :: 0 <= i < |Split(x)| ==> Split(x)[i] != "" && Split(x)[i] != "*" }

  /** Labels without stars end a domain exactly when the domain is these labels, or ends with a dot and them. */
  lemma EndsMeans(x: string, domain: string)
    requires Literal(x)
    ensures Ends(Split(x), Split(domain)) && |Split(domain)| == |Split(x)| <==> domain == x
    ensures Ends(Split(x), Split(domain)) && |Split(domain)| == |Split(x)| + 1 <==>
              exists l :: '.' !in l && domain == l + "." + x
    ensures Ends(Split(x), Split(domain)) && |Split(domain)| > |Split(x)| <==> exists l :: domain == l + "." + x
  {
    hide Split, Join;
    JoinInvertsSplit(x);
    JoinInvertsSplit(domain);
    var n := |Split(domain)| - |Split(x)|;
    if Ends(Split(x), Split(domain)) {
      assert Split(domain) == Split(domain)[..n] + Split(x);
      if n > 0 {
        JoinDot(Split(domain)[..n], Split(x));
        if n == 1 { JoinOne(Split(domain)[..1]); }
      }
    }
    if l :| domain == l + "." + x {
      SplitDot(l, x);
      if '.' !in l { OneLabel(l); }
    }
    if l :| '.' !in l && domain == l + "." + x {
      SplitDot(l, x);
      OneLabel(l);
    }
  }

  lemma JoinOne(parts: seq<string>)
    requires |parts| == 1
    ensures Join(parts) == parts[0]
  {
  }

  lemma PrefixedIsValid(prefix: string, x: string)
    requires Literal(x) && '.' !in prefix
    ensures Split(prefix + "." + x) == [prefix] + Split(x) && ValidAndSplit(prefix + "." + x).Some?
  {
    hide Split;
    SplitDot(prefix, x);
    OneLabel(prefix);
    ValidMeans(prefix + "." + x);
  }

  /** For a domain x written out: "*.x" answers what has one label before x, ".x" what has at least one, and
      "+.x" x itself as well. */
  lemma WildcardsMean<T>(x: string, data: Option<T>, domain: string)
    requires Literal(x) && ValidAndSplit(domain).Some? && Split(domain)[0] != ""
    ensures Search(Build([Op("*." + x, data)]), domain)
            == if exists l :: '.' !in l && domain == l + "." + x then data else None
    ensures Search(Build([Op("." + x, data)]), domain) == if exists l :: domain == l + "." + x then data else None
    ensures Search(Build([Op("+." + x, data)]), domain)
            == if domain == x || exists l :: domain == l + "." + x then data else None
  {
    hide Split, Search, Build, Ends, ValidAndSplit, Literal;
    EndsMeans(x, domain);
    assert "" + "." + x == "." + x && "*" + "." + x == "*." + x && "+" + "." + x == "+." + x;
    PrefixedIsValid("*", x);
    PrefixedIsValid("", x);
    PrefixedIsValid("+", x);
    OnePattern(Op("*." + x, data), domain);
    OnePattern(Op("." + x, data), domain);
    OnePattern(Op("+." + x, data), domain);
    StarInFront(x, domain);
    Lengths(Split(x), Split(domain));
  }

  lemma StarInFront(x: string, domain: string)
    ensures var pattern := ["*"] + Split(x);
            |Split(domain)| == |pattern| ==> (Ends(pattern, Split(domain)) <==> Ends(Split(x), Split(domain)))
  {
    hide Split;
    var pattern, d := ["*"] + Split(x), Split(domain);
    if |d| == |pattern| {
      assert forall i :: 0 <= i < |Split(x)| ==> pattern[i + 1] == Split(x)[i];
      if Ends(pattern, d) {
        forall i | 0 <= i < |Split(x)| ensures Split(x)[i] == "*" || Split(x)[i] == d[|d| - |Split(x)| + i] {
          assert pattern[i + 1] == "*" || pattern[i + 1] == d[i + 1];
        }
      }
    }
  }

  /** Domains with an empty label behind the first are neither stored nor found, and neither is nothing; a
      leading dot is for patterns only. */
  lemma InvalidIsIgnored<T>(d: Store<T>, domain: string, data: Option<T>)
    ensures domain == "" || (exists i :: 1 <= i < |Split(domain)| && Split(domain)[i] == "") ==>
              Insert(d, domain, data) == d && Search(d, domain) == None
    ensures domain != "" && domain[0] == '.' ==> Search(d, domain) == None
  {
    ValidMeans(domain);
    if domain != "" { SplitStep(domain); }
  }
}
