/** component/trie/domain.go and node.go: the trie as linked nodes, changed in place. */
module DomainTrie {
  import opened Options
  import opened TrieSpec
  import Spec = TrieSpec

  class Node<T> {
    var data: Option<T>
    var children: map<string, Node<T>>

    constructor (data: Option<T>)
      ensures this.data == data && children == map[]
    {
      this.data, children := data, map[];
    }

    method AddChild(s: string, child: Node<T>)
      modifies this
      ensures children == old(children)[s := child] && data == old(data)
    {
      children := children[s := child];
    }
  }

  ghost predicate IsTree<T>(nodes: map<Path, Node<T>>) {
    PrefixClosed(nodes.Keys) && forall p, q :: p in nodes && q in nodes && p != q ==> nodes[p] != nodes[q]
  }

  /** Children as they have to be at `p`: the nodes one label further on. */
  ghost predicate Leads<T>(children: map<string, Node<T>>, nodes: map<Path, Node<T>>, p: Path) {
    forall s :: (s in children <==> p + [s] in nodes) && (s in children ==> children[s] == nodes[p + [s]])
  }

  lemma LeadsTo<T>(children: map<string, Node<T>>, nodes: map<Path, Node<T>>, p: Path, part: string)
    requires Leads(children, nodes, p)
    ensures part in children <==> p + [part] in nodes
    ensures part in children ==> children[part] == nodes[p + [part]]
  {
  }

  lemma OnlyRoot<T>(nodes: map<Path, Node<T>>, p: Path, q: Path)
    requires IsTree(nodes) && p in nodes && q in nodes && p != q
    ensures nodes[p] != nodes[q]
  {
  }

  lemma TreeGrows<T>(nodes: map<Path, Node<T>>, at: Path, part: string, added: Node<T>)
    requires IsTree(nodes) && at in nodes && at + [part] !in nodes && added !in nodes.Values
    ensures IsTree(nodes[at + [part] := added])
    ensures nodes[at + [part] := added].Keys == nodes.Keys + {at + [part]}
    ensures Leads(map[], nodes[at + [part] := added], at + [part])
  {
    Grown(nodes, at, part);
    forall p | p in nodes ensures nodes[p] in nodes.Values {
    }
    forall s ensures at + [part] + [s] != at + [part] {
      assert |at + [part] + [s]| != |at + [part]|;
    }
  }

  lemma LeadsHere<T>(children: map<string, Node<T>>, nodes: map<Path, Node<T>>, at: Path, part: string, added: Node<T>)
    requires Leads(children, nodes, at)
    ensures Leads(children[part := added], nodes[at + [part] := added], at)
  {
    forall s ensures at + [s] == at + [part] <==> s == part {
      AppendInjective(at, s, at, part);
    }
  }

  lemma LeadsElsewhere<T>(children: map<string, Node<T>>, nodes: map<Path, Node<T>>, p: Path, at: Path, part: string, added: Node<T>)
    requires p != at && Leads(children, nodes, p)
    ensures Leads(children, nodes[at + [part] := added], p)
  {
    forall s ensures p + [s] != at + [part] {
      AppendInjective(p, s, at, part);
    }
  }

  class Trie<T> {
    const root: Node<T>
    ghost var nodes: map<Path, Node<T>> // every path and the node it leads to
    ghost var store: Store<T> // what is stored at the paths

    /** The nodes form a tree: paths are closed under prefixes, lead to different nodes, and continue
        exactly where the node they lead to has a child. */
    ghost predicate Valid()
      reads this, nodes.Values
    {
      IsTree(nodes) && nodes[[]] == root && store.Keys == nodes.Keys
      && forall p :: p in nodes ==> Leads(nodes[p].children, nodes, p) && store[p] == nodes[p].data
    }

    constructor ()
      ensures Valid() && store == map[[] := None] && fresh(root) && fresh(nodes.Values)
    {
      root := new Node(None);
      new;
      nodes, store := map[[] := root], map[[] := None];
      assert nodes[[]] in nodes.Values;
    }

    /** The child of the node at `at`, created when it is not there. */
    method Descend(node: Node<T>, part: string, ghost at: Path) returns (child: Node<T>)
      requires Valid() && at in nodes && nodes[at] == node
      modifies this, node
      ensures Valid() && at + [part] in nodes && nodes[at + [part]] == child
      ensures forall p :: p in old(nodes) ==> p in nodes && nodes[p] == old(nodes[p])
      ensures fresh(nodes.Values - old(nodes.Values))
      ensures store == if at + [part] in old(store) then old(store) else old(store)[at + [part] := None]
    {
      hide IsTree, Leads;
      LeadsTo(node.children, nodes, at, part);
      if part !in node.children {
        AddChildAt(node, part, at);
        LeadsTo(node.children, nodes, at, part);
      }
      child := node.children[part];
    }

    /** What the other nodes lead to is not changed by a new node below `at`. */
    lemma OthersLead(at: Path, part: string, added: Node<T>)
      requires Valid() && at in nodes
      ensures forall p :: p in nodes && p != at ==>
                nodes[p] != nodes[at] && Leads(nodes[p].children, nodes[at + [part] := added], p)
    {
      hide IsTree, Leads, PrefixClosed;
      forall p | p in nodes && p != at
        ensures nodes[p] != nodes[at] && Leads(nodes[p].children, nodes[at + [part] := added], p)
      {
        OnlyRoot(nodes, p, at);
        LeadsElsewhere(nodes[p].children, nodes, p, at, part, added);
      }
    }

    method AddChildAt(node: Node<T>, part: string, ghost at: Path)
      requires Valid() && at in nodes && nodes[at] == node && at + [part] !in nodes
      modifies this, node
      ensures Valid() && fresh(nodes.Values - old(nodes.Values))
      ensures nodes.Keys == old(nodes.Keys) + {at + [part]} && forall p :: p in old(nodes) ==> nodes[p] == old(nodes[p])
      ensures store == old(store)[at + [part] := None]
    {
      hide IsTree, Leads, PrefixClosed;
      var added := new Node(None);
      ghost var before, q := nodes, at + [part];
      TreeGrows(before, at, part, added);
      LeadsHere(node.children, before, at, part, added);
      OthersLead(at, part, added);
      node.AddChild(part, added);
      nodes, store := nodes[q := added], store[q := None];
      forall p | p in nodes ensures Leads(nodes[p].children, nodes, p) && store[p] == nodes[p].data {
        if p != q {
          assert p in before && nodes[p] == before[p];
        }
      }
    }

    method SetData(node: Node<T>, data: Option<T>, ghost at: Path)
      requires Valid() && at in nodes && nodes[at] == node
      modifies this`store, node
      ensures Valid() && store == old(store)[at := data]
    {
      hide IsTree, Leads;
      forall p | p in nodes && p != at ensures nodes[p] != node {
        OnlyRoot(nodes, p, at);
      }
      node.data := data;
      store := store[at := data];
    }

    lemma RootIsThere()
      requires Valid()
      ensures [] in nodes && nodes[[]] == root && PrefixClosed(store.Keys)
    {
    }

    method InsertPath(parts: seq<string>, data: Option<T>)
      requires Valid()
      modifies this, nodes.Values
      ensures Valid() && fresh(nodes.Values - old(nodes.Values))
      ensures store == Put(old(store), Reverse(parts), data)
    {
      hide Valid, WithPrefixes, PrefixClosed, Reverse;
      var node := root;
      var i := |parts|;
      RootIsThere();
      NoPrefixes(store);
      ghost var path, at: Path := Reverse(parts), [];
      while i > 0
        invariant 0 <= i <= |parts| && Valid()
        invariant at == path[..|parts| - i] && at in nodes && nodes[at] == node
        invariant fresh(nodes.Values - old(nodes.Values))
        invariant store == WithPrefixes(old(store), at)
      {
        ReverseStep(parts, i);
        i := i - 1;
        var part := parts[i];
        PrefixStep(old(store), at, part);
        node := Descend(node, part, at);
        at := at + [part];
      }
      assert at == path;
      SetData(node, data, path);
    }

    /** Insert; false is the source's ErrInvalidDomain. */
    method Insert(domain: string, data: Option<T>) returns (ok: bool)
      requires Valid()
      modifies this, nodes.Values
      ensures Valid() && fresh(nodes.Values - old(nodes.Values))
      ensures ok <==> ValidAndSplit(domain).Some?
      ensures store == Spec.Insert(old(store), domain, data)
      ensures var labels := Split(domain);
              ok ==>
                if labels[0] != "+" then Reverse(labels) in store && store[Reverse(labels)] == data
                else
                  var x := Reverse(labels[1..]);
                  x in store && store[x] == data && x + [""] in store && store[x + [""]] == data
    {
      hide Put, Split, IsTree, Leads, Reverse;
      var parts := ValidAndSplit(domain);
      if parts.None? { return false; }
      ValidMeans(domain);
      InsertStores(store, domain, data);
      if parts.value[0] == COMPLEX_WILDCARD {
        InsertPath(parts.value[1..], data);
        InsertPath([DOT_WILDCARD] + parts.value[1..], data);
      } else {
        InsertPath(parts.value, data);
      }
      return true;
    }

    /** The recursive search; it only reads. */
    method Locate(node: Node<T>, parts: seq<string>, ghost at: Path) returns (n: Node?<T>)
      requires Valid() && at in nodes && nodes[at] == node
      ensures var r := Find(nodes.Keys, at, Reverse(parts));
              if r.None? then n == null else r.value in nodes && n == nodes[r.value]
      decreases |parts|
    {
      hide IsTree, Leads, Reverse;
      if |parts| == 0 { return node; }
      var last := parts[|parts| - 1];
      ReverseLast(parts);
      LeadsTo(node.children, nodes, at, last);
      LeadsTo(node.children, nodes, at, WILDCARD);
      LeadsTo(node.children, nodes, at, DOT_WILDCARD);
      if last in node.children {
        n := Locate(node.children[last], parts[..|parts| - 1], at + [last]);
        if n != null { return; }
      }
      if WILDCARD in node.children {
        n := Locate(node.children[WILDCARD], parts[..|parts| - 1], at + [WILDCARD]);
        if n != null { return; }
      }
      n := if DOT_WILDCARD in node.children then node.children[DOT_WILDCARD] else null;
    }

    /** Search: what is stored at the node found, if any. */
    method Search(domain: string) returns (data: Option<T>)
      requires Valid()
      ensures data == Spec.Search(store, domain)
    {
      hide Split, IsTree, Leads, Reverse, Find;
      var parts := ValidAndSplit(domain);
      ValidMeans(domain);
      if parts.None? || parts.value[0] == "" { return None; }
      TreeIsClosed(nodes);
      var n := Locate(root, parts.value, []);
      if n == null || n.data.None? { return None; }
      return n.data;
    }
  }

  lemma {:induction false} ReverseLast(parts: seq<string>)
    requires |parts| > 0
    ensures Reverse(parts)[0] == parts[|parts| - 1] && Reverse(parts)[1..] == Reverse(parts[..|parts| - 1])
  {
    hide Reverse;
    var a, b := Reverse(parts)[1..], Reverse(parts[..|parts| - 1]);
    forall i | 0 <= i < |a| ensures a[i] == b[i] {
    }
  }

  lemma AppendInjective(p: Path, s: string, q: Path, t: string)
    ensures p + [s] == q + [t] <==> p == q && s == t
  {
    if p + [s] == q + [t] {
      assert |p| == |q| && (p + [s])[..|p|] == (q + [t])[..|q|];
      assert (p + [s])[|p|] == (q + [t])[|q|];
    }
  }

  lemma Grown<T>(nodes: map<Path, Node<T>>, at: Path, part: string)
    requires PrefixClosed(nodes.Keys) && at in nodes && at + [part] !in nodes
    ensures PrefixClosed(nodes.Keys + {at + [part]})
    ensures forall s :: at + [part] + [s] !in nodes
  {
    var q := at + [part];
    forall n | 0 <= n <= |q| ensures q[..n] in nodes.Keys + {q} {
      assert n <= |at| ==> q[..n] == at[..n];
      assert n == |q| ==> q[..n] == q;
    }
    forall s ensures q + [s] !in nodes {
      assert (q + [s])[..|q|] == q;
    }
  }

  lemma TreeIsClosed<T>(nodes: map<Path, Node<T>>)
    requires IsTree(nodes)
    ensures PrefixClosed(nodes.Keys)
  {
  }

  lemma NoPrefixes<T>(d: Store<T>)
    requires [] in d
    ensures WithPrefixes(d, []) == d
  {
    var none: Path := [];
    assert none == none[..0];
    forall q | q in Prefixes(none) ensures q == none {
    }
    assert d.Keys + Prefixes(none) == d.Keys;
  }

  /** Where an inserted pattern is to be found. */
  lemma InsertStores<T>(d: Store<T>, domain: string, data: Option<T>)
    requires ValidAndSplit(domain).Some?
    ensures var labels := Split(domain);
            var t := Spec.Insert(d, domain, data);
            if labels[0] != "+" then Reverse(labels) in t && t[Reverse(labels)] == data
            else
              var x := Reverse(labels[1..]);
              x in t && t[x] == data && x + [""] in t && t[x + [""]] == data
  {
    hide Split, Reverse, Prefixes;
    ValidMeans(domain);
    var labels := Split(domain);
    ReverseCons("", labels[1..]);
    var x := Reverse(labels[1..]);
    assert |x| < |x + [""]|;
  }

  lemma {:induction false} ReverseStep(s: seq<string>, i: nat)
    requires 0 < i <= |s|
    ensures Reverse(s)[..|s| - i + 1] == Reverse(s)[..|s| - i] + [s[i - 1]]
  {
  }

  lemma PrefixStep<T>(d: Store<T>, at: Path, part: string)
    requires PrefixClosed(d.Keys)
    ensures WithPrefixes(d, at + [part])
            == if at + [part] in WithPrefixes(d, at) then WithPrefixes(d, at) else WithPrefixes(d, at)[at + [part] := None]
  {
    var q := at + [part];
    forall p ensures p in Prefixes(q) <==> p in Prefixes(at) || p == q {
      if p in Prefixes(q) {
        var n :| 0 <= n <= |q| && p == q[..n];
        assert n <= |at| ==> p == at[..n];
      }
      if p in Prefixes(at) {
        var n :| 0 <= n <= |at| && p == at[..n];
        assert p == q[..n];
      }
      assert q == q[..|q|];
    }
  }
}
