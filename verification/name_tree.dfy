/** The name tree, the pruned enumeration of its nodes, and Forwarder::onNewNextHop(). */
module NameTree {
  import opened Packets

  /** A name is a sequence of components. */
  type Name = seq<nat>

  /** A node: its name, whether a FIB entry is attached, its PIT entries, its children in order. */
  datatype Node = Node(name: Name, hasFib: bool, pitEntries: seq<nat>, children: seq<Node>)

  /** Whether to visit a node and whether to visit its descendants. */
  datatype Want = Want(self: bool, children: bool)

  type Selector = Node -> Want

  // ---------------------------------------------------------------- trees

  predicate DistinctNames(nodes: seq<Node>)
  {
    forall i, j :: 0 <= i < j < |nodes| ==> nodes[i].name != nodes[j].name
  }

  /** Children extend the name of their parent by one component, and no two have the same name. */
  predicate WellNamed(t: Node)
    decreases t
  {
    && DistinctNames(t.children)
    && WellNamedAll(t.children, t.name)
  }

  predicate WellNamedAll(nodes: seq<Node>, parent: Name)
    decreases nodes
  {
    nodes != [] ==>
      && |nodes[0].name| == |parent| + 1 && parent <= nodes[0].name
      && WellNamed(nodes[0]) && WellNamedAll(nodes[1..], parent)
  }

  /** Names of the nodes with a FIB entry. */
  function FibNames(t: Node): set<Name>
    decreases t
  {
    (if t.hasFib then {t.name} else {}) + FibNamesAll(t.children)
  }

  function FibNamesAll(nodes: seq<Node>): set<Name>
    decreases nodes
  {
    if nodes == [] then {} else FibNames(nodes[0]) + FibNamesAll(nodes[1..])
  }

  /** Names of the nodes with PIT entries. */
  function PitNames(t: Node): set<Name>
    decreases t
  {
    (if t.pitEntries != [] then {t.name} else {}) + PitNamesAll(t.children)
  }

  function PitNamesAll(nodes: seq<Node>): set<Name>
    decreases nodes
  {
    if nodes == [] then {} else PitNames(nodes[0]) + PitNamesAll(nodes[1..])
  }

  predicate AllExtend(names: set<Name>, prefix: Name)
  {
    forall n :: n in names ==> prefix <= n
  }

  /** All names in a subtree extend the name of its root. */
  lemma {:induction false} NamesExtend(t: Node)
    requires WellNamed(t)
    ensures AllExtend(FibNames(t), t.name) && AllExtend(PitNames(t), t.name)
    decreases t
  {
    NamesExtendAll(t.children, t.name);
  }

  lemma {:induction false} NamesExtendAll(nodes: seq<Node>, parent: Name)
    requires WellNamedAll(nodes, parent)
    ensures AllExtend(FibNamesAll(nodes), parent) && AllExtend(PitNamesAll(nodes), parent)
    ensures parent !in FibNamesAll(nodes) && parent !in PitNamesAll(nodes)
    decreases nodes
  {
    if nodes != [] {
      NamesExtend(nodes[0]);
      NamesExtendAll(nodes[1..], parent);
    }
  }

  // ---------------------------------------------------------------- enumeration

  /** The nodes visited in a subtree, in order. */
  function Visit(t: Node, pred: Selector): seq<Node>
    decreases t
  {
    var want := pred(t);
    (if want.self then [t] else []) + if want.children then VisitAll(t.children, pred) else []
  }

  function VisitAll(nodes: seq<Node>, pred: Selector): seq<Node>
    decreases nodes
  {
    if nodes == [] then [] else Visit(nodes[0], pred) + VisitAll(nodes[1..], pred)
  }

  /** The selector of onNewNextHop(): a node below the prefix that has a FIB entry of its own is skipped with
      its whole subtree. */
  function NewNextHopSelector(prefix: Name): Selector
  {
    (t: Node) => if t.hasFib && |t.name| > |prefix| then Want(false, false) else Want(t.pitEntries != [], true)
  }

  /** `p` is the longest prefix of `n` among the names of `fib`. */
  predicate IsLongestPrefix(fib: set<Name>, n: Name, p: Name)
  {
    p in fib && p <= n && forall m :: m in fib && m <= n ==> |m| <= |p|
  }

  /** A FIB entry below the prefix is at least as specific for `n`. */
  predicate Shadowed(fib: set<Name>, n: Name, prefix: Name)
  {
    exists m :: m in fib && m <= n && |m| > |prefix|
  }

  predicate Visited(nodes: seq<Node>, n: Name)
  {
    exists t :: t in nodes && t.name == n
  }

  lemma VisitedConcat(a: seq<Node>, b: seq<Node>, n: Name)
    ensures Visited(a + b, n) <==> Visited(a, n) || Visited(b, n)
  {
    if Visited(a, n) { var t :| t in a && t.name == n; assert t in a + b; }
    if Visited(b, n) { var t :| t in b && t.name == n; assert t in a + b; }
  }

  lemma ShadowedUnion(a: set<Name>, b: set<Name>, n: Name, prefix: Name)
    ensures Shadowed(a + b, n, prefix) <==> Shadowed(a, n, prefix) || Shadowed(b, n, prefix)
  {
  }

  /** Names that extend different children do not extend each other. */
  lemma OtherChild(a: Name, b: Name, m: Name, n: Name)
    requires |a| == |b| && a <= m && b <= n && m <= n
    ensures a == b
  {
    assert a == m[..|a|] == n[..|a|] == b;
  }

  /** Nothing in the subtrees of other children is a prefix or an extension of a name below `first`. */
  lemma {:induction false} LaterChildren(nodes: seq<Node>, parent: Name, first: Name, n: Name)
    requires WellNamedAll(nodes, parent) && |first| == |parent| + 1 && first <= n
    requires forall i :: 0 <= i < |nodes| ==> nodes[i].name != first
    ensures forall m :: m in FibNamesAll(nodes) ==> !(m <= n)
    ensures n !in PitNamesAll(nodes)
    decreases nodes
  {
    if nodes != [] {
      NamesExtend(nodes[0]);
      LaterChildren(nodes[1..], parent, first, n);
      forall m | m in FibNames(nodes[0]) ensures !(m <= n) {
        if m <= n { OtherChild(nodes[0].name, first, m, n); }
      }
      if n in PitNames(nodes[0]) { OtherChild(nodes[0].name, first, n, n); }
    }
  }

  /** The pruned enumeration of a subtree visits exactly the nodes with PIT entries that no FIB entry of the
      subtree shadows. */
  lemma {:induction false} VisitExact(t: Node, prefix: Name, n: Name)
    requires WellNamed(t) && prefix <= t.name
    ensures Visited(Visit(t, NewNextHopSelector(prefix)), n) <==> n in PitNames(t) && !Shadowed(FibNames(t), n, prefix)
    decreases t
  {
    var pred := NewNextHopSelector(prefix);
    NamesExtend(t);
    NamesExtendAll(t.children, t.name);
    if t.hasFib && |t.name| > |prefix| {
      if n in PitNames(t) { assert t.name in FibNames(t) && t.name <= n; }
    } else {
      var self := if t.pitEntries != [] then [t] else [];
      VisitedConcat(self, VisitAll(t.children, pred), n);
      VisitAllExact(t.children, t.name, prefix, n);
      ShadowedUnion(if t.hasFib then {t.name} else {}, FibNamesAll(t.children), n, prefix);
      assert Visited(self, n) <==> t.pitEntries != [] && n == t.name;
      if n == t.name { NotShadowedAbove(t.children, t.name, prefix); }
    }
  }

  lemma NotShadowedAbove(nodes: seq<Node>, parent: Name, prefix: Name)
    requires WellNamedAll(nodes, parent)
    ensures !Shadowed(FibNamesAll(nodes), parent, prefix)
  {
    NamesExtendAll(nodes, parent);
    assert forall m :: m in FibNamesAll(nodes) && m <= parent ==> m == parent;
  }

  lemma {:induction false} VisitAllExact(nodes: seq<Node>, parent: Name, prefix: Name, n: Name)
    requires WellNamedAll(nodes, parent) && DistinctNames(nodes) && prefix <= parent
    ensures Visited(VisitAll(nodes, NewNextHopSelector(prefix)), n)
            <==> n in PitNamesAll(nodes) && !Shadowed(FibNamesAll(nodes), n, prefix)
    decreases nodes
  {
    if nodes != [] {
      var pred := NewNextHopSelector(prefix);
      var first, rest := nodes[0], nodes[1..];
      VisitExact(first, prefix, n);
      VisitAllExact(rest, parent, prefix, n);
      VisitedConcat(Visit(first, pred), VisitAll(rest, pred), n);
      ShadowedUnion(FibNames(first), FibNamesAll(rest), n, prefix);
      NamesExtend(first);
      if first.name <= n {
        LaterChildren(rest, parent, first.name, n);
      }
    }
  }

  /** Every node is visited at most once. */
  lemma {:induction false} VisitOnce(t: Node, pred: Selector)
    requires WellNamed(t)
    ensures DistinctNames(Visit(t, pred)) && forall u :: u in Visit(t, pred) ==> t.name <= u.name
    decreases t
  {
    VisitAllOnce(t.children, t.name, pred);
  }

  lemma {:induction false} VisitAllOnce(nodes: seq<Node>, parent: Name, pred: Selector)
    requires WellNamedAll(nodes, parent) && DistinctNames(nodes)
    ensures DistinctNames(VisitAll(nodes, pred))
    ensures forall u :: u in VisitAll(nodes, pred) ==> parent <= u.name && u.name != parent
    ensures forall u :: u in VisitAll(nodes, pred) ==> exists i :: 0 <= i < |nodes| && nodes[i].name <= u.name
    decreases nodes
  {
    if nodes != [] {
      var first, rest := nodes[0], nodes[1..];
      VisitOnce(first, pred);
      VisitAllOnce(rest, parent, pred);
      var a, b := Visit(first, pred), VisitAll(rest, pred);
      forall i, j | 0 <= i < |a| && 0 <= j < |b| ensures a[i].name != b[j].name {
        assert a[i] in a && b[j] in b;
        var k :| 0 <= k < |rest| && rest[k].name <= b[j].name;
        ChildLength(rest, parent, k);
        assert nodes[k + 1] == rest[k];
        if a[i].name == b[j].name { OtherChild(first.name, rest[k].name, a[i].name, b[j].name); }
      }
      forall u | u in a + b ensures exists i :: 0 <= i < |nodes| && nodes[i].name <= u.name {
        if u in a {
          assert nodes[0].name <= u.name;
        } else {
          var k :| 0 <= k < |rest| && rest[k].name <= u.name;
          assert nodes[k + 1] == rest[k];
        }
      }
    }
  }

  lemma {:induction false} ChildLength(nodes: seq<Node>, parent: Name, k: nat)
    requires WellNamedAll(nodes, parent) && k < |nodes|
    ensures |nodes[k].name| == |parent| + 1 && parent <= nodes[k].name && WellNamed(nodes[k])
    decreases nodes
  {
    if k > 0 { ChildLength(nodes[1..], parent, k - 1); }
  }

  // ---------------------------------------------------------------- the whole tree

  /** findExactMatch() */
  function Find(t: Node, name: Name): Option<Node>
    decreases t
  {
    if t.name == name then Some(t) else FindAll(t.children, name)
  }

  function FindAll(nodes: seq<Node>, name: Name): Option<Node>
    decreases nodes
  {
    if nodes == [] then None
    else
      var r := Find(nodes[0], name);
      if r.Some? then r else FindAll(nodes[1..], name)
  }

  /** The subtree found for a prefix holds all names that extend the prefix; if none is found, the prefix has
      no FIB entry. */
  lemma {:induction false} FindSubtree(t: Node, prefix: Name)
    requires WellNamed(t)
    ensures var r := Find(t, prefix);
            && (r.Some? ==> && r.value.name == prefix && WellNamed(r.value)
                            && (forall n :: n in PitNames(t) && prefix <= n <==> n in PitNames(r.value))
                            && (forall n :: n in FibNames(t) && prefix <= n <==> n in FibNames(r.value)))
            && (r.None? ==> prefix !in FibNames(t))
    decreases t
  {
    NamesExtend(t);
    NamesExtendAll(t.children, t.name);
    if t.name != prefix {
      FindSubtreeAll(t.children, t.name, prefix);
      if Find(t, prefix).Some? {
        FoundBelow(t.children, t.name, prefix);
        var i :| 0 <= i < |t.children| && t.children[i].name <= prefix;
        ChildLength(t.children, t.name, i);
        assert !(prefix <= t.name);
      }
    }
  }

  lemma {:induction false} FoundBelow(nodes: seq<Node>, parent: Name, name: Name)
    requires WellNamedAll(nodes, parent) && FindAll(nodes, name).Some?
    ensures exists i :: 0 <= i < |nodes| && nodes[i].name <= name
    decreases nodes
  {
    if Find(nodes[0], name).Some? {
      FoundExtends(nodes[0], name);
    } else {
      FoundBelow(nodes[1..], parent, name);
      var i :| 0 <= i < |nodes[1..]| && nodes[1..][i].name <= name;
      assert nodes[i + 1].name <= name;
    }
  }

  lemma {:induction false} FoundExtends(t: Node, name: Name)
    requires WellNamed(t) && Find(t, name).Some?
    ensures t.name <= name
    decreases t
  {
    if t.name != name {
      FoundBelow(t.children, t.name, name);
      var i :| 0 <= i < |t.children| && t.children[i].name <= name;
      ChildLength(t.children, t.name, i);
    }
  }

  lemma {:induction false} FindSubtreeAll(nodes: seq<Node>, parent: Name, prefix: Name)
    requires WellNamedAll(nodes, parent) && DistinctNames(nodes)
    ensures var r := FindAll(nodes, prefix);
            && (r.Some? ==> && r.value.name == prefix && WellNamed(r.value)
                            && (forall n :: n in PitNamesAll(nodes) && prefix <= n <==> n in PitNames(r.value))
                            && (forall n :: n in FibNamesAll(nodes) && prefix <= n <==> n in FibNames(r.value)))
            && (r.None? ==> prefix !in FibNamesAll(nodes))
    decreases nodes
  {
    if nodes != [] {
      var first, rest := nodes[0], nodes[1..];
      FindSubtree(first, prefix);
      FindSubtreeAll(rest, parent, prefix);
      NamesExtend(first);
      if Find(first, prefix).Some? {
        FoundExtends(first, prefix);
        forall n | prefix <= n ensures n !in PitNamesAll(rest) && n !in FibNamesAll(rest) {
          LaterChildren(rest, parent, first.name, n);
        }
      } else if FindAll(rest, prefix).Some? {
        FoundBelow(rest, parent, prefix);
        var i :| 0 <= i < |rest| && rest[i].name <= prefix;
        ChildLength(rest, parent, i);
        assert nodes[i + 1] == rest[i];
        forall n | prefix <= n && (n in PitNames(first) || n in FibNames(first)) ensures false {
          OtherChild(first.name, rest[i].name, n, n);
        }
      }
    }
  }

  /** The nodes that onNewNextHop() goes through. */
  function Affected(root: Node, prefix: Name): seq<Node>
  {
    match Find(root, prefix)
    case None => []
    case Some(t) => Visit(t, NewNextHopSelector(prefix))
  }

  /** For every tree and every prefix with a FIB entry, onNewNextHop() goes through exactly the nodes with PIT
      entries whose longest FIB prefix is that prefix, each once. */
  lemma EnumerationIsLongestPrefixMatch(root: Node, prefix: Name, n: Name)
    requires WellNamed(root) && prefix in FibNames(root)
    ensures Visited(Affected(root, prefix), n) <==> n in PitNames(root) && IsLongestPrefix(FibNames(root), n, prefix)
    ensures DistinctNames(Affected(root, prefix))
  {
    FindSubtree(root, prefix);
    var t := Find(root, prefix).value;
    VisitOnce(t, NewNextHopSelector(prefix));
    VisitExact(t, prefix, n);
    NamesExtend(t);
    if prefix <= n {
      assert Shadowed(FibNames(t), n, prefix) <==> exists m :: m in FibNames(root) && m <= n && |m| > |prefix| by {
        forall m | m in FibNames(root) && m <= n && |m| > |prefix| ensures m in FibNames(t) {
          assert prefix == n[..|prefix|] == m[..|prefix|];
        }
      }
    }
  }

  /** The PIT entries of a sequence of nodes. */
  function PitEntriesOf(nodes: seq<Node>): seq<nat>
  {
    if nodes == [] then [] else PitEntriesOf(nodes[..|nodes| - 1]) + nodes[|nodes| - 1].pitEntries
  }

  // ---------------------------------------------------------------- PIT entries

  /** PIT entries with the name of the node they are attached to. */
  function Attached(t: Node): set<(Name, nat)>
    decreases t
  {
    (set e | e in t.pitEntries :: (t.name, e)) + AttachedAll(t.children)
  }

  function AttachedAll(nodes: seq<Node>): set<(Name, nat)>
    decreases nodes
  {
    if nodes == [] then {} else Attached(nodes[0]) + AttachedAll(nodes[1..])
  }

  lemma {:induction false} AttachedNames(t: Node, n: Name)
    ensures n in PitNames(t) <==> exists e :: (n, e) in Attached(t)
    decreases t
  {
    AttachedNamesAll(t.children, n);
    if t.pitEntries != [] { assert (t.name, t.pitEntries[0]) in Attached(t); }
  }

  lemma {:induction false} AttachedNamesAll(nodes: seq<Node>, n: Name)
    ensures n in PitNamesAll(nodes) <==> exists e :: (n, e) in AttachedAll(nodes)
    decreases nodes
  {
    if nodes != [] {
      AttachedNames(nodes[0], n);
      AttachedNamesAll(nodes[1..], n);
    }
  }

  /** A visited node holds exactly the PIT entries that are attached under its name. */
  lemma {:induction false} VisitAttached(t: Node, pred: Selector, u: Node, e: nat)
    requires WellNamed(t) && u in Visit(t, pred)
    ensures (u.name, e) in Attached(t) <==> e in u.pitEntries
    decreases t
  {
    VisitAllOnce(t.children, t.name, pred);
    NamesExtendAll(t.children, t.name);
    AttachedNamesAll(t.children, t.name);
    if u in VisitAll(t.children, pred) {
      VisitAllAttached(t.children, t.name, pred, u, e);
    }
  }

  lemma {:induction false} VisitAllAttached(nodes: seq<Node>, parent: Name, pred: Selector, u: Node, e: nat)
    requires WellNamedAll(nodes, parent) && DistinctNames(nodes) && u in VisitAll(nodes, pred)
    ensures (u.name, e) in AttachedAll(nodes) <==> e in u.pitEntries
    decreases nodes
  {
    var first, rest := nodes[0], nodes[1..];
    VisitOnce(first, pred);
    VisitAllOnce(rest, parent, pred);
    NamesExtend(first);
    AttachedNames(first, u.name);
    AttachedNamesAll(rest, u.name);
    if u in Visit(first, pred) {
      VisitAttached(first, pred, u, e);
      LaterChildren(rest, parent, first.name, u.name);
    } else {
      VisitAllAttached(rest, parent, pred, u, e);
      var k :| 0 <= k < |rest| && rest[k].name <= u.name;
      ChildLength(rest, parent, k);
      assert nodes[k + 1] == rest[k];
      if first.name <= u.name { OtherChild(first.name, rest[k].name, u.name, u.name); }
    }
  }

  lemma {:induction false} PitEntryMember(nodes: seq<Node>, e: nat)
    ensures e in PitEntriesOf(nodes) <==> exists u :: u in nodes && e in u.pitEntries
  {
    if nodes != [] {
      PitEntryMember(nodes[..|nodes| - 1], e);
      assert nodes == nodes[..|nodes| - 1] + [nodes[|nodes| - 1]];
    }
  }

  /** The PIT entries found in a subtree are attached to it. */
  lemma {:induction false} FindAttached(t: Node, prefix: Name, n: Name, e: nat)
    requires WellNamed(t) && Find(t, prefix).Some? && prefix <= n
    ensures (n, e) in Attached(t) <==> (n, e) in Attached(Find(t, prefix).value)
    decreases t
  {
    if t.name != prefix {
      FoundExtends(t, prefix);
      FindAttachedAll(t.children, t.name, prefix, n, e);
    }
  }

  lemma {:induction false} FindAttachedAll(nodes: seq<Node>, parent: Name, prefix: Name, n: Name, e: nat)
    requires WellNamedAll(nodes, parent) && DistinctNames(nodes) && FindAll(nodes, prefix).Some? && prefix <= n
    ensures (n, e) in AttachedAll(nodes) <==> (n, e) in Attached(FindAll(nodes, prefix).value)
    decreases nodes
  {
    var first, rest := nodes[0], nodes[1..];
    AttachedNames(first, n);
    AttachedNamesAll(rest, n);
    NamesExtend(first);
    if Find(first, prefix).Some? {
      FindAttached(first, prefix, n, e);
      FoundExtends(first, prefix);
      LaterChildren(rest, parent, first.name, n);
    } else {
      FindAttachedAll(rest, parent, prefix, n, e);
      FoundBelow(rest, parent, prefix);
      var i :| 0 <= i < |rest| && rest[i].name <= prefix;
      ChildLength(rest, parent, i);
      assert nodes[i + 1] == rest[i];
      if first.name <= n { OtherChild(first.name, rest[i].name, n, n); }
    }
  }

  /** Every PIT entry is attached to one node, once. */
  predicate EntriesUnique(nodes: seq<Node>)
  {
    && (forall i :: 0 <= i < |nodes| ==> Distinct(nodes[i].pitEntries))
    && (forall i, j, e :: 0 <= i < j < |nodes| && e in nodes[i].pitEntries ==> e !in nodes[j].pitEntries)
  }

  lemma DistinctConcat(a: seq<nat>, b: seq<nat>)
    requires Distinct(a) && Distinct(b) && forall e :: e in b ==> e !in a
    ensures Distinct(a + b)
  {
    forall i, j | 0 <= i < j < |a + b| ensures (a + b)[i] != (a + b)[j] {
      if i < |a| <= j { assert (a + b)[j] in b; }
    }
  }

  lemma {:induction false} NoEntryTwice(nodes: seq<Node>)
    requires EntriesUnique(nodes)
    ensures Distinct(PitEntriesOf(nodes))
  {
    if nodes != [] {
      var last := |nodes| - 1;
      var front := nodes[..last];
      NoEntryTwice(front);
      forall e | e in nodes[last].pitEntries ensures e !in PitEntriesOf(front) {
        PitEntryMember(front, e);
        forall i | 0 <= i < |front| ensures e !in front[i].pitEntries { assert front[i] == nodes[i]; }
      }
      DistinctConcat(PitEntriesOf(front), nodes[last].pitEntries);
    }
  }

  /** A PIT entry is attached under one name only, and only once there. */
  ghost predicate PitConsistent(root: Node)
  {
    && (forall n, m, e :: (n, e) in Attached(root) && (m, e) in Attached(root) ==> n == m)
    && (forall u :: u in Visit(root, _ => Want(true, true)) ==> Distinct(u.pitEntries))
  }

  lemma {:induction false} VisitedIsNode(t: Node, pred: Selector, u: Node)
    requires u in Visit(t, pred)
    ensures u in Visit(t, _ => Want(true, true))
    decreases t
  {
    if u in VisitAll(t.children, pred) { VisitedIsNodeAll(t.children, pred, u); }
  }

  lemma {:induction false} VisitedIsNodeAll(nodes: seq<Node>, pred: Selector, u: Node)
    requires u in VisitAll(nodes, pred)
    ensures u in VisitAll(nodes, _ => Want(true, true))
    decreases nodes
  {
    if u in Visit(nodes[0], pred) { VisitedIsNode(nodes[0], pred, u); }
    if u in VisitAll(nodes[1..], pred) { VisitedIsNodeAll(nodes[1..], pred, u); }
  }

  lemma {:induction false} FoundIsSubtree(t: Node, name: Name, u: Node)
    requires Find(t, name).Some? && u in Visit(Find(t, name).value, _ => Want(true, true))
    ensures u in Visit(t, _ => Want(true, true))
    decreases t
  {
    if t.name != name { FoundIsSubtreeAll(t.children, name, u); }
  }

  lemma {:induction false} FoundIsSubtreeAll(nodes: seq<Node>, name: Name, u: Node)
    requires FindAll(nodes, name).Some? && u in Visit(FindAll(nodes, name).value, _ => Want(true, true))
    ensures u in VisitAll(nodes, _ => Want(true, true))
    decreases nodes
  {
    if Find(nodes[0], name).Some? {
      FoundIsSubtree(nodes[0], name, u);
    } else {
      FoundIsSubtreeAll(nodes[1..], name, u);
    }
  }

  /** The PIT entries that onNewNextHop() notifies the strategy about are exactly those attached to a node
      whose longest FIB prefix is the given prefix. */
  lemma NotifiedEntries(root: Node, prefix: Name, e: nat)
    requires WellNamed(root) && prefix in FibNames(root)
    ensures e in PitEntriesOf(Affected(root, prefix))
            <==> exists n :: (n, e) in Attached(root) && IsLongestPrefix(FibNames(root), n, prefix)
  {
    FindSubtree(root, prefix);
    var pred, t := NewNextHopSelector(prefix), Find(root, prefix).value;
    PitEntryMember(Affected(root, prefix), e);
    VisitOnce(t, pred);
    if u :| u in Visit(t, pred) && e in u.pitEntries {
      VisitAttached(t, pred, u, e);
      FindAttached(root, prefix, u.name, e);
      EnumerationIsLongestPrefixMatch(root, prefix, u.name);
      assert Visited(Affected(root, prefix), u.name);
    }
    if n :| (n, e) in Attached(root) && IsLongestPrefix(FibNames(root), n, prefix) {
      AttachedNames(root, n);
      EnumerationIsLongestPrefixMatch(root, prefix, n);
      var u :| u in Affected(root, prefix) && u.name == n;
      FindAttached(root, prefix, n, e);
      VisitAttached(t, pred, u, e);
    }
  }

  /** No PIT entry is notified twice. */
  lemma NotifiedOnce(root: Node, prefix: Name)
    requires WellNamed(root) && prefix in FibNames(root) && PitConsistent(root)
    ensures Distinct(PitEntriesOf(Affected(root, prefix)))
  {
    FindSubtree(root, prefix);
    var pred, t := NewNextHopSelector(prefix), Find(root, prefix).value;
    var nodes := Visit(t, pred);
    VisitOnce(t, pred);
    forall i | 0 <= i < |nodes| ensures Distinct(nodes[i].pitEntries) {
      VisitedIsNode(t, pred, nodes[i]);
      FoundIsSubtree(root, prefix, nodes[i]);
    }
    forall i, j, e | 0 <= i < j < |nodes| && e in nodes[i].pitEntries ensures e !in nodes[j].pitEntries {
      if e in nodes[j].pitEntries {
        assert nodes[i] in nodes && nodes[j] in nodes;
        VisitAttached(t, pred, nodes[i], e);
        VisitAttached(t, pred, nodes[j], e);
        FindAttached(root, prefix, nodes[i].name, e);
        FindAttached(root, prefix, nodes[j].name, e);
        assert false;
      }
    }
    NoEntryTwice(nodes);
  }

  // ---------------------------------------------------------------- the iterator

  /** A position in the subtree under the starting node: the child index taken at every level. */
  type Path = seq<nat>

  predicate ValidPath(t: Node, p: Path)
    decreases |p|, 0
  {
    p != [] ==> ValidPath(t, p[..|p| - 1]) && p[|p| - 1] < |NodeAt(t, p[..|p| - 1]).children|
  }

  function NodeAt(t: Node, p: Path): Node
    requires ValidPath(t, p)
    decreases |p|, 1
  {
    if p == [] then t else NodeAt(t, p[..|p| - 1]).children[p[|p| - 1]]
  }

  /** What is visited after the subtree at `p` is done. */
  function After(t: Node, p: Path, pred: Selector): seq<Node>
    requires ValidPath(t, p)
  {
    if p == [] then []
    else
      var parent := p[..|p| - 1];
      VisitAll(NodeAt(t, parent).children[p[|p| - 1] + 1..], pred) + After(t, parent, pred)
  }

  /** What is visited after the node at `p` itself. */
  function Rest(t: Node, p: Path, wantChildren: bool, pred: Selector): seq<Node>
    requires ValidPath(t, p)
  {
    (if wantChildren then VisitAll(NodeAt(t, p).children, pred) else []) + After(t, p, pred)
  }

  /** Steps that the traversal can still take at most, for termination. */
  function Weight(t: Node): nat
    decreases t
  {
    2 + WeightAll(t.children)
  }

  function WeightAll(nodes: seq<Node>): nat
    decreases nodes
  {
    if nodes == [] then 0 else Weight(nodes[0]) + WeightAll(nodes[1..])
  }

  function WeightAfter(t: Node, p: Path): nat
    requires ValidPath(t, p)
  {
    if p == [] then 0
    else
      var parent := p[..|p| - 1];
      1 + WeightAll(NodeAt(t, parent).children[p[|p| - 1] + 1..]) + WeightAfter(t, parent)
  }

  function StepsLeft(t: Node, p: Path, wantChildren: bool): nat
    requires ValidPath(t, p)
  {
    (if wantChildren then WeightAll(NodeAt(t, p).children) else 0) + WeightAfter(t, p)
  }

  /** The subtrees from child `k` on are the subtree of child `k` and those after it. */
  lemma VisitFrom(nodes: seq<Node>, k: nat, pred: Selector)
    requires k < |nodes|
    ensures VisitAll(nodes[k..], pred) == Visit(nodes[k], pred) + VisitAll(nodes[k + 1..], pred)
    ensures WeightAll(nodes[k..]) == Weight(nodes[k]) + WeightAll(nodes[k + 1..])
  {
    assert nodes[k..][1..] == nodes[k + 1..];
  }

  /** What is visited from child `k` of the node at `p` on. */
  function Later(t: Node, p: Path, k: nat, pred: Selector): seq<Node>
    requires ValidPath(t, p) && k <= |NodeAt(t, p).children|
  {
    VisitAll(NodeAt(t, p).children[k..], pred) + After(t, p, pred)
  }

  function LaterSteps(t: Node, p: Path, k: nat): nat
    requires ValidPath(t, p) && k <= |NodeAt(t, p).children|
  {
    WeightAll(NodeAt(t, p).children[k..]) + WeightAfter(t, p)
  }

  lemma ChildPath(t: Node, p: Path, k: nat)
    requires ValidPath(t, p) && k < |NodeAt(t, p).children|
    ensures ValidPath(t, p + [k]) && NodeAt(t, p + [k]) == NodeAt(t, p).children[k]
  {
    assert (p + [k])[..|p|] == p;
  }

  lemma AfterChild(t: Node, p: Path, k: nat, pred: Selector)
    requires ValidPath(t, p) && k < |NodeAt(t, p).children|
    ensures ValidPath(t, p + [k]) && NodeAt(t, p + [k]) == NodeAt(t, p).children[k]
    ensures After(t, p + [k], pred) == Later(t, p, k + 1, pred)
    ensures WeightAfter(t, p + [k]) == 1 + LaterSteps(t, p, k + 1)
  {
    ChildPath(t, p, k);
    ChildAfter(t, p, p + [k], k, pred);
  }

  lemma ChildAfter(t: Node, p: Path, q: Path, k: nat, pred: Selector)
    requires ValidPath(t, p) && k < |NodeAt(t, p).children| && q == p + [k] && ValidPath(t, q)
    ensures After(t, q, pred) == Later(t, p, k + 1, pred) && WeightAfter(t, q) == 1 + LaterSteps(t, p, k + 1)
  {
    assert q[..|p|] == p && q[|p|] == k;
  }

  lemma LaterFrom(t: Node, p: Path, k: nat, pred: Selector)
    requires ValidPath(t, p) && k < |NodeAt(t, p).children|
    ensures Later(t, p, k, pred) == Visit(NodeAt(t, p).children[k], pred) + Later(t, p, k + 1, pred)
    ensures LaterSteps(t, p, k) == Weight(NodeAt(t, p).children[k]) + LaterSteps(t, p, k + 1)
  {
    VisitFrom(NodeAt(t, p).children, k, pred);
    Associate(Visit(NodeAt(t, p).children[k], pred), VisitAll(NodeAt(t, p).children[k + 1..], pred), After(t, p, pred));
  }

  lemma VisitThen(t: Node, pred: Selector, later: seq<Node>)
    ensures var want := pred(t);
            var rest := (if want.children then VisitAll(t.children, pred) else []) + later;
            Visit(t, pred) + later == if want.self then [t] + rest else rest
  {
    var want := pred(t);
    var below := if want.children then VisitAll(t.children, pred) else [];
    if want.self {
      Associate([t], below, later);
    } else {
      assert [] + below == below;
    }
  }

  /** Going on to child `k`: what the selector says about it decides. */
  lemma EnterChild(t: Node, p: Path, k: nat, pred: Selector)
    requires ValidPath(t, p) && k < |NodeAt(t, p).children|
    ensures ValidPath(t, p + [k]) && NodeAt(t, p + [k]) == NodeAt(t, p).children[k]
    ensures var child := NodeAt(t, p).children[k];
            var want := pred(child);
            var rest := Rest(t, p + [k], want.children, pred);
            && Later(t, p, k, pred) == (if want.self then [child] + rest else rest)
            && StepsLeft(t, p + [k], want.children) < LaterSteps(t, p, k)
  {
    AfterChild(t, p, k, pred);
    LaterFrom(t, p, k, pred);
    VisitThen(NodeAt(t, p).children[k], pred, Later(t, p, k + 1, pred));
  }

  lemma SkipChild(t: Node, p: Path, k: nat, pred: Selector)
    requires ValidPath(t, p) && k < |NodeAt(t, p).children| && pred(NodeAt(t, p).children[k]) == Want(false, false)
    ensures Later(t, p, k, pred) == Later(t, p, k + 1, pred) && LaterSteps(t, p, k + 1) <= LaterSteps(t, p, k)
  {
    LaterFrom(t, p, k, pred);
    assert Visit(NodeAt(t, p).children[k], pred) == [];
  }

  lemma NoMoreChild(t: Node, p: Path, pred: Selector)
    requires ValidPath(t, p)
    ensures var k := |NodeAt(t, p).children|;
            Later(t, p, k, pred) == Rest(t, p, false, pred) && LaterSteps(t, p, k) == StepsLeft(t, p, false)
  {
    assert NodeAt(t, p).children[|NodeAt(t, p).children|..] == [];
  }

  lemma Associate(a: seq<Node>, b: seq<Node>, c: seq<Node>)
    ensures a + b + c == a + (b + c)
  {
  }

  /** Begin: the iterator before its first advance(); End: after the last. */
  datatype Position = Begin | At(path: Path, wantChildren: bool) | End

  ghost predicate Fits(t: Node, pos: Position)
  {
    pos.At? ==> ValidPath(t, pos.path)
  }

  /** What is still to be visited from a position. */
  ghost function Remaining(t: Node, pos: Position, pred: Selector): seq<Node>
    requires Fits(t, pos)
  {
    match pos
    case Begin => Visit(t, pred)
    case At(p, wantChildren) => Rest(t, p, wantChildren, pred)
    case End => []
  }

  /** advance() took the iterator from a position with `todo` left to `pos`. */
  ghost predicate Advanced(t: Node, pred: Selector, todo: seq<Node>, pos: Position)
  {
    && Fits(t, pos) && pos != Begin
    && (if todo == [] then pos == End
        else pos.At? && NodeAt(t, pos.path) == todo[0] && Remaining(t, pos, pred) == todo[1..])
  }

  lemma FirstChild(t: Node, p: Path, pred: Selector)
    requires ValidPath(t, p)
    ensures Rest(t, p, true, pred) == Later(t, p, 0, pred) && StepsLeft(t, p, true) == LaterSteps(t, p, 0)
  {
    assert NodeAt(t, p).children[0..] == NodeAt(t, p).children;
  }

  lemma LeaveNode(t: Node, p: Path, wantChildren: bool, pred: Selector)
    requires ValidPath(t, p) && p != [] && (wantChildren ==> NodeAt(t, p).children == [])
    ensures var parent, k := p[..|p| - 1], p[|p| - 1] + 1;
            Rest(t, p, wantChildren, pred) == Later(t, parent, k, pred) &&
              LaterSteps(t, parent, k) < StepsLeft(t, p, wantChildren)
  {
  }

  /** Children `k` to `sibling` were neither visited nor entered. */
  ghost predicate Skipped(t: Node, parent: Path, k: nat, pred: Selector, sibling: nat)
    requires ValidPath(t, parent) && k <= |NodeAt(t, parent).children|
  {
    && k <= sibling <= |NodeAt(t, parent).children|
    && Later(t, parent, k, pred) == Later(t, parent, sibling, pred)
    && LaterSteps(t, parent, sibling) <= LaterSteps(t, parent, k)
  }

  /** From child `k` of the node at `parent` the traversal got to `path` without visiting a node. */
  ghost predicate Moved(t: Node, parent: Path, k: nat, pred: Selector, path: Path, wantChildren: bool)
    requires ValidPath(t, parent) && k <= |NodeAt(t, parent).children|
  {
    && ValidPath(t, path) && Later(t, parent, k, pred) == Rest(t, path, wantChildren, pred)
    && StepsLeft(t, path, wantChildren) <= LaterSteps(t, parent, k)
  }

  lemma SiblingStep(t: Node, parent: Path, k: nat, pred: Selector, sibling: nat)
    requires ValidPath(t, parent) && k <= |NodeAt(t, parent).children| && Skipped(t, parent, k, pred, sibling)
    requires sibling < |NodeAt(t, parent).children|
    ensures var want := pred(NodeAt(t, parent).children[sibling]);
            if want.self then Advanced(t, pred, Later(t, parent, k, pred), At(parent + [sibling], want.children))
            else if want.children then Moved(t, parent, k, pred, parent + [sibling], true)
            else Skipped(t, parent, k, pred, sibling + 1)
  {
    EnterChild(t, parent, sibling, pred);
    var want := pred(NodeAt(t, parent).children[sibling]);
    if !want.self && !want.children { SkipChild(t, parent, sibling, pred); }
  }

  lemma SiblingsDone(t: Node, parent: Path, k: nat, pred: Selector)
    requires ValidPath(t, parent) && k <= |NodeAt(t, parent).children|
    requires Skipped(t, parent, k, pred, |NodeAt(t, parent).children|)
    ensures Moved(t, parent, k, pred, parent, false)
  {
    NoMoreChild(t, parent, pred);
  }

  /** From this point of the traversal, `todo` is what will be visited. */
  ghost predicate AtWith(t: Node, path: Path, wantChildren: bool, pred: Selector, todo: seq<Node>)
  {
    ValidPath(t, path) && Rest(t, path, wantChildren, pred) == todo
  }

  lemma ChildStep(t: Node, path: Path, pred: Selector, todo: seq<Node>)
    requires AtWith(t, path, true, pred, todo) && NodeAt(t, path).children != []
    ensures var want := pred(NodeAt(t, path).children[0]);
            if want.self then Advanced(t, pred, todo, At(path + [0], want.children))
            else AtWith(t, path + [0], want.children, pred, todo)
                 && StepsLeft(t, path + [0], want.children) < StepsLeft(t, path, true)
  {
    FirstChild(t, path, pred);
    EnterChild(t, path, 0, pred);
  }

  lemma SiblingsStep(t: Node, path: Path, wantChildren: bool, pred: Selector, todo: seq<Node>,
                     found: bool, next: Path, wantNext: bool)
    requires AtWith(t, path, wantChildren, pred, todo) && path != [] &&
             (wantChildren ==> NodeAt(t, path).children == [])
    requires var parent, k := path[..|path| - 1], path[|path| - 1] + 1;
             if found then Advanced(t, pred, Later(t, parent, k, pred), At(next, wantNext))
             else Moved(t, parent, k, pred, next, wantNext)
    ensures if found then Advanced(t, pred, todo, At(next, wantNext))
            else
              AtWith(t, next, wantNext, pred, todo) && StepsLeft(t, next, wantNext) < StepsLeft(t, path, wantChildren)
  {
    LeaveNode(t, path, wantChildren, pred);
  }

  lemma TraverseEnd(t: Node, wantChildren: bool, pred: Selector, todo: seq<Node>)
    requires AtWith(t, [], wantChildren, pred, todo) && (wantChildren ==> t.children == [])
    ensures Advanced(t, pred, todo, End)
  {
  }

  lemma BeginVisit(t: Node, pred: Selector)
    ensures var want := pred(t); Visit(t, pred) == (if want.self then [t] else []) + Rest(t, [], want.children, pred)
  {
  }

  class PartialEnumeration {
    const start: Node       // the node the enumeration starts from
    const pred: Selector
    var pos: Position

    constructor (start: Node, pred: Selector)
      ensures this.start == start && this.pred == pred && pos == Begin
    {
      this.start, this.pred, pos := start, pred, Begin;
    }

    /** The loop over the siblings of `parent`'s children from child `k` on. */
    method NextSibling(parent: Path, k: nat) returns (found: bool, path: Path, wantChildren: bool)
      requires ValidPath(start, parent) && k <= |NodeAt(start, parent).children|
      ensures found ==> Advanced(start, pred, Later(start, parent, k, pred), At(path, wantChildren))
      ensures !found ==> Moved(start, parent, k, pred, path, wantChildren)
    {
      var siblings := NodeAt(start, parent).children;
      var sibling := k;
      while sibling < |siblings|
        invariant Skipped(start, parent, k, pred, sibling)
      {
        SiblingStep(start, parent, k, pred, sibling);
        var want := pred(siblings[sibling]);
        if want.self { // visit sibling
          return true, parent + [sibling], want.children;
        }
        if want.children { // let the outer loop process its children
          return false, parent + [sibling], true;
        }
        sibling := sibling + 1;
      }
      SiblingsDone(start, parent, k, pred);
      return false, parent, false; // no more sibling
    }

    /** The loop of advance(). */
    method Traverse(p: Path, wc: bool)
      requires ValidPath(start, p)
      modifies this`pos
      ensures Advanced(start, pred, Rest(start, p, wc, pred), pos)
    {
      var path, wantChildren := p, wc;
      ghost var todo := Rest(start, p, wc, pred);
      while path != [] || (wantChildren && NodeAt(start, path).children != [])
        invariant AtWith(start, path, wantChildren, pred, todo)
        decreases StepsLeft(start, path, wantChildren)
      {
        if wantChildren && NodeAt(start, path).children != [] { // process children
          ChildStep(start, path, pred, todo);
          var want := pred(NodeAt(start, path).children[0]);
          path, wantChildren := path + [0], want.children;
          if want.self { // visit first child
            pos := At(path, wantChildren);
            return;
          }
        } else { // process siblings
          var found, next, wantNext := NextSibling(path[..|path| - 1], path[|path| - 1] + 1);
          SiblingsStep(start, path, wantChildren, pred, todo, found, next, wantNext);
          path, wantChildren := next, wantNext;
          if found {
            pos := At(path, wantChildren);
            return;
          }
        }
      }
      TraverseEnd(start, wantChildren, pred, todo);
      pos := End;
    }

    /** advance() */
    method Advance()
      requires Fits(start, pos) && pos != End
      modifies this`pos
      ensures Advanced(start, pred, Remaining(start, old(pos), pred), pos)
    {
      if pos == Begin {
        var want := pred(start);
        BeginVisit(start, pred);
        if want.self { // visit root
          pos := At([], want.children);
          return;
        }
        Traverse([], want.children);
      } else {
        Traverse(pos.path, pos.wantChildren);
      }
    }
  }

  lemma MoveOne(done: seq<Node>, todo: seq<Node>)
    requires todo != []
    ensures (done + [todo[0]]) + todo[1..] == done + todo
  {
  }

  /** The range-based loop over the enumeration: the nodes come in the order of the recursive definition. */
  method Enumerate(start: Option<Node>, pred: Selector) returns (nodes: seq<Node>)
    ensures nodes == if start.Some? then Visit(start.value, pred) else []
  {
    nodes := [];
    if start.None? { // root does not exist
      return;
    }
    var it := new PartialEnumeration(start.value, pred);
    it.Advance();
    ghost var todo := Visit(start.value, pred);
    while it.pos != End
      invariant Advanced(start.value, pred, todo, it.pos) && nodes + todo == Visit(start.value, pred)
      invariant it.start == start.value && it.pred == pred
      decreases |todo|
    {
      MoveOne(nodes, todo);
      nodes := nodes + [NodeAt(start.value, it.pos.path)];
      todo := todo[1..];
      it.Advance();
    }
  }

  method CollectPitEntries(nodes: seq<Node>) returns (pitEntries: seq<nat>)
    ensures pitEntries == PitEntriesOf(nodes)
  {
    pitEntries := [];
    for i := 0 to |nodes|
      invariant pitEntries == PitEntriesOf(nodes[..i])
    {
      assert nodes[..i + 1][..i] == nodes[..i];
      pitEntries := pitEntries + nodes[i].pitEntries;
    }
    assert nodes[..|nodes|] == nodes;
  }

  /** onNewNextHop(): the PIT entries that afterNewNextHop() is called for, in order. */
  method OnNewNextHop(root: Node, prefix: Name) returns (pitEntries: seq<nat>)
    ensures pitEntries == PitEntriesOf(Affected(root, prefix))
  {
    var affectedEntries := Enumerate(Find(root, prefix), NewNextHopSelector(prefix));
    pitEntries := CollectPitEntries(affectedEntries);
  }
}
