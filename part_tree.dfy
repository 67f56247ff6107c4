/** The MIME tree as an arena: node i of `parts` is a part, and its
    `child` and `next` fields hold arena indices.  Index 0 is the mail
    (the root part) whenever the arena is not empty. */
module PartTree {
  import opened MimeTypes

  predicate LinkOk(parts: seq<Part>, i: nat, link: Option<nat>) {
    link.Some? ==> i < link.value < |parts|
  }

  /** Per-node invariants: links point forward inside the arena, so no
      walk along `child`/`next` can come back to a node; a part has a body
      or a child but not both (I1); mediatype and boundary are set exactly
      when the child is (I2). */
  predicate PartOk(parts: seq<Part>, i: nat)
    requires i < |parts|
  {
    var p := parts[i];
    LinkOk(parts, i, p.child) && LinkOk(parts, i, p.next) &&
    (p.child.Some? && p.next.Some? ==> p.child != p.next) &&
    !(p.body.Some? && p.child.Some?) &&
    (p.mediatype.Some? <==> p.child.Some?) &&
    (p.boundary.Some? <==> p.child.Some?)
  }

  predicate WellFormed(parts: seq<Part>) {
    forall i :: 0 <= i < |parts| ==> PartOk(parts, i)
  }

  /** The nodes a part links to. */
  function Targets(p: Part): set<nat> {
    (if p.child.Some? then {p.child.value} else {}) + (if p.next.Some? then {p.next.value} else {})
  }

  /** No node is linked from two places: the links form a tree (I3). */
  predicate SingleOwner(parts: seq<Part>) {
    forall i, j :: 0 <= i < j < |parts| ==> Targets(parts[i]) !! Targets(parts[j])
  }

  predicate IsTree(parts: seq<Part>) {
    WellFormed(parts) && SingleOwner(parts)
  }

  /** X lies on the sibling chain that starts at NODE. */
  ghost predicate InChain(parts: seq<Part>, node: Option<nat>, x: nat)
    decreases if node.Some? && node.value < |parts| then |parts| - node.value else 0
  {
    node.Some? && node.value < |parts| &&
    (node.value == x ||
     (var nx := parts[node.value].next;
      nx.Some? && node.value < nx.value < |parts| && InChain(parts, nx, x)))
  }

  lemma {:induction false} InChainAfter(parts: seq<Part>, node: Option<nat>, x: nat)
    requires InChain(parts, node, x)
    ensures node.Some? && node.value <= x < |parts|
    decreases |parts| - node.value
  {
    if node.value != x {
      InChainAfter(parts, parts[node.value].next, x);
    }
  }

  /** parentOf[i] is the container whose child chain holds node i, for
      every node but the root. */
  ghost predicate ParentsKnown(parts: seq<Part>, parentOf: seq<nat>) {
    |parentOf| == |parts| &&
    forall i :: 0 < i < |parts| ==> parentOf[i] < i && InChain(parts, parts[parentOf[i]].child, i)
  }

  /** find_parent: search the subtree below ROOT for the container whose
      child chain holds NEEDLE.  A part it returns has an index at or
      after ROOT and before NEEDLE, and holds NEEDLE on its child chain. */
  function FindParent(parts: seq<Part>, root: nat, needle: nat): (r: Option<nat>)
    requires WellFormed(parts) && root < |parts|
    ensures r.Some? ==>
              root <= r.value < needle && r.value < |parts| &&
              InChain(parts, parts[r.value].child, needle)
    decreases |parts| - root, 0
  {
    assert PartOk(parts, root);
    FindInChain(parts, root, parts[root].child, needle)
  }

  /** The loop of find_parent over the chain starting at NODE: ROOT is
      returned when NODE's chain holds NEEDLE itself, a deeper container
      when one of the chain's subtrees does. */
  function FindInChain(parts: seq<Part>, root: nat, node: Option<nat>, needle: nat): (r: Option<nat>)
    requires WellFormed(parts) && root < |parts|
    requires node.Some? ==> root < node.value < |parts|
    ensures r.Some? ==>
              root <= r.value < needle && r.value < |parts| &&
              (r.value == root ==> InChain(parts, node, needle)) &&
              (r.value != root ==> InChain(parts, parts[r.value].child, needle))
    decreases if node.Some? then |parts| - node.value else 0, 1
  {
    if node.None? then None
    else if node.value == needle then Some(root)
    else
      assert PartOk(parts, node.value);
      match FindParent(parts, node.value, needle)
      case Some(n) => Some(n)
      case None => FindInChain(parts, root, parts[node.value].next, needle)
  }

  /** The root has no parent. */
  lemma RootHasNoParent(parts: seq<Part>)
    requires WellFormed(parts) && |parts| > 0
    ensures FindParent(parts, 0, 0).None?
  {
  }

  /** R is a proper ancestor of X through parentOf. */
  ghost predicate IsAncestor(parentOf: seq<nat>, r: nat, x: nat)
    decreases x
  {
    x < |parentOf| && r < x &&
    (parentOf[x] == r || (parentOf[x] < x && IsAncestor(parentOf, r, parentOf[x])))
  }

  lemma {:induction false} RootIsAncestor(parts: seq<Part>, parentOf: seq<nat>, x: nat)
    requires ParentsKnown(parts, parentOf) && 0 < x < |parts|
    ensures IsAncestor(parentOf, 0, x)
    decreases x
  {
    if parentOf[x] != 0 {
      RootIsAncestor(parts, parentOf, parentOf[x]);
    }
  }

  /** The child of R on the ancestry path of X. */
  lemma {:induction false} TopStep(parts: seq<Part>, parentOf: seq<nat>, r: nat, x: nat) returns (m: nat)
    requires ParentsKnown(parts, parentOf) && IsAncestor(parentOf, r, x)
    ensures r < m <= x && parentOf[m] == r && (m == x || IsAncestor(parentOf, m, x))
    decreases x
  {
    if parentOf[x] == r {
      m := x;
    } else {
      m := TopStep(parts, parentOf, r, parentOf[x]);
    }
  }

  lemma {:induction false} ChainReaches(parts: seq<Part>, root: nat, node: Option<nat>, m: nat, needle: nat)
    requires WellFormed(parts) && root < |parts|
    requires node.Some? ==> root < node.value < |parts|
    requires InChain(parts, node, m) && m < |parts|
    requires m == needle || FindParent(parts, m, needle).Some?
    ensures FindInChain(parts, root, node, needle).Some?
    decreases if node.Some? then |parts| - node.value else 0
  {
    var n := node.value;
    if n != needle && FindParent(parts, n, needle).None? {
      ChainReaches(parts, root, parts[n].next, m, needle);
    }
  }

  lemma {:induction false} FindParentComplete(parts: seq<Part>, parentOf: seq<nat>, r: nat, x: nat)
    requires WellFormed(parts) && ParentsKnown(parts, parentOf) && r < |parts|
    requires IsAncestor(parentOf, r, x)
    ensures FindParent(parts, r, x).Some?
    decreases x - r
  {
    var m := TopStep(parts, parentOf, r, x);
    assert PartOk(parts, r);
    InChainAfter(parts, parts[r].child, m);
    if m != x {
      FindParentComplete(parts, parentOf, m, x);
    }
    ChainReaches(parts, r, parts[r].child, m, x);
  }

  /** Searching from the root finds a parent for every node except the
      root itself. */
  lemma ParentFoundIffNotRoot(parts: seq<Part>, parentOf: seq<nat>, x: nat)
    requires WellFormed(parts) && ParentsKnown(parts, parentOf) && x < |parts|
    ensures FindParent(parts, 0, x).None? <==> x == 0
  {
    if x == 0 {
      RootHasNoParent(parts);
    } else {
      RootIsAncestor(parts, parentOf, x);
      FindParentComplete(parts, parentOf, 0, x);
    }
  }

  // ---- Updates of the arena made by the builder ----

  /** add_header's helper: append a header to part P. */
  function WithHeader(parts: seq<Part>, p: nat, h: Header): (r: seq<Part>)
    requires p < |parts|
    ensures |r| == |parts| && r[p].headers == parts[p].headers + [h]
    ensures r[p].(headers := parts[p].headers) == parts[p]
    ensures forall i :: 0 <= i < |parts| && i != p ==> r[i] == parts[i]
  {
    parts[p := parts[p].(headers := parts[p].headers + [h])]
  }

  /** A fresh empty sibling linked as C's `next`. */
  function WithSibling(parts: seq<Part>, c: nat): (r: seq<Part>)
    requires c < |parts|
  {
    parts[c := parts[c].(next := Some(|parts|))] + [EmptyPart]
  }

  /** C turned into a container whose first child is a fresh empty part. */
  function WithContainer(parts: seq<Part>, c: nat, mediatype: string, boundary: string): (r: seq<Part>)
    requires c < |parts|
  {
    parts[c := parts[c].(child := Some(|parts|), mediatype := Some(mediatype), boundary := Some(boundary))] + [EmptyPart]
  }

  /** Every link of P is still present in Q. */
  ghost predicate LinksKept(p: seq<Part>, q: seq<Part>) {
    |p| <= |q| &&
    forall i :: 0 <= i < |p| ==>
      (p[i].next.Some? ==> q[i].next == p[i].next) &&
      (p[i].child.Some? ==> q[i].child == p[i].child)
  }

  lemma {:induction false} InChainKept(p: seq<Part>, q: seq<Part>, node: Option<nat>, x: nat)
    requires LinksKept(p, q) && InChain(p, node, x)
    ensures InChain(q, node, x)
    decreases |p| - node.value
  {
    if node.value != x {
      InChainKept(p, q, p[node.value].next, x);
    }
  }

  lemma {:induction false} InChainStep(parts: seq<Part>, node: Option<nat>, c: nat, n: nat)
    requires InChain(parts, node, c) && c < n < |parts| && parts[c].next == Some(n)
    ensures InChain(parts, node, n)
    decreases |parts| - node.value
  {
    if node.value != c {
      InChainStep(parts, parts[node.value].next, c, n);
    }
  }

  lemma ParentsKept(p: seq<Part>, q: seq<Part>, parentOf: seq<nat>)
    requires ParentsKnown(p, parentOf) && LinksKept(p, q) && |q| == |p|
    ensures ParentsKnown(q, parentOf)
  {
    forall i | 0 < i < |q| ensures InChain(q, q[parentOf[i]].child, i) {
      InChainKept(p, q, p[parentOf[i]].child, i);
    }
  }

  /** Changing a part's headers or body keeps the tree and the parents. */
  lemma ContentChangeKeepsTree(p: seq<Part>, q: seq<Part>, parentOf: seq<nat>, k: nat)
    requires IsTree(p) && ParentsKnown(p, parentOf) && k < |p| && |q| == |p|
    requires forall i :: 0 <= i < |p| && i != k ==> q[i] == p[i]
    requires q[k].child == p[k].child && q[k].next == p[k].next
    requires q[k].mediatype == p[k].mediatype && q[k].boundary == p[k].boundary
    requires p[k].child.Some? ==> q[k].body.None?
    ensures IsTree(q) && ParentsKnown(q, parentOf)
  {
    assert forall i :: 0 <= i < |p| ==> Targets(q[i]) == Targets(p[i]);
    assert forall i :: 0 <= i < |q| ==> PartOk(q, i) by {
      forall i | 0 <= i < |q| ensures PartOk(q, i) {
        assert PartOk(p, i);
      }
    }
    ParentsKept(p, q, parentOf);
  }

  lemma SiblingKeepsTree(parts: seq<Part>, parentOf: seq<nat>, c: nat)
    requires IsTree(parts) && ParentsKnown(parts, parentOf)
    requires 0 < c < |parts| && parts[c].next.None?
    ensures IsTree(WithSibling(parts, c))
    ensures ParentsKnown(WithSibling(parts, c), parentOf + [parentOf[c]])
  {
    var q := WithSibling(parts, c);
    var n := |parts|;
    assert forall i :: 0 <= i < n && i != c ==> q[i] == parts[i];
    assert Targets(q[c]) == Targets(parts[c]) + {n};
    assert Targets(q[n]) == {};
    forall i | 0 <= i < |q| ensures PartOk(q, i) {
      if i < n { assert PartOk(parts, i); }
    }
    forall i, j | 0 <= i < j < |q| ensures Targets(q[i]) !! Targets(q[j]) {
      if j < n {
        assert Targets(parts[i]) !! Targets(parts[j]);
        assert PartOk(parts, i) && PartOk(parts, j);
      } else {
        assert PartOk(parts, i);
      }
    }
    var po := parentOf + [parentOf[c]];
    assert LinksKept(parts, q);
    forall i | 0 < i < |q| ensures po[i] < i && InChain(q, q[po[i]].child, i) {
      if i < n {
        InChainKept(parts, q, parts[parentOf[i]].child, i);
      } else {
        InChainKept(parts, q, parts[parentOf[c]].child, c);
        InChainStep(q, q[po[i]].child, c, n);
      }
    }
  }

  lemma ContainerKeepsTree(parts: seq<Part>, parentOf: seq<nat>, c: nat, mediatype: string, boundary: string)
    requires IsTree(parts) && ParentsKnown(parts, parentOf)
    requires c < |parts| && parts[c].child.None? && parts[c].body.None?
    ensures IsTree(WithContainer(parts, c, mediatype, boundary))
    ensures ParentsKnown(WithContainer(parts, c, mediatype, boundary), parentOf + [c])
  {
    var q := WithContainer(parts, c, mediatype, boundary);
    var n := |parts|;
    assert forall i :: 0 <= i < n && i != c ==> q[i] == parts[i];
    assert Targets(q[c]) == Targets(parts[c]) + {n};
    assert Targets(q[n]) == {};
    forall i | 0 <= i < |q| ensures PartOk(q, i) {
      if i < n { assert PartOk(parts, i); }
    }
    forall i, j | 0 <= i < j < |q| ensures Targets(q[i]) !! Targets(q[j]) {
      if j < n {
        assert Targets(parts[i]) !! Targets(parts[j]);
        assert PartOk(parts, i) && PartOk(parts, j);
      } else {
        assert PartOk(parts, i);
      }
    }
    var po := parentOf + [c];
    assert LinksKept(parts, q);
    forall i | 0 < i < |q| ensures po[i] < i && InChain(q, q[po[i]].child, i) {
      if i < n {
        InChainKept(parts, q, parts[parentOf[i]].child, i);
      }
    }
  }

  // ---- The tree as a nested value ----

  /** A part with its container's parts nested in it, in order. */
  datatype MimeNode = MimeNode(headers: seq<Header>, body: Option<string>, boundary: Option<string>, children: seq<MimeNode>)

  /** The indices on the sibling chain starting at NODE, in order. */
  function Siblings(parts: seq<Part>, node: Option<nat>): (r: seq<nat>)
    requires WellFormed(parts) && (node.Some? ==> node.value < |parts|)
    ensures node.None? <==> r == []
    ensures node.Some? ==> r[0] == node.value
    ensures forall k :: 0 <= k < |r| ==> node.value <= r[k] < |parts|
    decreases if node.Some? then |parts| - node.value else 0
  {
    if node.None? then []
    else
      assert PartOk(parts, node.value);
      [node.value] + Siblings(parts, parts[node.value].next)
  }

  /** The subtree rooted at node I as a nested value. */
  function Abstract(parts: seq<Part>, i: nat): MimeNode
    requires WellFormed(parts) && i < |parts|
    decreases |parts| - i
  {
    assert PartOk(parts, i);
    var cs := Siblings(parts, parts[i].child);
    MimeNode(parts[i].headers, parts[i].body, parts[i].boundary,
             seq(|cs|, k requires 0 <= k < |cs| => Abstract(parts, cs[k])))
  }
}
