/** The progress tree of the running tasks. Each in-run task is a root; its
    children are collections (opened on demand, named by their id) and the
    output files written so far. Events from the engine address a node by the
    list of ids leading to it from the root.

    The window holds these nodes as mutable objects and walks to the addressed
    one with a reference that it moves down the tree. Here a tree is a value,
    and the moving reference is a path of child indices from the root: the walk
    methods below carry that path and rebuild the tree along it. */
module ProgressTree {
  import opened Optional

  datatype Kind = TaskNode | CollectionNode | OutputFileNode

  datatype Node = Node(
    kind: Kind,
    id: string,
    displayName: string,
    status: string,
    progress: int,
    indeterminate: bool,
    children: seq<Node>)

  /** A fresh node: no status text, no progress, no children. */
  function Fresh(kind: Kind, id: string, displayName: string): (n: Node)
    ensures n.kind == kind && n.id == id && n.displayName == displayName
    ensures n.status == "" && n.progress == 0 && !n.indeterminate && n.children == []
  {
    Node(kind, id, displayName, "", 0, false, [])
  }

  /** The node shown for an in-run task; its id is its display name. */
  function NewTask(displayName: string): Node {
    Fresh(TaskNode, displayName, displayName)
  }

  /** A collection node, built from (display name, id). */
  function NewCollection(displayName: string, id: string): Node {
    Fresh(CollectionNode, id, displayName)
  }

  /** An output-file node, built from (full path, display name); its id is the full path. */
  function NewOutputFile(fullPath: string, displayName: string): Node {
    Fresh(OutputFileNode, fullPath, displayName)
  }

  /** Enumerable.First on the children, testing Id: the index of the first
      child whose id is id, or |cs| when there is none (where First throws). */
  function FirstWithId(cs: seq<Node>, id: string): (i: nat)
    ensures i <= |cs|
    ensures i < |cs| ==> cs[i].id == id
    ensures forall k :: 0 <= k < i ==> cs[k].id != id
  {
    if cs == [] then 0
    else if cs[0].id == id then 0
    else 1 + FirstWithId(cs[1..], id)
  }

  /** What an event does to the node it reaches. */
  datatype Update =
    | SetLabel(status: string)
    | SetProgress(status: string, progress: int)
    | AddChild(child: Node)

  function Apply(n: Node, u: Update): (m: Node)
    ensures m.kind == n.kind && m.id == n.id && m.displayName == n.displayName
    ensures u.SetLabel? ==> m == n.(status := u.status, indeterminate := true)
    ensures u.SetProgress? ==> m == n.(status := u.status, indeterminate := false, progress := u.progress)
    ensures u.AddChild? ==> m == n.(children := n.children + [u.child])
  {
    match u
    case SetLabel(s) => n.(status := s, indeterminate := true)
    case SetProgress(s, p) => n.(status := s, indeterminate := false, progress := p)
    case AddChild(c) => n.(children := n.children + [c])
  }

  /** The catch branch of the walk: when no child has the id, a collection
      named by the id is appended, so that the id is then found. */
  function WithChild(n: Node, id: string): (m: Node)
    ensures FirstWithId(m.children, id) < |m.children|
    ensures m.kind == n.kind && m.id == n.id
    ensures FirstWithId(n.children, id) < |n.children| ==> m == n
    ensures FirstWithId(n.children, id) == |n.children| ==>
              m == n.(children := n.children + [NewCollection(id, id)])
  {
    if FirstWithId(n.children, id) < |n.children| then n
    else
      var m := n.(children := n.children + [NewCollection(id, id)]);
      assert FirstWithId(m.children, id) == |n.children| by {
        FirstWithIdAppend(n.children, NewCollection(id, id), id);
      }
      m
  }

  /** Appending a node whose id is searched for, to children that lack it, makes it the first match. */
  lemma {:induction false} FirstWithIdAppend(cs: seq<Node>, c: Node, id: string)
    requires FirstWithId(cs, id) == |cs| && c.id == id
    ensures FirstWithId(cs + [c], id) == |cs|
  {
    if cs != [] {
      assert (cs + [c])[1..] == cs[1..] + [c];
      FirstWithIdAppend(cs[1..], c, id);
    }
  }

  /** The walk of the label and progress handlers: every id is followed,
      opening a collection where it is missing, and u is applied at the end. */
  function WalkCreate(n: Node, ids: seq<string>, u: Update): (r: Node)
    ensures r.kind == n.kind && r.id == n.id && r.displayName == n.displayName
    decreases |ids|
  {
    if ids == [] then Apply(n, u)
    else
      var m := WithChild(n, ids[0]);
      var i := FirstWithId(m.children, ids[0]);
      m.(children := m.children[i := WalkCreate(m.children[i], ids[1..], u)])
  }

  /** The walk of the written-file handler: an id with no matching child is
      skipped, leaving the walk where it is, and u is applied at the end. */
  function WalkSkip(n: Node, ids: seq<string>, u: Update): (r: Node)
    ensures r.kind == n.kind && r.id == n.id && r.displayName == n.displayName
    decreases |ids|
  {
    if ids == [] then Apply(n, u)
    else
      var i := FirstWithId(n.children, ids[0]);
      if i < |n.children| then n.(children := n.children[i := WalkSkip(n.children[i], ids[1..], u)])
      else WalkSkip(n, ids[1..], u)
  }

  /** The node that ids address, following the first match at each level. */
  function Lookup(n: Node, ids: seq<string>): Option<Node>
    decreases |ids|
  {
    if ids == [] then Some(n)
    else
      var i := FirstWithId(n.children, ids[0]);
      if i < |n.children| then Lookup(n.children[i], ids[1..]) else None
  }

  /** The node the creating walk stops at, before u is applied. */
  function Reached(n: Node, ids: seq<string>): Node
    decreases |ids|
  {
    if ids == [] then n
    else
      var m := WithChild(n, ids[0]);
      Reached(m.children[FirstWithId(m.children, ids[0])], ids[1..])
  }

  /** Replacing a child by one with the same id keeps the first match where it was. */
  lemma {:induction false} FirstWithIdReplace(cs: seq<Node>, id: string, x: Node)
    requires FirstWithId(cs, id) < |cs| && x.id == id
    ensures FirstWithId(cs[FirstWithId(cs, id) := x], id) == FirstWithId(cs, id)
  {
    if cs[0].id != id {
      var i := FirstWithId(cs, id);
      assert cs[i := x][1..] == cs[1..][i - 1 := x];
      FirstWithIdReplace(cs[1..], id, x);
    }
  }

  /** After the creating walk, the ids address a node, and it is the reached node with u applied. */
  lemma {:induction false} WalkCreateReaches(n: Node, ids: seq<string>, u: Update)
    ensures Lookup(WalkCreate(n, ids, u), ids) == Some(Apply(Reached(n, ids), u))
    decreases |ids|
  {
    if ids != [] {
      var m := WithChild(n, ids[0]);
      var i := FirstWithId(m.children, ids[0]);
      var x := WalkCreate(m.children[i], ids[1..], u);
      FirstWithIdReplace(m.children, ids[0], x);
      WalkCreateReaches(m.children[i], ids[1..], u);
    }
  }

  /** On a path that already exists the creating walk opens nothing: it
      reaches the node the ids address and does what the skipping walk does. */
  lemma {:induction false} WalkOnExistingPath(n: Node, ids: seq<string>, u: Update)
    requires Lookup(n, ids).Some?
    ensures Reached(n, ids) == Lookup(n, ids).value
    ensures WalkCreate(n, ids, u) == WalkSkip(n, ids, u)
    decreases |ids|
  {
    if ids != [] {
      var i := FirstWithId(n.children, ids[0]);
      WalkOnExistingPath(n.children[i], ids[1..], u);
    }
  }

  /** No two children of any node share an id. */
  predicate DistinctIds(cs: seq<Node>) {
    forall j, k :: 0 <= j < k < |cs| ==> cs[j].id != cs[k].id
  }

  predicate WellFormed(n: Node) {
    DistinctIds(n.children) && forall c :: c in n.children ==> WellFormed(c)
  }

  /** A child replaced by a well-formed node with the same id leaves its parent well-formed. */
  lemma ReplaceChildKeepsWellFormed(n: Node, i: nat, x: Node)
    requires WellFormed(n) && i < |n.children| && x.id == n.children[i].id && WellFormed(x)
    ensures WellFormed(n.(children := n.children[i := x]))
  {
    var cs := n.children[i := x];
    forall c | c in cs ensures WellFormed(c) {
      var k :| 0 <= k < |cs| && cs[k] == c;
      if k != i {
        assert n.children[k] in n.children;
      }
    }
  }

  /** Opening a missing collection keeps the tree well-formed. */
  lemma WithChildKeepsWellFormed(n: Node, id: string)
    requires WellFormed(n)
    ensures WellFormed(WithChild(n, id))
  {
    if FirstWithId(n.children, id) == |n.children| {
      var cs := n.children + [NewCollection(id, id)];
      forall c | c in cs ensures WellFormed(c) {
        if c != NewCollection(id, id) {
          assert c in n.children;
        }
      }
    }
  }

  /** Label and progress updates keep sibling ids distinct everywhere: the
      only children they add are collections for ids that were missing. */
  lemma {:induction false} WalkCreateKeepsWellFormed(n: Node, ids: seq<string>, u: Update)
    requires WellFormed(n) && !u.AddChild?
    ensures WellFormed(WalkCreate(n, ids, u))
    decreases |ids|
  {
    if ids != [] {
      var m := WithChild(n, ids[0]);
      WithChildKeepsWellFormed(n, ids[0]);
      var i := FirstWithId(m.children, ids[0]);
      assert m.children[i] in m.children;
      WalkCreateKeepsWellFormed(m.children[i], ids[1..], u);
      ReplaceChildKeepsWellFormed(m, i, WalkCreate(m.children[i], ids[1..], u));
    }
  }

  // ---- how many nodes an event adds ----

  /** The number of nodes in the tree rooted at n. */
  function Size(n: Node): nat {
    1 + SizeOf(n.children)
  }

  function SizeOf(cs: seq<Node>): nat {
    if cs == [] then 0 else Size(cs[0]) + SizeOf(cs[1..])
  }

  /** The nodes an update brings in: the appended subtree, or none. */
  function Added(u: Update): nat {
    if u.AddChild? then Size(u.child) else 0
  }

  lemma {:induction false} SizeOfAppend(cs: seq<Node>, c: Node)
    ensures SizeOf(cs + [c]) == SizeOf(cs) + Size(c)
  {
    if cs != [] {
      assert (cs + [c])[1..] == cs[1..] + [c];
      SizeOfAppend(cs[1..], c);
    } else {
      assert [c][1..] == [];
    }
  }

  lemma {:induction false} SizeOfReplace(cs: seq<Node>, i: nat, x: Node)
    requires i < |cs|
    ensures SizeOf(cs[i := x]) + Size(cs[i]) == SizeOf(cs) + Size(x)
  {
    if i > 0 {
      assert cs[i := x][1..] == cs[1..][i - 1 := x];
      SizeOfReplace(cs[1..], i - 1, x);
    } else {
      assert cs[i := x][1..] == cs[1..];
    }
  }

  lemma SizeOfApply(n: Node, u: Update)
    ensures Size(Apply(n, u)) == Size(n) + Added(u)
  {
    if u.AddChild? {
      SizeOfAppend(n.children, u.child);
    }
  }

  /** The written-file walk never opens a collection: the tree grows by the
      appended leaf alone, whichever ids are skipped. */
  lemma {:induction false} WalkSkipAddsOnlyTheUpdate(n: Node, ids: seq<string>, u: Update)
    ensures Size(WalkSkip(n, ids, u)) == Size(n) + Added(u)
    decreases |ids|
  {
    if ids == [] {
      SizeOfApply(n, u);
    } else {
      var i := FirstWithId(n.children, ids[0]);
      WalkSkipAddsOnlyTheUpdate(if i < |n.children| then n.children[i] else n, ids[1..], u);
      if i < |n.children| {
        SizeOfReplace(n.children, i, WalkSkip(n.children[i], ids[1..], u));
      }
    }
  }

  /** The creating walk opens at most one collection per id it follows. */
  lemma {:induction false} WalkCreateAddsAtMostOnePerId(n: Node, ids: seq<string>, u: Update)
    ensures Size(n) + Added(u) <= Size(WalkCreate(n, ids, u)) <= Size(n) + |ids| + Added(u)
    decreases |ids|
  {
    if ids == [] {
      SizeOfApply(n, u);
    } else {
      var m := WithChild(n, ids[0]);
      if FirstWithId(n.children, ids[0]) == |n.children| {
        SizeOfAppend(n.children, NewCollection(ids[0], ids[0]));
      }
      assert Size(n) <= Size(m) <= Size(n) + 1;
      var i := FirstWithId(m.children, ids[0]);
      WalkCreateAddsAtMostOnePerId(m.children[i], ids[1..], u);
      SizeOfReplace(m.children, i, WalkCreate(m.children[i], ids[1..], u));
    }
  }

  // ---- paths: the moving reference of the handlers' loops ----

  predicate ValidPath(t: Node, p: seq<nat>)
    decreases |p|
  {
    p == [] || (p[0] < |t.children| && ValidPath(t.children[p[0]], p[1..]))
  }

  function NodeAt(t: Node, p: seq<nat>): Node
    requires ValidPath(t, p)
    decreases |p|
  {
    if p == [] then t else NodeAt(t.children[p[0]], p[1..])
  }

  /** t with the node at p replaced by m. */
  function ReplaceAt(t: Node, p: seq<nat>, m: Node): Node
    requires ValidPath(t, p)
    decreases |p|
  {
    if p == [] then m
    else t.(children := t.children[p[0] := ReplaceAt(t.children[p[0]], p[1..], m)])
  }

  /** Replacing the node at p keeps p valid, and the node found there is the new one. */
  lemma {:induction false} ReplaceAtThenNodeAt(t: Node, p: seq<nat>, m: Node)
    requires ValidPath(t, p)
    ensures ValidPath(ReplaceAt(t, p, m), p) && NodeAt(ReplaceAt(t, p, m), p) == m
    decreases |p|
  {
    if p != [] {
      ReplaceAtThenNodeAt(t.children[p[0]], p[1..], m);
    }
  }

  /** A second replacement at the same place overrides the first. */
  lemma {:induction false} ReplaceAtTwice(t: Node, p: seq<nat>, m: Node, m': Node)
    requires ValidPath(t, p)
    ensures ValidPath(ReplaceAt(t, p, m), p)
    ensures ReplaceAt(ReplaceAt(t, p, m), p, m') == ReplaceAt(t, p, m')
    decreases |p|
  {
    ReplaceAtThenNodeAt(t, p, m);
    if p != [] {
      ReplaceAtTwice(t.children[p[0]], p[1..], m, m');
    }
  }

  /** Stepping one level further down: a child of the node at p. */
  lemma {:induction false} PathExtend(t: Node, p: seq<nat>, i: nat, x: Node)
    requires ValidPath(t, p) && i < |NodeAt(t, p).children|
    ensures ValidPath(t, p + [i])
    ensures NodeAt(t, p + [i]) == NodeAt(t, p).children[i]
    ensures ReplaceAt(t, p + [i], x)
         == ReplaceAt(t, p, NodeAt(t, p).(children := NodeAt(t, p).children[i := x]))
    decreases |p|
  {
    if p == [] {
      assert [] + [i] == [i] && [i][1..] == [];
    } else {
      assert (p + [i])[0] == p[0] && (p + [i])[1..] == p[1..] + [i];
      PathExtend(t.children[p[0]], p[1..], i, x);
    }
  }

  /** The walk of NewoutLabelStatus and NewoutProgressBar below the task's
      root: the reference starts at the root and moves to the child with each
      id in turn, appending a collection first where none matches. */
  method FindOrCreate(root: Node, ids: seq<string>, u: Update) returns (t: Node)
    ensures t == WalkCreate(root, ids, u)
  {
    t := root;
    var path: seq<nat> := [];
    var k := 0;
    while k < |ids|
      invariant k <= |ids|
      invariant ValidPath(t, path)
      invariant ReplaceAt(t, path, WalkCreate(NodeAt(t, path), ids[k..], u)) == WalkCreate(root, ids, u)
    {
      var here := NodeAt(t, path);
      var m := WithChild(here, ids[k]);
      var i := FirstWithId(m.children, ids[k]);
      assert ids[k..][0] == ids[k] && ids[k..][1..] == ids[k + 1..];
      ghost var x := WalkCreate(m.children[i], ids[k + 1..], u);
      ghost var t0 := t;
      t := ReplaceAt(t, path, m);
      ReplaceAtTwice(t0, path, m, m.(children := m.children[i := x]));
      ReplaceAtThenNodeAt(t0, path, m);
      PathExtend(t, path, i, x);
      path := path + [i];
      k := k + 1;
    }
    assert ids[k..] == [];
    t := ReplaceAt(t, path, Apply(NodeAt(t, path), u));
  }

  /** The walk of FinishedWritingFile below the task's root: the reference
      moves to the child with each id, and stays where it is when none matches. */
  method FindSkipping(root: Node, ids: seq<string>, u: Update) returns (t: Node)
    ensures t == WalkSkip(root, ids, u)
  {
    var path: seq<nat> := [];
    var k := 0;
    while k < |ids|
      invariant k <= |ids|
      invariant ValidPath(root, path)
      invariant ReplaceAt(root, path, WalkSkip(NodeAt(root, path), ids[k..], u)) == WalkSkip(root, ids, u)
    {
      var here := NodeAt(root, path);
      var i := FirstWithId(here.children, ids[k]);
      assert ids[k..][0] == ids[k] && ids[k..][1..] == ids[k + 1..];
      if i < |here.children| {
        PathExtend(root, path, i, WalkSkip(here.children[i], ids[k + 1..], u));
        path := path + [i];
      }
      k := k + 1;
    }
    assert ids[k..] == [];
    t := ReplaceAt(root, path, Apply(NodeAt(root, path), u));
  }
}
