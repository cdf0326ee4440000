/** Deleting what was collected: exactly the tree goes, and nothing beside it. */
module OwnerRemoval {
  import opened Common
  import opened OwnerCleanup

  type Nodes = map<Path, Identity>

  function PathsOf(removal: seq<RemovalNode>): set<Path> {
    set r | r in removal :: r.path
  }

  class FileSystem {
    var nodes: Nodes

    method RemoveFile(path: Path) returns (ok: bool)
      modifies this
      ensures ok <==> path in old(nodes) && old(nodes)[path].kind != Directory
      ensures nodes == if ok then old(nodes) - {path} else old(nodes)
    {
      ok := path in nodes && nodes[path].kind != Directory;
      if ok {
        nodes := nodes - {path};
      }
    }

    method RemoveDir(path: Path) returns (ok: bool)
      modifies this
      ensures ok <==> && path in old(nodes) && old(nodes)[path].kind == Directory
                      && forall p :: p in old(nodes) ==> !(path < p)
      ensures nodes == if ok then old(nodes) - {path} else old(nodes)
    {
      ok := path in nodes && nodes[path].kind == Directory && forall p :: p in nodes ==> !(path < p);
      if ok {
        nodes := nodes - {path};
      }
    }
  }

  /** The list can be carried out on `nodes`: each node is there as recorded, and
      everything below a recorded directory comes before it. */
  ghost predicate CarriedOut(nodes: Nodes, removal: seq<RemovalNode>) {
    forall k :: 0 <= k < |removal| ==> StepFits(nodes, removal, k)
  }

  ghost predicate StepFits(nodes: Nodes, removal: seq<RemovalNode>, k: nat)
    requires k < |removal|
  {
    && removal[k].path in nodes && nodes[removal[k].path] == removal[k].identity
    && removal[k].path !in PathsOf(removal[..k])
    && (forall p :: p in nodes && removal[k].path < p ==> p in PathsOf(removal[..k]))
  }

  lemma PathsAppend(a: seq<RemovalNode>, b: seq<RemovalNode>)
    ensures PathsOf(a + b) == PathsOf(a) + PathsOf(b)
  {
    assert forall r :: r in a + b <==> r in a || r in b;
  }

  /** Whatever the file system has become since collection, only recorded paths
      are ever removed, each in the state that was recorded; and a list that fits
      is carried out to the end. */
  method DeleteNodes(fs: FileSystem, removal: seq<RemovalNode>) returns (ok: bool, ghost done: nat)
    modifies fs
    ensures done <= |removal| && fs.nodes == old(fs.nodes) - PathsOf(removal[..done])
    ensures forall k :: 0 <= k < done ==>
              removal[k].path in old(fs.nodes) && old(fs.nodes)[removal[k].path] == removal[k].identity
    ensures ok <==> done == |removal|
    ensures CarriedOut(old(fs.nodes), removal) ==> ok
  {
    ghost var start := fs.nodes;
    done := 0;
    for k := 0 to |removal|
      invariant done == k
      invariant fs.nodes == start - PathsOf(removal[..k])
      invariant forall j :: 0 <= j < k ==>
                  removal[j].path in start && start[removal[j].path] == removal[j].identity
    {
      var node := removal[k];
      ghost var fits := StepFits(start, removal, k);
      if node.path !in fs.nodes || fs.nodes[node.path] != node.identity {
        return false, k;
      }
      var removed;
      if node.identity.kind == Directory {
        removed := fs.RemoveDir(node.path);
      } else {
        removed := fs.RemoveFile(node.path);
      }
      if !removed {
        return false, k;
      }
      assert removal[..k + 1] == removal[..k] + [node];
      PathsAppend(removal[..k], [node]);
      done := k + 1;
    }
    assert removal[..|removal|] == removal;
    return true, done;
  }

  // ---- the collected list fits the tree it was collected from ----

  /** The nodes of a tree rooted at `path`. */
  function Below(t: Tree, path: Path): Nodes
    decreases t, 1
  {
    BelowEntries(t.entries, path)[path := t.identity]
  }

  function BelowEntries(entries: seq<Entry>, path: Path): Nodes
    decreases entries, 0
  {
    if entries == [] then map[]
    else Below(entries[0].node, path + [entries[0].name]) + BelowEntries(entries[1..], path)
  }

  /** `nodes` below `path` are exactly the tree. */
  ghost predicate HoldsTree(nodes: Nodes, t: Tree, path: Path) {
    forall p :: path <= p ==>
      (p in nodes <==> p in Below(t, path)) && (p in nodes ==> nodes[p] == Below(t, path)[p])
  }

  lemma {:induction false} BelowIsBelow(t: Tree, path: Path)
    ensures forall p :: p in Below(t, path) ==> path <= p
    decreases t, 1
  {
    BelowEntriesNamed(t.entries, path);
  }

  lemma {:induction false} BelowEntriesNamed(entries: seq<Entry>, path: Path)
    ensures forall p :: p in BelowEntries(entries, path) ==>
              path < p && exists k :: 0 <= k < |entries| && entries[k].name == p[|path|]
    decreases entries, 0
  {
    if entries != [] {
      var first := path + [entries[0].name];
      BelowIsBelow(entries[0].node, first);
      BelowEntriesNamed(entries[1..], path);
      forall p | p in BelowEntries(entries, path)
        ensures path < p && exists k :: 0 <= k < |entries| && entries[k].name == p[|path|]
      {
        if p in BelowEntries(entries[1..], path) {
          var k :| 0 <= k < |entries[1..]| && entries[1..][k].name == p[|path|];
          assert entries[k + 1].name == p[|path|];
        } else {
          assert p in Below(entries[0].node, first);
          assert first <= p && p[|path|] == entries[0].name;
        }
      }
    }
  }

  lemma {:induction false} PostOrderPaths(t: Tree, path: Path)
    ensures PathsOf(PostOrder(t, path)) == Below(t, path).Keys
    decreases t, 1
  {
    PostOrderEntriesPaths(t.entries, path);
    PathsAppend(PostOrderEntries(t.entries, path), [RemovalNode(path, t.identity)]);
  }

  lemma {:induction false} PostOrderEntriesPaths(entries: seq<Entry>, path: Path)
    ensures PathsOf(PostOrderEntries(entries, path)) == BelowEntries(entries, path).Keys
    decreases entries, 0
  {
    if entries != [] {
      var first := PostOrder(entries[0].node, path + [entries[0].name]);
      PostOrderPaths(entries[0].node, path + [entries[0].name]);
      PostOrderEntriesPaths(entries[1..], path);
      PathsAppend(first, PostOrderEntries(entries[1..], path));
    }
  }

  lemma CarriedOutAppend(nodes: Nodes, a: seq<RemovalNode>, b: seq<RemovalNode>)
    requires CarriedOut(nodes, a) && CarriedOut(nodes, b)
    requires PathsOf(a) !! PathsOf(b)
    ensures CarriedOut(nodes, a + b)
  {
    forall k | 0 <= k < |a + b| ensures StepFits(nodes, a + b, k) {
      if k < |a| {
        assert (a + b)[..k] == a[..k];
        assert StepFits(nodes, a, k);
      } else {
        var j := k - |a|;
        assert (a + b)[..k] == a + b[..j];
        PathsAppend(a, b[..j]);
        assert StepFits(nodes, b, j);
        assert b[j].path in PathsOf(b);
      }
    }
  }

  /** A directory goes after everything below it. */
  lemma CarriedOutParent(nodes: Nodes, below: seq<RemovalNode>, self: RemovalNode)
    requires CarriedOut(nodes, below)
    requires self.path in nodes && nodes[self.path] == self.identity && self.path !in PathsOf(below)
    requires forall p :: p in nodes && self.path < p ==> p in PathsOf(below)
    ensures CarriedOut(nodes, below + [self])
  {
    var all := below + [self];
    forall k | 0 <= k < |all| ensures StepFits(nodes, all, k) {
      if k < |below| {
        assert all[..k] == below[..k];
        assert StepFits(nodes, below, k);
      } else {
        assert all[..k] == below;
      }
    }
  }

  /** Below one entry's path lies that entry's tree and nothing of its siblings. */
  lemma {:induction false} BelowEntriesAt(entries: seq<Entry>, path: Path, k: nat, p: Path)
    requires k < |entries| && path + [entries[k].name] <= p
    requires forall i, j :: 0 <= i < j < |entries| ==> entries[i].name != entries[j].name
    ensures var child := Below(entries[k].node, path + [entries[k].name]);
            && (p in BelowEntries(entries, path) <==> p in child)
            && (p in child ==> BelowEntries(entries, path)[p] == child[p])
    decreases |entries|
  {
    BelowEntriesNamed(entries[1..], path);
    BelowIsBelow(entries[0].node, path + [entries[0].name]);
    assert p[|path|] == entries[k].name;
    if k > 0 {
      assert entries[1..][k - 1] == entries[k];
      BelowEntriesAt(entries[1..], path, k - 1, p);
    }
  }

  lemma ChildHolds(nodes: Nodes, t: Tree, path: Path, k: nat)
    requires WellFormed(t) && HoldsTree(nodes, t, path) && k < |t.entries|
    ensures HoldsTree(nodes, t.entries[k].node, path + [t.entries[k].name])
  {
    var child := path + [t.entries[k].name];
    forall p | child <= p
      ensures (p in nodes <==> p in Below(t.entries[k].node, child))
           && (p in nodes ==> nodes[p] == Below(t.entries[k].node, child)[p])
    {
      assert path <= p && p != path;
      BelowEntriesAt(t.entries, path, k, p);
    }
  }

  /** The list collected from a tree can be carried out on a file system that
      still holds it. */
  lemma {:induction false} PostOrderFits(nodes: Nodes, t: Tree, path: Path)
    requires WellFormed(t) && HoldsTree(nodes, t, path)
    ensures CarriedOut(nodes, PostOrder(t, path))
    decreases t, 1
  {
    forall k | 0 <= k < |t.entries|
      ensures HoldsTree(nodes, t.entries[k].node, path + [t.entries[k].name])
    {
      ChildHolds(nodes, t, path, k);
    }
    PostOrderEntriesFit(nodes, t.entries, path);
    BelowEntriesNamed(t.entries, path);
    PostOrderEntriesPaths(t.entries, path);
    CarriedOutParent(nodes, PostOrderEntries(t.entries, path), RemovalNode(path, t.identity));
  }

  lemma {:induction false} PostOrderEntriesFit(nodes: Nodes, entries: seq<Entry>, path: Path)
    requires forall i, j :: 0 <= i < j < |entries| ==> entries[i].name != entries[j].name
    requires forall k :: 0 <= k < |entries| ==>
               WellFormed(entries[k].node) && HoldsTree(nodes, entries[k].node, path + [entries[k].name])
    ensures CarriedOut(nodes, PostOrderEntries(entries, path))
    decreases entries, 0
  {
    if entries != [] {
      var first := path + [entries[0].name];
      PostOrderFits(nodes, entries[0].node, first);
      PostOrderEntriesFit(nodes, entries[1..], path);
      PostOrderPaths(entries[0].node, first);
      PostOrderEntriesPaths(entries[1..], path);
      BelowIsBelow(entries[0].node, first);
      BelowEntriesNamed(entries[1..], path);
      CarriedOutAppend(nodes, PostOrder(entries[0].node, first), PostOrderEntries(entries[1..], path));
    }
  }

  // ---- the whole cleanup ----

  /** The exact endpoints captured while the owner was alive. */
  datatype Capture = Capture(
    runtimeDir: Path, runtime: Identity,
    launcherSocket: Path, launcher: Identity,
    rmuxSocket: Path, rmux: Option<Identity>)

  /** How connecting to the launcher endpoint ended. */
  datatype Liveness = Connected | RefusedOrGone | OtherError | TimedOut

  function Outside(nodes: Nodes, root: Path): Nodes {
    map p | p in nodes && !(root <= p) :: nodes[p]
  }

  /** Taking away the collected paths is taking away everything at or below the root. */
  lemma TreeIsGone(nodes: Nodes, t: Tree, root: Path)
    requires HoldsTree(nodes, t, root)
    ensures nodes - PathsOf(PostOrder(t, root)) == Outside(nodes, root)
  {
    PostOrderPaths(t, root);
    BelowIsBelow(t, root);
    assert (nodes - PathsOf(PostOrder(t, root))).Keys == Outside(nodes, root).Keys;
  }

  /** Nothing is deleted unless the endpoints are quiet and the whole tree was
      accepted; then, on a tree that did not change, exactly that tree is gone. */
  method RemoveAfterOwnerLoss(fs: FileSystem, c: Capture, liveness: Liveness, t: Tree) returns (ok: bool)
    requires WellFormed(t)
    requires c.runtimeDir in fs.nodes ==> HoldsTree(fs.nodes, t, c.runtimeDir)
    modifies fs
    ensures ok <==>
              || c.runtimeDir !in old(fs.nodes)
              || (&& old(fs.nodes)[c.runtimeDir] == c.runtime
                  && (c.launcherSocket in old(fs.nodes) ==>
                        old(fs.nodes)[c.launcherSocket] == c.launcher && liveness == RefusedOrGone)
                  && (c.rmux.Some? && c.rmuxSocket in old(fs.nodes) ==>
                        old(fs.nodes)[c.rmuxSocket] == c.rmux.value)
                  && Accepts(t, t.identity, 0, 0))
    ensures fs.nodes ==
            if ok && c.runtimeDir in old(fs.nodes) then Outside(old(fs.nodes), c.runtimeDir) else old(fs.nodes)
  {
    if c.runtimeDir !in fs.nodes {
      return true;
    }
    if fs.nodes[c.runtimeDir] != c.runtime {
      return false;
    }
    if c.launcherSocket in fs.nodes {
      if fs.nodes[c.launcherSocket] != c.launcher || liveness != RefusedOrGone {
        return false;
      }
    }
    if c.rmux.Some? && c.rmuxSocket in fs.nodes && fs.nodes[c.rmuxSocket] != c.rmux.value {
      return false;
    }
    var removal := new Removal();
    var collected := CollectOwnedTree(t, c.runtimeDir, c.runtime, 0, removal);
    if !collected {
      return false;
    }
    PostOrderFits(fs.nodes, t, c.runtimeDir);
    ghost var nodes := fs.nodes;
    ghost var done;
    assert removal.nodes == PostOrder(t, c.runtimeDir);
    ok, done := DeleteNodes(fs, removal.nodes);
    assert removal.nodes[..done] == removal.nodes;
    TreeIsGone(nodes, t, c.runtimeDir);
  }
}
