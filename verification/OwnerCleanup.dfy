/** Removing a private runtime directory after its owner was lost: the whole tree
    is collected and checked first, then deleted node by node. */
module OwnerCleanup {

  const MAX_NODES: nat := 4_096
  const MAX_DEPTH: nat := 8

  type Path = seq<string>

  datatype Kind = Directory | File | Socket | Unsupported

  /** `mode` is the permission part, so the group and other bits are its last six. */
  datatype Identity = Identity(device: nat, inode: nat, owner: nat, mode: nat, kind: Kind)

  /** A directory as it is enumerated: entries sorted by name. */
  datatype Tree = Tree(identity: Identity, entries: seq<Entry>)
  datatype Entry = Entry(name: string, node: Tree)

  datatype RemovalNode = RemovalNode(path: Path, identity: Identity)

  /** Only directories have entries, and no name occurs twice in one. */
  predicate WellFormed(t: Tree) {
    && (t.entries != [] ==> t.identity.kind == Directory)
    && (forall j, k :: 0 <= j < k < |t.entries| ==> t.entries[j].name != t.entries[k].name)
    && (forall k :: 0 <= k < |t.entries| ==> WellFormed(t.entries[k].node))
  }

  /** What an entry must look like to be collected below `expected`. */
  predicate Allowed(identity: Identity, expected: Identity) {
    && identity.kind != Unsupported
    && identity.owner == expected.owner && identity.device == expected.device
    && identity.mode % 64 == 0
  }

  // ---- the specification: every node once, children before their directory ----

  function PostOrder(t: Tree, path: Path): (r: seq<RemovalNode>)
    ensures r != [] && r[|r| - 1] == RemovalNode(path, t.identity)
    decreases t, 1
  {
    PostOrderEntries(t.entries, path) + [RemovalNode(path, t.identity)]
  }

  function PostOrderEntries(entries: seq<Entry>, path: Path): seq<RemovalNode>
    decreases entries, 0
  {
    if entries == [] then []
    else PostOrder(entries[0].node, path + [entries[0].name]) + PostOrderEntries(entries[1..], path)
  }

  function Size(t: Tree): nat
    decreases t, 1
  {
    1 + SizeEntries(t.entries)
  }

  function SizeEntries(entries: seq<Entry>): nat
    decreases entries, 0
  {
    if entries == [] then 0 else Size(entries[0].node) + SizeEntries(entries[1..])
  }

  /** Whether collection accepts a directory when `n` nodes are listed already:
      the node count is tested before each entry, never before a directory's own
      record. */
  predicate Accepts(t: Tree, expected: Identity, depth: nat, n: nat)
    decreases t, 1
  {
    depth <= MAX_DEPTH && t.identity == expected && AcceptsEntries(t.entries, expected, depth, n)
  }

  predicate AcceptsEntries(entries: seq<Entry>, expected: Identity, depth: nat, n: nat)
    decreases entries, 0
  {
    entries == [] ||
    var node := entries[0].node;
    && n < MAX_NODES
    && Allowed(node.identity, expected)
    && (node.identity.kind == Directory ==> Accepts(node, node.identity, depth + 1, n))
    && AcceptsEntries(entries[1..], expected, depth, n + Size(node))
  }

  lemma {:induction false} PostOrderSize(t: Tree, path: Path)
    ensures |PostOrder(t, path)| == Size(t)
    decreases t, 1
  {
    PostOrderEntriesSize(t.entries, path);
  }

  lemma {:induction false} PostOrderEntriesSize(entries: seq<Entry>, path: Path)
    ensures |PostOrderEntries(entries, path)| == SizeEntries(entries)
    decreases entries, 0
  {
    if entries != [] {
      PostOrderSize(entries[0].node, path + [entries[0].name]);
      PostOrderEntriesSize(entries[1..], path);
    }
  }

  lemma {:induction false} PostOrderEntriesAppend(entries: seq<Entry>, e: Entry, path: Path)
    ensures PostOrderEntries(entries + [e], path) ==
            PostOrderEntries(entries, path) + PostOrder(e.node, path + [e.name])
    decreases |entries|
  {
    if entries == [] {
      assert entries + [e] == [e] && [e][1..] == [];
    } else {
      assert (entries + [e])[1..] == entries[1..] + [e];
      PostOrderEntriesAppend(entries[1..], e, path);
    }
  }

  // ---- collection ----

  /** The vector that the whole recursion pushes onto. */
  class Removal {
    var nodes: seq<RemovalNode>

    constructor ()
      ensures nodes == []
    {
      nodes := [];
    }
  }

  /** One entry's share of the specification. */
  lemma EntryStep(entries: seq<Entry>, k: nat, path: Path, expected: Identity, depth: nat,
                  n: nat, before: seq<RemovalNode>)
    requires k < |entries| && WellFormed(entries[k].node)
    ensures var Entry(name, node) := entries[k];
            var listed := PostOrder(node, path + [name]);
            && (AcceptsEntries(entries[k..], expected, depth, n) <==>
                && n < MAX_NODES && Allowed(node.identity, expected)
                && (node.identity.kind == Directory ==> Accepts(node, node.identity, depth + 1, n))
                && AcceptsEntries(entries[k + 1..], expected, depth, n + |listed|))
            && before + PostOrderEntries(entries[..k + 1], path) ==
               before + PostOrderEntries(entries[..k], path) + listed
            && (node.identity.kind != Directory ==> listed == [RemovalNode(path + [name], node.identity)])
  {
    var Entry(name, node) := entries[k];
    PostOrderEntriesAppend(entries[..k], entries[k], path);
    PostOrderSize(node, path + [name]);
    assert entries[..k + 1] == entries[..k] + [entries[k]];
    assert entries[k..][0] == entries[k] && entries[k..][1..] == entries[k + 1..];
  }

  method CollectOwnedTree(t: Tree, path: Path, expected: Identity, depth: nat, removal: Removal) returns (ok: bool)
    requires WellFormed(t)
    modifies removal
    ensures ok <==> Accepts(t, expected, depth, |old(removal.nodes)|)
    ensures ok ==> removal.nodes == old(removal.nodes) + PostOrder(t, path)
    decreases t
  {
    if depth > MAX_DEPTH || t.identity != expected {
      return false;
    }
    ghost var before := removal.nodes;
    assert t.entries[..0] == [] && t.entries[0..] == t.entries;
    for k := 0 to |t.entries|
      invariant removal.nodes == before + PostOrderEntries(t.entries[..k], path)
      invariant AcceptsEntries(t.entries, expected, depth, |before|)
                <==> AcceptsEntries(t.entries[k..], expected, depth, |removal.nodes|)
    {
      EntryStep(t.entries, k, path, expected, depth, |removal.nodes|, before);
      var below := CollectEntry(t.entries[k], path, expected, depth, removal);
      if !below {
        return false;
      }
    }
    assert t.entries[..|t.entries|] == t.entries && t.entries[|t.entries|..] == [];
    removal.nodes := removal.nodes + [RemovalNode(path, expected)];
    return true;
  }

  /** One entry of a directory: tested, then descended into or recorded. */
  method CollectEntry(entry: Entry, path: Path, expected: Identity, depth: nat, removal: Removal) returns (ok: bool)
    requires WellFormed(entry.node)
    modifies removal
    ensures ok <==>
            && |old(removal.nodes)| < MAX_NODES && Allowed(entry.node.identity, expected)
            && (entry.node.identity.kind == Directory ==>
                  Accepts(entry.node, entry.node.identity, depth + 1, |old(removal.nodes)|))
    ensures ok ==> removal.nodes == old(removal.nodes) + PostOrder(entry.node, path + [entry.name])
    decreases entry
  {
    var Entry(name, node) := entry;
    if |removal.nodes| >= MAX_NODES || !Allowed(node.identity, expected) {
      return false;
    }
    if node.identity.kind == Directory {
      ok := CollectOwnedTree(node, path + [name], node.identity, depth + 1, removal);
    } else {
      assert PostOrder(node, path + [name]) == [RemovalNode(path + [name], node.identity)];
      removal.nodes := removal.nodes + [RemovalNode(path + [name], node.identity)];
      ok := true;
    }
  }

  // ---- which trees are accepted, and how long their lists are ----

  /** Every node is private and nothing lies too deep. */
  predicate AllAllowed(t: Tree, depth: nat)
    decreases t, 1
  {
    depth <= MAX_DEPTH && AllEntriesAllowed(t.entries, t.identity, depth)
  }

  predicate AllEntriesAllowed(entries: seq<Entry>, expected: Identity, depth: nat)
    decreases entries, 0
  {
    forall k :: 0 <= k < |entries| ==>
      && Allowed(entries[k].node.identity, expected)
      && (entries[k].node.identity.kind == Directory ==> AllAllowed(entries[k].node, depth + 1))
  }

  /** How many directories are still open when the last entry is reached. */
  function LastDepth(t: Tree): nat {
    if t.entries == [] then 0 else 1 + LastDepth(t.entries[|t.entries| - 1].node)
  }

  predicate AllWellFormed(entries: seq<Entry>) {
    forall k :: 0 <= k < |entries| ==> WellFormed(entries[k].node)
  }

  lemma {:induction false} LastDepthBelowSize(t: Tree)
    ensures LastDepth(t) < Size(t)
  {
    if t.entries != [] {
      LastDepthBelowSize(t.entries[|t.entries| - 1].node);
      LastEntrySize(t.entries);
    }
  }

  lemma {:induction false} LastEntrySize(entries: seq<Entry>)
    requires entries != []
    ensures Size(entries[|entries| - 1].node) <= SizeEntries(entries)
    decreases |entries|
  {
    if |entries| > 1 {
      LastEntrySize(entries[1..]);
    }
  }

  /** Exactly which trees are accepted. Records pushed after the last test, one for
      the last entry and one for each directory open around it, go uncounted. */
  lemma {:induction false} AcceptsIff(t: Tree, expected: Identity, depth: nat, n: nat)
    requires WellFormed(t)
    ensures Accepts(t, expected, depth, n) <==>
            && t.identity == expected && AllAllowed(t, depth)
            && (t.entries == [] || n + Size(t) <= MAX_NODES + LastDepth(t))
    decreases t, 1
  {
    AcceptsEntriesIff(t.entries, expected, depth, n);
  }

  lemma {:induction false} AcceptsEntriesIff(entries: seq<Entry>, expected: Identity, depth: nat, n: nat)
    requires AllWellFormed(entries)
    ensures AcceptsEntries(entries, expected, depth, n) <==>
            && AllEntriesAllowed(entries, expected, depth)
            && (entries == [] || n + SizeEntries(entries) <= MAX_NODES + LastDepth(entries[|entries| - 1].node))
    decreases entries, 0
  {
    if entries != [] {
      var node, rest := entries[0].node, entries[1..];
      assert WellFormed(node);
      if node.identity.kind == Directory {
        AcceptsIff(node, node.identity, depth + 1, n);
      }
      AcceptsEntriesIff(rest, expected, depth, n + Size(node));
      AllEntriesCons(entries, expected, depth);
      EntriesCount(entries, n);
    }
  }

  lemma AllEntriesCons(entries: seq<Entry>, expected: Identity, depth: nat)
    requires entries != []
    ensures AllEntriesAllowed(entries, expected, depth) <==>
            && Allowed(entries[0].node.identity, expected)
            && (entries[0].node.identity.kind == Directory ==> AllAllowed(entries[0].node, depth + 1))
            && AllEntriesAllowed(entries[1..], expected, depth)
  {
    var rest := entries[1..];
    assert forall k :: 0 <= k < |rest| ==> rest[k] == entries[k + 1];
    assert forall k :: 0 < k < |entries| ==> entries[k] == rest[k - 1];
  }

  /** The count of the whole is the strictest: it covers the test at the first entry,
      and the count inside it. */
  lemma EntriesCount(entries: seq<Entry>, n: nat)
    requires entries != []
    ensures var node, rest := entries[0].node, entries[1..];
            var whole := n + SizeEntries(entries) <= MAX_NODES + LastDepth(entries[|entries| - 1].node);
            && (whole ==> n < MAX_NODES && n + Size(node) <= MAX_NODES + LastDepth(node))
            && (rest != [] ==>
                  (whole <==> n + Size(node) + SizeEntries(rest) <= MAX_NODES + LastDepth(rest[|rest| - 1].node)))
            && (rest == [] ==> (whole <==> n + Size(node) <= MAX_NODES + LastDepth(node)))
            && (node.entries == [] ==> Size(node) == 1 && LastDepth(node) == 0)
  {
    var node, rest := entries[0].node, entries[1..];
    LastDepthBelowSize(node);
    if rest != [] {
      LastDepthBelowSize(rest[|rest| - 1].node);
      LastEntrySize(rest);
      assert rest[|rest| - 1] == entries[|entries| - 1];
    } else {
      assert SizeEntries(rest) == 0;
    }
  }

  lemma {:induction false} LastDepthBounded(t: Tree, depth: nat)
    requires WellFormed(t) && AllAllowed(t, depth)
    ensures LastDepth(t) <= MAX_DEPTH - depth + 1
  {
    if t.entries != [] {
      var last := t.entries[|t.entries| - 1].node;
      assert WellFormed(last);
      if last.identity.kind == Directory {
        LastDepthBounded(last, depth + 1);
      }
    }
  }

  /** The bound of an accepted list, for the directory the cleanup starts from. */
  lemma ListIsBounded(t: Tree, path: Path)
    requires WellFormed(t) && Accepts(t, t.identity, 0, 0)
    ensures |PostOrder(t, path)| <= MAX_NODES + MAX_DEPTH + 1 == 4_105
  {
    AcceptsIff(t, t.identity, 0, 0);
    LastDepthBounded(t, 0);
    PostOrderSize(t, path);
  }

  /** The count alone never stops a tree of private nodes within the bound. */
  lemma {:induction false} SmallTreesAccepted(t: Tree, depth: nat, n: nat)
    requires AllAllowed(t, depth) && n + SizeEntries(t.entries) <= MAX_NODES
    ensures Accepts(t, t.identity, depth, n)
    decreases t, 1
  {
    SmallEntriesAccepted(t.entries, t.identity, depth, n);
  }

  lemma {:induction false} SmallEntriesAccepted(entries: seq<Entry>, expected: Identity, depth: nat, n: nat)
    requires n + SizeEntries(entries) <= MAX_NODES && AllEntriesAllowed(entries, expected, depth)
    ensures AcceptsEntries(entries, expected, depth, n)
    decreases entries, 0
  {
    if entries != [] {
      if entries[0].node.identity.kind == Directory {
        SmallTreesAccepted(entries[0].node, depth + 1, n);
      }
      SmallEntriesAccepted(entries[1..], expected, depth, n + Size(entries[0].node));
    }
  }

  /** Nothing foreign and nothing too deep is ever accepted. */
  lemma {:induction false} AcceptedIsAllowed(t: Tree, expected: Identity, depth: nat, n: nat)
    requires Accepts(t, expected, depth, n)
    ensures t.identity == expected && AllAllowed(t, depth)
    decreases t, 1
  {
    AcceptedEntriesAllowed(t.entries, expected, depth, n);
  }

  lemma {:induction false} AcceptedEntriesAllowed(entries: seq<Entry>, expected: Identity, depth: nat, n: nat)
    requires AcceptsEntries(entries, expected, depth, n)
    ensures AllEntriesAllowed(entries, expected, depth)
    decreases entries, 0
  {
    if entries != [] {
      var node := entries[0].node;
      if node.identity.kind == Directory {
        AcceptedIsAllowed(node, node.identity, depth + 1, n);
      }
      AcceptedEntriesAllowed(entries[1..], expected, depth, n + Size(node));
    }
  }

  // ---- acceptance, said of the nodes ----

  ghost predicate Reaches(t: Tree, id: Identity, d: nat)
    decreases d
  {
    if d == 0 then id == t.identity
    else exists k :: 0 <= k < |t.entries| && Reaches(t.entries[k].node, id, d - 1)
  }

  /** A node with this identity lies `d` levels below the root of the tree. */
  ghost predicate HasNode(t: Tree, id: Identity, d: nat) {
    Reaches(t, id, d)
  }

  /** Every node below is owned like the tree, and no directory lies too deep. */
  ghost predicate NodesFit(t: Tree, depth: nat) {
    forall id, d: nat :: HasNode(t, id, d) && d > 0 ==>
      && id.owner == t.identity.owner && id.device == t.identity.device
      && id.mode % 64 == 0 && id.kind != Unsupported
      && (id.kind == Directory ==> depth + d <= MAX_DEPTH)
  }

  lemma ChildNode(t: Tree, k: nat, id: Identity, d: nat)
    requires k < |t.entries| && HasNode(t.entries[k].node, id, d)
    ensures HasNode(t, id, d + 1)
  {
  }

  lemma {:induction false} AllAllowedIff(t: Tree, depth: nat)
    requires WellFormed(t)
    ensures AllAllowed(t, depth) <==> depth <= MAX_DEPTH && NodesFit(t, depth)
    decreases t
  {
    forall k | 0 <= k < |t.entries|
      ensures AllAllowed(t.entries[k].node, depth + 1) <==>
              depth + 1 <= MAX_DEPTH && NodesFit(t.entries[k].node, depth + 1)
    {
      assert WellFormed(t.entries[k].node);
      AllAllowedIff(t.entries[k].node, depth + 1);
    }
    if AllAllowed(t, depth) {
      forall id, d: nat | HasNode(t, id, d) && d > 0 ensures NodeFits(t, depth, id, d) {
        var k :| 0 <= k < |t.entries| && Reaches(t.entries[k].node, id, d - 1);
        assert HasNode(t.entries[k].node, id, d - 1);
        AllowedNodeFits(t, depth, k, id, d);
      }
    }
    if depth <= MAX_DEPTH && NodesFit(t, depth) {
      forall k | 0 <= k < |t.entries|
        ensures Allowed(t.entries[k].node.identity, t.identity)
        ensures t.entries[k].node.identity.kind == Directory ==> AllAllowed(t.entries[k].node, depth + 1)
      {
        FittingChild(t, depth, k);
      }
    }
  }

  ghost predicate NodeFits(t: Tree, depth: nat, id: Identity, d: nat) {
    && id.owner == t.identity.owner && id.device == t.identity.device
    && id.mode % 64 == 0 && id.kind != Unsupported
    && (id.kind == Directory ==> depth + d <= MAX_DEPTH)
  }

  lemma AllowedNodeFits(t: Tree, depth: nat, k: nat, id: Identity, d: nat)
    requires WellFormed(t) && AllAllowed(t, depth)
    requires k < |t.entries| && d > 0 && HasNode(t.entries[k].node, id, d - 1)
    requires AllAllowed(t.entries[k].node, depth + 1) ==>
               depth + 1 <= MAX_DEPTH && NodesFit(t.entries[k].node, depth + 1)
    ensures NodeFits(t, depth, id, d)
  {
    var child := t.entries[k].node;
    assert WellFormed(child) && Allowed(child.identity, t.identity);
    if d > 1 {
      assert child.entries != [];
      assert NodesFit(child, depth + 1) && HasNode(child, id, d - 1);
    }
  }

  lemma FittingChild(t: Tree, depth: nat, k: nat)
    requires WellFormed(t) && NodesFit(t, depth) && k < |t.entries|
    requires depth + 1 <= MAX_DEPTH && NodesFit(t.entries[k].node, depth + 1) ==>
               AllAllowed(t.entries[k].node, depth + 1)
    ensures Allowed(t.entries[k].node.identity, t.identity)
    ensures t.entries[k].node.identity.kind == Directory ==> AllAllowed(t.entries[k].node, depth + 1)
  {
    var child := t.entries[k].node;
    assert HasNode(child, child.identity, 0);
    ChildNode(t, k, child.identity, 0);
    forall id, d: nat | HasNode(child, id, d) && d > 0 ensures NodeFits(child, depth + 1, id, d) {
      ChildNode(t, k, id, d);
    }
  }

  /** The cleanup accepts a runtime exactly when every node below its root has the
      root's owner and device, is closed to group and others and of a supported kind,
      no directory lies more than eight levels down, and the count is within 4,096 and
      the directories open around the last entry. */
  lemma AcceptedIffPrivate(t: Tree)
    requires WellFormed(t)
    ensures Accepts(t, t.identity, 0, 0) <==>
            && (forall id, d: nat :: HasNode(t, id, d) && d > 0 ==>
                  && id.owner == t.identity.owner && id.device == t.identity.device
                  && id.mode % 64 == 0 && id.kind != Unsupported
                  && (id.kind == Directory ==> d <= 8))
            && (t.entries == [] || Size(t) <= 4_096 + LastDepth(t))
  {
    AcceptsIff(t, t.identity, 0, 0);
    AllAllowedIff(t, 0);
    FitFromRoot(t);
  }

  lemma FitFromRoot(t: Tree)
    ensures NodesFit(t, 0) <==>
            forall id, d: nat :: HasNode(t, id, d) && d > 0 ==>
              && id.owner == t.identity.owner && id.device == t.identity.device
              && id.mode % 64 == 0 && id.kind != Unsupported
              && (id.kind == Directory ==> d <= 8)
  {
  }

  function PrivateNode(kind: Kind, inode: nat): Identity {
    Identity(1, inode, 1, 0, kind)
  }

  /** `n` private files, named by strings of different lengths. */
  function ManyFiles(n: nat): seq<Entry> {
    seq(n, (k: nat) => Entry(seq(k, _ => 'f'), Tree(PrivateNode(File, k), [])))
  }

  /** Directories nested `levels` deep around MAX_NODES files. */
  function DeepTree(levels: nat): Tree {
    if levels == 0 then Tree(PrivateNode(Directory, 0), ManyFiles(MAX_NODES))
    else Tree(PrivateNode(Directory, 0), [Entry("d", DeepTree(levels - 1))])
  }

  lemma {:induction false} FilesAccepted(entries: seq<Entry>, expected: Identity, depth: nat, n: nat)
    requires forall k :: 0 <= k < |entries| ==>
               entries[k].node.entries == [] && entries[k].node.identity.kind == File &&
               Allowed(entries[k].node.identity, expected)
    requires n + |entries| <= MAX_NODES
    ensures AcceptsEntries(entries, expected, depth, n) && SizeEntries(entries) == |entries|
    decreases |entries|
  {
    if entries != [] {
      FilesAccepted(entries[1..], expected, depth, n + 1);
    }
  }

  lemma {:induction false} DeepTreeAccepted(levels: nat, depth: nat)
    requires levels + depth <= MAX_DEPTH
    ensures WellFormed(DeepTree(levels))
    ensures Accepts(DeepTree(levels), PrivateNode(Directory, 0), depth, 0)
    ensures Size(DeepTree(levels)) == MAX_NODES + levels + 1
    decreases levels
  {
    if levels == 0 {
      FlatTreeAccepted(depth);
    } else {
      DeepTreeAccepted(levels - 1, depth + 1);
      NestedAccepted(DeepTree(levels - 1), depth);
    }
  }

  lemma NestedAccepted(inner: Tree, depth: nat)
    requires WellFormed(inner) && depth < MAX_DEPTH && Accepts(inner, PrivateNode(Directory, 0), depth + 1, 0)
    ensures var t := Tree(PrivateNode(Directory, 0), [Entry("d", inner)]);
            WellFormed(t) && Accepts(t, t.identity, depth, 0) && Size(t) == Size(inner) + 1
  {
    var t := Tree(PrivateNode(Directory, 0), [Entry("d", inner)]);
    assert t.entries[1..] == [] && t.entries[0].node == inner;
    assert SizeEntries(t.entries) == Size(inner);
  }

  lemma FlatTreeAccepted(depth: nat)
    requires depth <= MAX_DEPTH
    ensures WellFormed(DeepTree(0)) && Accepts(DeepTree(0), PrivateNode(Directory, 0), depth, 0)
    ensures Size(DeepTree(0)) == MAX_NODES + 1
  {
    FilesTreeAccepted(ManyFiles(MAX_NODES), depth);
  }

  lemma FilesTreeAccepted(files: seq<Entry>, depth: nat)
    requires depth <= MAX_DEPTH && |files| <= MAX_NODES
    requires forall k :: 0 <= k < |files| ==>
               files[k].node == Tree(PrivateNode(File, k), []) && |files[k].name| == k
    ensures var t := Tree(PrivateNode(Directory, 0), files);
            WellFormed(t) && Accepts(t, t.identity, depth, 0) && Size(t) == |files| + 1
  {
    var t := Tree(PrivateNode(Directory, 0), files);
    FilesAccepted(files, t.identity, depth, 0);
    forall j, k | 0 <= j < k < |files| ensures files[j].name != files[k].name {
      assert |files[j].name| == j && |files[k].name| == k;
    }
  }

  /** The bound is attained: the last directories are recorded unchecked. */
  lemma BoundIsAttained(path: Path)
    ensures var t := DeepTree(MAX_DEPTH);
            && WellFormed(t) && Accepts(t, t.identity, 0, 0)
            && |PostOrder(t, path)| == MAX_NODES + MAX_DEPTH + 1
  {
    DeepTreeAccepted(MAX_DEPTH, 0);
    PostOrderSize(DeepTree(MAX_DEPTH), path);
  }
}
