/**
 The shell's in-memory filesystem (userland/shell.c): a pool of nodes linked into a
 tree, with file contents in a bump-allocated arena, against a map from paths.
 */
module ShellTree {
  import opened ShellPaths

  const MAX_NODES := 256
  const NAME_MAX := 64
  const ARENA_SIZE := 262144

  /** A node of the pool; -1 stands for a null pointer. */
  datatype Node = Node(name: string, isDir: bool, parent: int, firstChild: int, nextSibling: int, data: int, size: nat)

  /** A chain of children: `first`, then each one's next sibling, up to a null pointer. */
  predicate Chain(pool: seq<Node>, first: int, ks: seq<nat>)
    decreases |ks|
  {
    if ks == [] then first == -1
    else first == ks[0] && ks[0] < |pool| && Chain(pool, pool[ks[0]].nextSibling, ks[1..])
  }

  lemma {:induction false} ChainSame(pool: seq<Node>, other: seq<Node>, first: int, ks: seq<nat>)
    requires Chain(pool, first, ks) && |other| == |pool|
    requires forall k :: k in ks && k < |pool| ==> other[k].nextSibling == pool[k].nextSibling
    ensures Chain(other, first, ks)
    decreases |ks|
  {
    if ks != [] {
      ChainSame(pool, other, pool[ks[0]].nextSibling, ks[1..]);
    }
  }

  /** Two chains from one node are the same. */
  lemma {:induction false} ChainUnique(pool: seq<Node>, first: int, ks: seq<nat>, other: seq<nat>)
    requires Chain(pool, first, ks) && Chain(pool, first, other)
    ensures ks == other
    decreases |ks|
  {
    if ks != [] && other != [] {
      ChainUnique(pool, pool[ks[0]].nextSibling, ks[1..], other[1..]);
    }
  }

  /** The rest of a chain is a chain. */
  lemma {:induction false} ChainFrom(pool: seq<Node>, first: int, ks: seq<nat>, i: nat)
    requires Chain(pool, first, ks) && i < |ks|
    ensures ks[i] < |pool| && Chain(pool, ks[i], ks[i..])
    ensures Chain(pool, pool[ks[i]].nextSibling, ks[i + 1..])
    decreases i
  {
    if i > 0 {
      ChainFrom(pool, pool[ks[0]].nextSibling, ks[1..], i - 1);
      assert ks[1..][i - 1..] == ks[i..] && ks[1..][i..] == ks[i + 1..];
    } else {
      assert ks[0..] == ks;
    }
  }

  /** No node is in a chain twice. */
  lemma ChainDistinct(pool: seq<Node>, first: int, ks: seq<nat>)
    requires Chain(pool, first, ks)
    ensures forall i, j :: 0 <= i < j < |ks| ==> ks[i] != ks[j]
  {
    forall i, j | 0 <= i < j < |ks| ensures ks[i] != ks[j] {
      ChainFrom(pool, first, ks, i);
      ChainFrom(pool, first, ks, j);
      if ks[i] == ks[j] {
        ChainUnique(pool, ks[i], ks[i..], ks[j..]);
      }
    }
  }

  // ----- the tree

  function Parent(p: Path): Path
    requires p != []
  {
    p[..|p| - 1]
  }

  function Last(p: Path): string
    requires p != []
  {
    p[|p| - 1]
  }

  lemma ParentOfChild(p: Path, name: string)
    ensures p + [name] != [] && Parent(p + [name]) == p && Last(p + [name]) == name
  {
  }

  /** The node at each path: the root at the empty one, and no node at two. */
  predicate Located(pool: seq<Node>, count: nat, at: map<Path, nat>) {
    && |pool| == MAX_NODES && 1 <= count <= MAX_NODES
    && [] in at && at[[]] == 0 && pool[0].isDir
    && (forall p :: p in at ==> at[p] < count)
    && (forall p, q :: p in at && q in at && at[p] == at[q] ==> p == q)
    && ["dev"] !in at
  }

  /** Each node but the root has its name from its path and points to the node above. */
  predicate Named(pool: seq<Node>, at: map<Path, nat>, p: Path)
    requires p in at && at[p] < |pool|
  {
    p == [] || (Parent(p) in at && pool[at[p]].name == Last(p) && pool[at[p]].parent == at[Parent(p)])
  }

  /** The children of a node are exactly the nodes one name further; a file has none. */
  predicate Holds(pool: seq<Node>, at: map<Path, nat>, p: Path, ks: seq<nat>)
    requires p in at && at[p] < |pool|
  {
    && Chain(pool, pool[at[p]].firstChild, ks)
    && (forall k :: k in ks ==> k < |pool| && p + [pool[k].name] in at && at[p + [pool[k].name]] == k)
    && (!pool[at[p]].isDir ==> ks == [])
  }

  /** The node at a path is named after it, stands among the children of the node above, and holds its own. */
  predicate Fits(pool: seq<Node>, at: map<Path, nat>, kids: seq<seq<nat>>, p: Path)
    requires p in at
  {
    && at[p] < |pool| && at[p] < |kids| && Named(pool, at, p) && Holds(pool, at, p, kids[at[p]])
    && (p != [] ==> at[Parent(p)] < |kids| && at[p] in kids[at[Parent(p)]])
  }

  predicate Tree(pool: seq<Node>, count: nat, at: map<Path, nat>, kids: seq<seq<nat>>) {
    && Located(pool, count, at) && |kids| == MAX_NODES
    && (forall p :: p in at ==> Fits(pool, at, kids, p))
  }

  /** What the tree says of one path. */
  lemma TreeAt(pool: seq<Node>, count: nat, at: map<Path, nat>, kids: seq<seq<nat>>, p: Path)
    requires Tree(pool, count, at, kids) && p in at
    ensures Located(pool, count, at) && |kids| == MAX_NODES && Named(pool, at, p) && Holds(pool, at, p, kids[at[p]])
    ensures p != [] ==> at[p] in kids[at[Parent(p)]]
  {
    assert Fits(pool, at, kids, p);
  }

  /** The name by which a child hangs under its parent is unique among its siblings. */
  lemma SiblingNames(pool: seq<Node>, count: nat, at: map<Path, nat>, kids: seq<seq<nat>>, p: Path)
    requires Tree(pool, count, at, kids) && p in at
    ensures |kids| == MAX_NODES && at[p] < MAX_NODES && forall k :: k in kids[at[p]] ==> k < |pool|
    ensures forall k, l :: k in kids[at[p]] && l in kids[at[p]] && pool[k].name == pool[l].name ==> k == l
    ensures p == [] ==> forall k :: k in kids[at[p]] ==> pool[k].name != "dev"
  {
    TreeAt(pool, count, at, kids, p);
    assert p == [] ==> forall name :: p + [name] == [name];
  }

  /** A node is among the children of one node only. */
  lemma OneParent(pool: seq<Node>, count: nat, at: map<Path, nat>, kids: seq<seq<nat>>, p: Path, q: Path, k: nat)
    requires Tree(pool, count, at, kids) && p in at && q in at
    requires k in kids[at[p]] && k in kids[at[q]]
    ensures p == q
  {
    hide Tree, Named, Chain;
    TreeAt(pool, count, at, kids, p);
    TreeAt(pool, count, at, kids, q);
    ParentOfChild(p, pool[k].name);
    ParentOfChild(q, pool[k].name);
  }

  /** The pool after a node is added at the front of a directory's children. */
  function Added(pool: seq<Node>, count: nat, n: nat, name: string, isDir: bool): (r: seq<Node>)
    requires count < |pool| && n < count
    ensures |r| == |pool|
  {
    pool[count := Node(name, isDir, n, -1, pool[n].firstChild, -1, 0)][n := pool[n].(firstChild := count)]
  }

  /** One name further from a directory is a node below it, or no node at all. */
  lemma ChildAt(pool: seq<Node>, count: nat, at: map<Path, nat>, kids: seq<seq<nat>>, p: Path, name: string)
    requires Tree(pool, count, at, kids) && p in at
    ensures p + [name] in at ==> at[p + [name]] in kids[at[p]] && pool[at[p + [name]]].name == name
    ensures p + [name] !in at ==> forall k :: k in kids[at[p]] ==> k < |pool| && pool[k].name != name
  {
    ParentOfChild(p, name);
    TreeAt(pool, count, at, kids, p);
    if p + [name] in at {
      TreeAt(pool, count, at, kids, p + [name]);
    }
  }

  lemma AddedLocated(pool: seq<Node>, count: nat, at: map<Path, nat>, p: Path, name: string, isDir: bool)
    requires Located(pool, count, at) && count < MAX_NODES && p in at
    requires p + [name] !in at && p + [name] != ["dev"]
    ensures Located(Added(pool, count, at[p], name, isDir), count + 1, at[p + [name] := count])
  {
  }

  lemma AddedNamed(pool: seq<Node>, count: nat, at: map<Path, nat>, p: Path, name: string, isDir: bool, q: Path)
    requires Located(pool, count, at) && count < MAX_NODES && p in at && p + [name] !in at
    requires q == p + [name] || (q in at && Named(pool, at, q))
    ensures at[p] < count
    ensures Named(Added(pool, count, at[p], name, isDir), at[p + [name] := count], q)
  {
    ParentOfChild(p, name);
    assert q in at ==> at[q] < count;
  }

  /** The children of a node that is not the directory added to. */
  lemma AddedElsewhere(pool: seq<Node>, count: nat, at: map<Path, nat>, p: Path, name: string, isDir: bool,
                       q: Path, ks: seq<nat>)
    requires Located(pool, count, at) && count < MAX_NODES && p in at && p + [name] !in at
    requires q in at && q != p && Holds(pool, at, q, ks)
    ensures at[p] < count
    ensures Holds(Added(pool, count, at[p], name, isDir), at[p + [name] := count], q, ks)
  {
    var pool', at' := Added(pool, count, at[p], name, isDir), at[p + [name] := count];
    assert at[q] < count && at[q] != at[p];
    forall k | k in ks ensures k < count && pool'[k].nextSibling == pool[k].nextSibling && pool'[k].name == pool[k].name {
      assert at[q + [pool[k].name]] == k;
    }
    ChainSame(pool, pool', pool[at[q]].firstChild, ks);
  }

  lemma AddedHere(pool: seq<Node>, count: nat, at: map<Path, nat>, p: Path, name: string, isDir: bool, ks: seq<nat>)
    requires Located(pool, count, at) && count < MAX_NODES && p in at && p + [name] !in at
    requires Holds(pool, at, p, ks) && pool[at[p]].isDir
    ensures at[p] < count
    ensures Holds(Added(pool, count, at[p], name, isDir), at[p + [name] := count], p, [count] + ks)
  {
    var n, pool', at' := at[p], Added(pool, count, at[p], name, isDir), at[p + [name] := count];
    forall k | k in ks ensures k < count && pool'[k].nextSibling == pool[k].nextSibling && pool'[k].name == pool[k].name {
      assert at[p + [pool[k].name]] == k;
    }
    ChainSame(pool, pool', pool[n].firstChild, ks);
    assert ([count] + ks)[1..] == ks;
  }

  /** What the larger tree says of one path. */
  lemma AddedAt(pool: seq<Node>, count: nat, at: map<Path, nat>, kids: seq<seq<nat>>, p: Path, name: string, isDir: bool, q: Path)
    requires Tree(pool, count, at, kids) && count < MAX_NODES && p in at && pool[at[p]].isDir
    requires p + [name] !in at && p + [name] != ["dev"] && (q in at || q == p + [name])
    ensures at[p] < count
    ensures Fits(Added(pool, count, at[p], name, isDir), at[p + [name] := count],
                 kids[at[p] := [count] + kids[at[p]]][count := []], q)
  {
    hide Tree, Named, Holds, Added;
    var n, path := at[p], p + [name];
    TreeAt(pool, count, at, kids, p);
    ParentOfChild(p, name);
    if q == path {
      AddedLast(pool, count, at, p, name, isDir);
    } else {
      TreeAt(pool, count, at, kids, q);
      if q == p {
        AddedHere(pool, count, at, p, name, isDir, kids[n]);
      } else {
        AddedElsewhere(pool, count, at, p, name, isDir, q, kids[at[q]]);
      }
      if q != [] {
        AddedAbove(pool, count, at, q);
      }
    }
    AddedNamed(pool, count, at, p, name, isDir, q);
  }

  lemma AddedAbove(pool: seq<Node>, count: nat, at: map<Path, nat>, q: Path)
    requires Located(pool, count, at) && q in at && q != [] && Named(pool, at, q)
    ensures Parent(q) in at && at[Parent(q)] < count
  {
  }

  lemma AddedLast(pool: seq<Node>, count: nat, at: map<Path, nat>, p: Path, name: string, isDir: bool)
    requires Located(pool, count, at) && count < MAX_NODES && p in at && p + [name] !in at
    ensures at[p] < count
    ensures Holds(Added(pool, count, at[p], name, isDir), at[p + [name] := count], p + [name], [])
  {
  }

  lemma AllFit(pool: seq<Node>, count: nat, at: map<Path, nat>, kids: seq<seq<nat>>)
    requires Located(pool, count, at) && |kids| == MAX_NODES && forall p :: p in at ==> Fits(pool, at, kids, p)
    ensures Tree(pool, count, at, kids)
  {
  }

  /** A node added under a directory, where its name is free, leaves a tree. */
  lemma AddNode(pool: seq<Node>, count: nat, at: map<Path, nat>, kids: seq<seq<nat>>, p: Path, name: string, isDir: bool)
    requires Tree(pool, count, at, kids) && count < MAX_NODES && p in at && pool[at[p]].isDir
    requires p + [name] !in at && p + [name] != ["dev"]
    ensures at[p] < count
    ensures Tree(Added(pool, count, at[p], name, isDir), count + 1, at[p + [name] := count],
                 kids[at[p] := [count] + kids[at[p]]][count := []])
  {
    hide Fits, Added, Tree, Located, Holds, Named;
    TreeAt(pool, count, at, kids, p);
    LocatedAt(pool, count, at, p);
    var n, path := at[p], p + [name];
    var pool', at' := Added(pool, count, n, name, isDir), at[path := count];
    var kids' := kids[n := [count] + kids[n]][count := []];
    AddedLocated(pool, count, at, p, name, isDir);
    forall q | q in at' ensures Fits(pool', at', kids', q) {
      AddedAt(pool, count, at, kids, p, name, isDir, q);
    }
    AllFit(pool', count + 1, at', kids');
  }

  lemma LocatedAt(pool: seq<Node>, count: nat, at: map<Path, nat>, p: Path)
    requires Located(pool, count, at) && p in at
    ensures at[p] < count <= MAX_NODES == |pool|
  {
  }

  /** The pool after a child is unlinked: `prev` is the sibling before it, or -1. */
  function Unlinked(pool: seq<Node>, n: nat, prev: int, k: nat): (r: seq<Node>)
    requires n < |pool| && k < |pool| && -1 <= prev < |pool|
    ensures |r| == |pool|
  {
    if prev == -1 then pool[n := pool[n].(firstChild := pool[k].nextSibling)]
    else pool[prev := pool[prev].(nextSibling := pool[k].nextSibling)]
  }

  function Without(ks: seq<nat>, i: nat): seq<nat>
    requires i < |ks|
  {
    ks[..i] + ks[i + 1..]
  }

  lemma {:induction false} ChainUnlinked(pool: seq<Node>, n: nat, first: int, ks: seq<nat>, i: nat)
    requires 0 < i < |ks| && Chain(pool, first, ks) && n < |pool| && ks[i] < |pool| && ks[i - 1] < |pool|
    requires forall a, b :: 0 <= a < b < |ks| ==> ks[a] != ks[b]
    ensures Chain(Unlinked(pool, n, ks[i - 1], ks[i]), first, Without(ks, i))
    decreases i
  {
    var pool', rest := Unlinked(pool, n, ks[i - 1], ks[i]), ks[1..];
    assert Without(ks, i)[0] == ks[0];
    if i == 1 {
      assert Without(ks, i)[1..] == ks[2..];
      assert rest[0] == ks[1] && rest[1..] == ks[2..];
      forall k | k in ks[2..] && k < |pool| ensures pool'[k].nextSibling == pool[k].nextSibling {
        var b :| 0 <= b < |ks[2..]| && ks[2..][b] == k;
        assert ks[b + 2] != ks[0];
      }
      ChainSame(pool, pool', pool[ks[1]].nextSibling, ks[2..]);
    } else {
      assert Without(ks, i)[1..] == Without(rest, i - 1);
      assert ks[0] != ks[i - 1];
      ChainUnlinked(pool, n, pool[ks[0]].nextSibling, rest, i - 1);
    }
  }

  lemma UnlinkedSame(pool: seq<Node>, n: nat, prev: int, k: nat, j: nat)
    requires n < |pool| && k < |pool| && -1 <= prev < |pool| && j < |pool|
    ensures var r := Unlinked(pool, n, prev, k)[j];
            && r.name == pool[j].name && r.isDir == pool[j].isDir && r.parent == pool[j].parent
            && r.data == pool[j].data && r.size == pool[j].size
            && (j != prev ==> r.nextSibling == pool[j].nextSibling)
            && (j != n || prev != -1 ==> r.firstChild == pool[j].firstChild)
  {
  }

  /** The sibling before the i-th child, or a null pointer. */
  function Prev(ks: seq<nat>, i: nat): int
    requires i < |ks|
  {
    if i == 0 then -1 else ks[i - 1]
  }

  /** The children left in the chain a child was taken out of. */
  lemma UnlinkedChain(pool: seq<Node>, n: nat, ks: seq<nat>, i: nat, prev: int)
    requires n < |pool| && Chain(pool, pool[n].firstChild, ks) && i < |ks|
    requires (forall k :: k in ks ==> k < |pool|) && prev == Prev(ks, i)
    ensures ks[i] < |pool| && -1 <= prev < |pool|
    ensures var pool' := Unlinked(pool, n, prev, ks[i]);
            Chain(pool', pool'[n].firstChild, Without(ks, i))
  {
    var first := pool[n].firstChild;
    assert ks[i] in ks;
    if i == 0 {
      ChainFrom(pool, first, ks, 0);
      assert Without(ks, 0) == ks[1..];
      ChainSame(pool, Unlinked(pool, n, -1, ks[0]), pool[ks[0]].nextSibling, ks[1..]);
    } else {
      assert ks[i - 1] in ks;
      ChainDistinct(pool, first, ks);
      ChainUnlinked(pool, n, first, ks, i);
    }
  }

  /** Child k, the i-th of the directory n at p, stands at `path`, and `prev` is before it. */
  predicate Picked(pool: seq<Node>, at: map<Path, nat>, kids: seq<seq<nat>>, p: Path, i: nat, n: nat, k: nat, prev: int, path: Path) {
    && p in at && at[p] == n && n < |pool| && n < |kids| && i < |kids[n]| && kids[n][i] == k && k < |pool|
    && prev == Prev(kids[n], i) && -1 <= prev < |pool| && path == p + [pool[k].name] && path in at && at[path] == k
  }

  /** The children of a node that the removed one is not below. */
  lemma UnlinkedElsewhere(pool: seq<Node>, count: nat, at: map<Path, nat>, kids: seq<seq<nat>>,
                          p: Path, i: nat, n: nat, k: nat, prev: int, path: Path, q: Path)
    requires Tree(pool, count, at, kids) && Picked(pool, at, kids, p, i, n, k, prev, path)
    requires q in at && q != p && q != path
    ensures at[q] < |pool|
    ensures Holds(Unlinked(pool, n, prev, k), at - {path}, q, kids[at[q]])
  {
    hide Tree, Named, Chain, Unlinked;
    TreeAt(pool, count, at, kids, p);
    TreeAt(pool, count, at, kids, q);
    var ks, pool' := kids[at[q]], Unlinked(pool, n, prev, k);
    assert prev != -1 ==> prev == kids[n][i - 1] && prev in kids[n];
    ParentOfChild(p, pool[k].name);
    forall l | l in ks
      ensures l < |pool| && pool'[l].nextSibling == pool[l].nextSibling && pool'[l].name == pool[l].name
      ensures q + [pool[l].name] != path
    {
      UnlinkedSame(pool, n, prev, k, l);
      if l == prev {
        OneParent(pool, count, at, kids, p, q, l);
      }
      ParentOfChild(q, pool[l].name);
    }
    ChainSame(pool, pool', pool[at[q]].firstChild, ks);
    assert at[q] != n;
    UnlinkedSame(pool, n, prev, k, at[q]);
  }

  lemma UnlinkedHere(pool: seq<Node>, count: nat, at: map<Path, nat>, kids: seq<seq<nat>>,
                     p: Path, i: nat, n: nat, k: nat, prev: int, path: Path)
    requires Tree(pool, count, at, kids) && Picked(pool, at, kids, p, i, n, k, prev, path)
    ensures p != path && Holds(Unlinked(pool, n, prev, k), at - {path}, p, Without(kids[n], i))
  {
    hide Tree, Named, Chain, Unlinked;
    TreeAt(pool, count, at, kids, p);
    var ks, pool' := kids[n], Unlinked(pool, n, prev, k);
    var rest := Without(ks, i);
    ChainDistinct(pool, pool[n].firstChild, ks);
    UnlinkedChain(pool, n, ks, i, prev);
    forall l | l in rest
      ensures l in ks && l != k && l < |pool| && pool'[l].name == pool[l].name && p + [pool[l].name] != path
    {
      var b :| 0 <= b < |rest| && rest[b] == l;
      assert l == ks[if b < i then b else b + 1];
      assert at[p + [pool[l].name]] == l;
      UnlinkedSame(pool, n, prev, k, l);
    }
    UnlinkedSame(pool, n, prev, k, n);
  }

  lemma UnlinkedNamed(pool: seq<Node>, count: nat, at: map<Path, nat>, kids: seq<seq<nat>>,
                      p: Path, i: nat, n: nat, k: nat, prev: int, path: Path, q: Path)
    requires Tree(pool, count, at, kids) && Picked(pool, at, kids, p, i, n, k, prev, path)
    requires q in at && q != path && kids[k] == []
    ensures at[q] < |pool| && Named(Unlinked(pool, n, prev, k), at - {path}, q)
    ensures q != [] ==> at[q] in kids[n := Without(kids[n], i)][at[Parent(q)]]
  {
    hide Tree, Chain, Unlinked;
    TreeAt(pool, count, at, kids, q);
    TreeAt(pool, count, at, kids, path);
    UnlinkedSame(pool, n, prev, k, at[q]);
    if q != [] {
      TreeAt(pool, count, at, kids, Parent(q));
      if Parent(q) == p {
        KeptWithout(kids[n], i, at[q]);
      }
    }
  }

  /** What the tree left says of one path. */
  lemma RemovedAt(pool: seq<Node>, count: nat, at: map<Path, nat>, kids: seq<seq<nat>>,
                  p: Path, i: nat, n: nat, k: nat, prev: int, path: Path, q: Path)
    requires Tree(pool, count, at, kids) && Picked(pool, at, kids, p, i, n, k, prev, path) && kids[k] == []
    requires q in at && q != path
    ensures var pool', at', kids' := Unlinked(pool, n, prev, k), at - {path}, kids[n := Without(kids[n], i)];
            Fits(pool', at', kids', q)
  {
    hide Tree, Chain, Unlinked, Named, Holds;
    TreeAt(pool, count, at, kids, q);
    UnlinkedNamed(pool, count, at, kids, p, i, n, k, prev, path, q);
    if q == p {
      UnlinkedHere(pool, count, at, kids, p, i, n, k, prev, path);
    } else {
      UnlinkedElsewhere(pool, count, at, kids, p, i, n, k, prev, path, q);
      assert at[q] != n;
    }
  }

  lemma RemovedLocated(pool: seq<Node>, count: nat, at: map<Path, nat>, kids: seq<seq<nat>>,
                       p: Path, i: nat, n: nat, k: nat, prev: int, path: Path)
    requires Tree(pool, count, at, kids) && Picked(pool, at, kids, p, i, n, k, prev, path)
    ensures Located(Unlinked(pool, n, prev, k), count, at - {path})
  {
    hide Fits, Unlinked;
    UnlinkedSame(pool, n, prev, k, 0);
    ParentOfChild(p, pool[k].name);
  }

  /** A childless node taken out of its parent's chain leaves a tree without it. */
  lemma RemoveNode(pool: seq<Node>, count: nat, at: map<Path, nat>, kids: seq<seq<nat>>,
                   p: Path, i: nat, n: nat, k: nat, prev: int, path: Path)
    requires Tree(pool, count, at, kids) && Picked(pool, at, kids, p, i, n, k, prev, path) && kids[k] == []
    ensures Tree(Unlinked(pool, n, prev, k), count, at - {path}, kids[n := Without(kids[n], i)])
  {
    var pool', at', kids' := Unlinked(pool, n, prev, k), at - {path}, kids[n := Without(kids[n], i)];
    hide Fits, Unlinked, Located, Without, Tree;
    RemovedLocated(pool, count, at, kids, p, i, n, k, prev, path);
    TreeAt(pool, count, at, kids, p);
    forall q | q in at' ensures Fits(pool', at', kids', q) {
      RemovedAt(pool, count, at, kids, p, i, n, k, prev, path, q);
    }
    AllFit(pool', count, at', kids');
  }

  lemma KeptWithout(ks: seq<nat>, i: nat, k: nat)
    requires i < |ks| && k in ks && k != ks[i]
    ensures k in Without(ks, i)
  {
    var b :| 0 <= b < |ks| && ks[b] == k;
    assert Without(ks, i)[if b < i then b else b - 1] == k;
  }
}
