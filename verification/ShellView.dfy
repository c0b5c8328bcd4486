/**
 The map of files a node pool and an arena stand for (userland/shell.c:33-96), and what
 each change of the pool does to it.
 */
module ShellView {
  import opened ShellPaths
  import opened ShellTree
  import opened ShellCommands

  /** A node's contents. */
  function TextOf(arena: string, nd: Node): string {
    if 0 <= nd.data && nd.data + nd.size <= |arena| then arena[nd.data..nd.data + nd.size] else ""
  }

  function EntryOf(arena: string, nd: Node): Entry {
    if nd.isDir then Folder else File(TextOf(arena, nd))
  }

  function FilesOf(pool: seq<Node>, arena: string, at: map<Path, nat>): (files: Files)
    requires forall p :: p in at ==> at[p] < |pool|
  {
    map p | p in at :: EntryOf(arena, pool[at[p]])
  }

  /** A node's storage ends below the arena's index; only files have any. */
  predicate Stays(nd: Node, next: nat) {
    && |nd.name| < NAME_MAX
    && ((nd.data == -1 && nd.size == 0) || (0 <= nd.data && nd.data + nd.size <= next && !nd.isDir))
  }

  predicate Apart(x: Node, y: Node) {
    x.data == -1 || y.data == -1 || x.data + x.size <= y.data || y.data + y.size <= x.data
  }

  /** Storage ranges are in the part of the arena handed out, and pairwise disjoint. */
  predicate Laid(pool: seq<Node>, at: map<Path, nat>, next: nat)
    requires forall p :: p in at ==> at[p] < |pool|
  {
    && (forall p :: p in at ==> Stays(pool[at[p]], next))
    && (forall p, q :: p in at && q in at && p != q ==> Apart(pool[at[p]], pool[at[q]]))
  }

  lemma TreeBounds(pool: seq<Node>, count: nat, at: map<Path, nat>, kids: seq<seq<nat>>)
    requires Tree(pool, count, at, kids)
    ensures |pool| == MAX_NODES && 1 <= count <= MAX_NODES && [] in at && forall p :: p in at ==> at[p] < |pool|
  {
    hide Fits;
  }

  /** The files of a tree are sound. */
  lemma ViewSound(pool: seq<Node>, count: nat, at: map<Path, nat>, kids: seq<seq<nat>>, arena: string, next: nat)
    requires Tree(pool, count, at, kids)
    ensures forall p :: p in at ==> at[p] < |pool|
    ensures Laid(pool, at, next) ==> Sound(FilesOf(pool, arena, at))
  {
    hide Tree, Named, Holds;
    TreeBounds(pool, count, at, kids);
    TreeAt(pool, count, at, kids, []);
    if Laid(pool, at, next) {
      var files := FilesOf(pool, arena, at);
      forall p | p in files && p != [] ensures IsFolder(files, Parent(p)) && |Last(p)| < NAME_MAX {
        NodeAbove(pool, count, at, kids, p);
        assert Stays(pool[at[p]], next);
      }
    }
  }

  /** What stands above a node is a directory. */
  lemma NodeAbove(pool: seq<Node>, count: nat, at: map<Path, nat>, kids: seq<seq<nat>>, p: Path)
    requires Tree(pool, count, at, kids) && p in at && p != []
    ensures at[p] < |pool| && pool[at[p]].name == Last(p)
    ensures Parent(p) in at && at[Parent(p)] < |pool| && pool[at[Parent(p)]].isDir
  {
    hide Tree, Chain;
    TreeAt(pool, count, at, kids, p);
    TreeAt(pool, count, at, kids, Parent(p));
  }

  lemma {:induction false} EmptyChain(pool: seq<Node>, first: int, ks: seq<nat>)
    requires Chain(pool, first, ks)
    ensures ks == [] <==> first == -1
  {
  }

  lemma {:induction false} HasChild(pool: seq<Node>, count: nat, at: map<Path, nat>, kids: seq<seq<nat>>, p: Path)
    requires Tree(pool, count, at, kids) && p in at
    ensures at[p] < |pool| && at[p] < |kids| && (kids[at[p]] == [] <==> pool[at[p]].firstChild == -1)
    ensures kids[at[p]] != [] ==> exists q :: q in at && q != [] && Parent(q) == p
  {
    hide Tree, Named, Chain, Located;
    TreeAt(pool, count, at, kids, p);
    LocatedBound(pool, count, at, p);
    var ks := kids[at[p]];
    EmptyChain(pool, pool[at[p]].firstChild, ks);
    if ks != [] {
      var k := ks[0];
      assert k in ks;
      ParentOfChild(p, pool[k].name);
      var q := p + [pool[k].name];
      assert q in at && q != [] && Parent(q) == p;
    }
  }

  lemma LocatedBound(pool: seq<Node>, count: nat, at: map<Path, nat>, p: Path)
    requires Located(pool, count, at) && p in at
    ensures at[p] < count <= |pool| == MAX_NODES
  {
  }

  lemma IsChild(pool: seq<Node>, count: nat, at: map<Path, nat>, kids: seq<seq<nat>>, q: Path)
    requires Tree(pool, count, at, kids) && q in at && q != []
    ensures |kids| == MAX_NODES && Parent(q) in at && at[Parent(q)] < MAX_NODES && kids[at[Parent(q)]] != []
  {
    hide Tree, Chain, Holds;
    TreeAt(pool, count, at, kids, q);
  }

  /** A directory is empty in the map when its list of children is. */
  lemma EmptyMeans(pool: seq<Node>, count: nat, at: map<Path, nat>, kids: seq<seq<nat>>, files: Files, p: Path)
    requires Tree(pool, count, at, kids) && p in at && files.Keys == at.Keys
    ensures at[p] < |pool| && at[p] < |kids| && (IsEmpty(files, p) <==> kids[at[p]] == [])
    ensures kids[at[p]] == [] <==> pool[at[p]].firstChild == -1
  {
    hide Tree;
    HasChild(pool, count, at, kids, p);
    if kids[at[p]] != [] {
      var q :| q in at && q != [] && Parent(q) == p;
      assert q in files;
    } else {
      forall q | q in files && q != [] ensures Parent(q) != p {
        IsChild(pool, count, at, kids, q);
      }
    }
  }

  // ----- one node more

  lemma AddedLaid(pool: seq<Node>, count: nat, at: map<Path, nat>, p: Path, name: string, isDir: bool, next: nat)
    requires Located(pool, count, at) && count < MAX_NODES && p in at && |name| < NAME_MAX
    requires p + [name] !in at && Laid(pool, at, next)
    ensures at[p] < count
    ensures var pool', at' := Added(pool, count, at[p], name, isDir), at[p + [name] := count];
            (forall q :: q in at' ==> at'[q] < |pool'|) && Laid(pool', at', next)
  {
    var path, pool', at' := p + [name], Added(pool, count, at[p], name, isDir), at[p + [name] := count];
    forall q | q in at
      ensures at[q] < count && Stays(pool'[at[q]], next)
      ensures pool'[at[q]].data == pool[at[q]].data && pool'[at[q]].size == pool[at[q]].size
    {
      assert Stays(pool[at[q]], next);
    }
    forall q, r | q in at' && r in at' && q != r ensures Apart(pool'[at'[q]], pool'[at'[r]]) {
      if q in at && r in at && q != path && r != path {
        assert Apart(pool[at[q]], pool[at[r]]);
      }
    }
  }

  lemma AddedView(pool: seq<Node>, count: nat, at: map<Path, nat>, p: Path, name: string, isDir: bool, arena: string)
    requires Located(pool, count, at) && count < MAX_NODES && p in at && p + [name] !in at
    ensures at[p] < count
    ensures var pool', at' := Added(pool, count, at[p], name, isDir), at[p + [name] := count];
            && (forall q :: q in at' ==> at'[q] < |pool'|)
            && FilesOf(pool', arena, at') == FilesOf(pool, arena, at)[p + [name] := if isDir then Folder else File("")]
  {
    var path, pool', at' := p + [name], Added(pool, count, at[p], name, isDir), at[p + [name] := count];
    forall q | q in at ensures at[q] < count && EntryOf(arena, pool'[at[q]]) == EntryOf(arena, pool[at[q]]) {
    }
    assert FilesOf(pool', arena, at') == FilesOf(pool, arena, at)[path := if isDir then Folder else File("")];
  }

  // ----- one node less

  lemma RemovedView(pool: seq<Node>, at: map<Path, nat>, n: nat, prev: int, k: nat, path: Path, arena: string, next: nat)
    requires (forall p :: p in at ==> at[p] < |pool|) && n < |pool| && k < |pool| && -1 <= prev < |pool|
    requires Laid(pool, at, next)
    ensures var pool', at' := Unlinked(pool, n, prev, k), at - {path};
            Laid(pool', at', next) && FilesOf(pool', arena, at') == FilesOf(pool, arena, at) - {path}
  {
    hide Unlinked;
    var pool', at' := Unlinked(pool, n, prev, k), at - {path};
    forall q | q in at'
      ensures EntryOf(arena, pool'[at'[q]]) == EntryOf(arena, pool[at[q]]) && Stays(pool'[at'[q]], next)
      ensures pool'[at[q]].data == pool[at[q]].data && pool'[at[q]].size == pool[at[q]].size
    {
      UnlinkedSame(pool, n, prev, k, at[q]);
      assert Stays(pool[at[q]], next);
    }
    forall q, r | q in at' && r in at' && q != r ensures Apart(pool'[at'[q]], pool'[at'[r]]) {
      assert Apart(pool[at[q]], pool[at[r]]);
    }
  }

  // ----- new contents

  lemma StoredTree(pool: seq<Node>, count: nat, at: map<Path, nat>, kids: seq<seq<nat>>, k: nat, data: int, size: nat)
    requires Tree(pool, count, at, kids) && k < |pool|
    ensures Tree(pool[k := pool[k].(data := data, size := size)], count, at, kids)
  {
    hide Tree, Named, Holds;
    var pool' := pool[k := pool[k].(data := data, size := size)];
    TreeBounds(pool, count, at, kids);
    TreeAt(pool, count, at, kids, []);
    assert Located(pool', count, at);
    forall p | p in at ensures Fits(pool', at, kids, p) {
      TreeAt(pool, count, at, kids, p);
      StoredFits(pool, pool', at, kids, k, p, data, size);
    }
    AllFit(pool', count, at, kids);
  }

  lemma StoredFits(pool: seq<Node>, pool': seq<Node>, at: map<Path, nat>, kids: seq<seq<nat>>, k: nat, p: Path, data: int, size: nat)
    requires k < |pool| && pool' == pool[k := pool[k].(data := data, size := size)]
    requires p in at && at[p] < |pool| && Fits(pool, at, kids, p)
    ensures Fits(pool', at, kids, p)
  {
    ChainSame(pool, pool', pool[at[p]].firstChild, kids[at[p]]);
  }

  lemma StoredLaid(pool: seq<Node>, count: nat, at: map<Path, nat>, path: Path, next: nat, size: nat)
    requires Located(pool, count, at) && path in at && Laid(pool, at, next) && !pool[at[path]].isDir
    ensures Laid(pool[at[path] := pool[at[path]].(data := next, size := size)], at, next + RoundUp(size))
  {
    var k := at[path];
    var pool' := pool[k := pool[k].(data := next, size := size)];
    var top := next + RoundUp(size);
    assert next + size <= top;
    hide RoundUp;
    forall q | q in at ensures Stays(pool'[at[q]], top) && (q != path ==> at[q] != k && Stays(pool[at[q]], next)) {
      assert Stays(pool[at[q]], next);
    }
    forall q, r | q in at && r in at && q != r ensures Apart(pool'[at[q]], pool'[at[r]]) {
      assert Apart(pool[at[q]], pool[at[r]]);
    }
  }

  /** The other files keep their text: their storage is below what was written. */
  lemma TextKept(nd: Node, arena: string, arena': string, next: nat)
    requires Stays(nd, next) && next <= |arena| == |arena'| && arena'[..next] == arena[..next]
    ensures EntryOf(arena', nd) == EntryOf(arena, nd)
  {
    if nd.data != -1 {
      assert arena[..next][nd.data..nd.data + nd.size] == arena[nd.data..nd.data + nd.size];
      assert arena'[..next][nd.data..nd.data + nd.size] == arena'[nd.data..nd.data + nd.size];
    }
  }

  lemma StoredView(pool: seq<Node>, count: nat, at: map<Path, nat>, path: Path, arena: string, arena': string, next: nat, text: string)
    requires Located(pool, count, at) && path in at && Laid(pool, at, next) && !pool[at[path]].isDir
    requires next + |text| <= |arena| == |arena'| && arena'[..next] == arena[..next]
    requires arena'[next..next + |text|] == text
    ensures FilesOf(pool[at[path] := pool[at[path]].(data := next, size := |text|)], arena', at)
         == FilesOf(pool, arena, at)[path := File(text)]
  {
    var k := at[path];
    var pool' := pool[k := pool[k].(data := next, size := |text|)];
    assert EntryOf(arena', pool'[k]) == File(text);
    hide EntryOf;
    forall q | q in at && q != path ensures EntryOf(arena', pool'[at[q]]) == EntryOf(arena, pool[at[q]]) {
      assert at[q] != k && Stays(pool[at[q]], next);
      TextKept(pool[at[q]], arena, arena', next);
    }
    assert FilesOf(pool', arena', at) == FilesOf(pool, arena, at)[path := File(text)];
  }
}
