/**
 The shell's in-memory filesystem (userland/shell.c:33-212, 412-587): a pool of linked
 nodes and a bump-allocated arena. Every command does to the map of files what
 ShellCommands says, and keeps the pool a tree with disjoint storage.
 */
module ShellVfs {
  import opened ShellPaths
  import opened ShellTree
  import opened ShellCommands
  import opened ShellView

  /** The node at a path, or a null pointer. */
  function NodeAt(at: map<Path, nat>, p: Path): int {
    if p in at then at[p] else -1
  }

  // ----- paths in a tree

  lemma {:induction false} PrefixIn(pool: seq<Node>, count: nat, at: map<Path, nat>, kids: seq<seq<nat>>, p: Path, k: nat)
    requires Tree(pool, count, at, kids) && p in at && k <= |p|
    ensures p[..k] in at
    decreases |p|
  {
    hide Tree, Chain, Holds;
    if k < |p| {
      NodeAbove(pool, count, at, kids, p);
      PrefixIn(pool, count, at, kids, Parent(p), k);
      assert Parent(p)[..k] == p[..k];
    } else {
      assert p[..k] == p;
    }
  }

  /** A missing prefix is a missing node. */
  lemma MissingBelow(pool: seq<Node>, count: nat, at: map<Path, nat>, kids: seq<seq<nat>>, q: Path, cs: Path)
    requires Tree(pool, count, at, kids) && q !in at && q <= cs && |q| < |cs|
    ensures cs !in at && Parent(cs) !in at
  {
    hide Tree;
    assert cs[..|q|] == q && Parent(cs)[..|q|] == q;
    if cs in at {
      PrefixIn(pool, count, at, kids, cs, |q|);
    }
    if Parent(cs) in at {
      PrefixIn(pool, count, at, kids, Parent(cs), |q|);
    }
  }

  /** All parts but the last stay as they are when more characters follow. */
  lemma {:induction false} PartsPrefix(s: string, k: nat)
    requires k <= |s|
    ensures var ps, n := Parts(s), |Parts(s[..k])|; n <= |ps| && Parts(s[..k])[..n - 1] == ps[..n - 1]
    decreases |s|
  {
    if k < |s| {
      var t, n := s[..|s| - 1], |Parts(s[..k])|;
      PartsPrefix(t, k);
      assert t[..k] == s[..k];
      assert Parts(s)[..n - 1] == Parts(t)[..n - 1];
    } else {
      assert s[..k] == s;
    }
  }

  /** A part that a slash follows is one of the path's, and not the last. */
  lemma PartBefore(s: string, start: nat, p: nat, before: seq<string>)
    requires start <= p < |s| && Parts(s[..p]) == before + [s[start..p]] && s[p] == '/'
    ensures before + [s[start..p]] <= Parts(s) && |before| + 1 < |Parts(s)|
  {
    var part := s[start..p];
    PartsNext(s, start, p, before);
    PartsPrefix(s, p + 1);
    assert (before + [part] + [s[p + 1..p + 1]])[..|before| + 1] == before + [part];
  }

  /** The normal form of a path is "/" for the root only. */
  lemma RootAlone(cs: Path)
    requires ValidPath(cs)
    ensures Render(cs) == "/" <==> cs == []
  {
    if cs != [] {
      PartsAfterSlash(cs);
      assert ValidName(cs[0]) && Parts("") == [""] && "/"[1..] == "";
    }
  }

  class Vfs {
    const pool: array<Node>
    const arena: array<char>
    var count: nat
    var next: nat
    var cwd: string
    ghost var at: map<Path, nat>
    ghost var kids: seq<seq<nat>>
    ghost var here: Path

    ghost predicate Linked()
      reads this, pool
    {
      pool.Length == MAX_NODES && Tree(pool[..], count, at, kids)
    }

    ghost predicate Valid()
      reads this, pool, arena
    {
      && (pool as object) != (arena as object) && arena.Length == ARENA_SIZE && next <= ARENA_SIZE
      && Linked() && InPool(at, |pool[..]|) && Laid(pool[..], at, next)
      && ValidPath(here) && cwd == Render(here) && |cwd| < PATH_MAX
    }

    ghost function View(): Disk
      requires Valid()
      reads this, pool, arena
    {
      Disk(FilesOf(pool[..], arena[..], at), count, next)
    }

    ghost function Now(): Session
      requires Valid()
      reads this, pool, arena
    {
      Session(View(), here)
    }

    /** vfs_init. */
    constructor ()
      ensures Valid() && fresh(pool) && fresh(arena)
      ensures Now() == Session(Disk(map[[] := Folder], 1, 0), [])
    {
      pool := new Node[MAX_NODES](_ => Node("", false, -1, -1, -1, -1, 0));
      arena := new char[ARENA_SIZE];
      count, next, cwd, here := 1, 0, "/", [];
      at, kids := map[[] := 0], seq(MAX_NODES, _ => []);
      new;
      pool[0] := Node("/", true, -1, -1, -1, -1, 0);
      RootTree(pool[..], at, kids);
      assert Stays(pool[0], next);
      assert FilesOf(pool[..], arena[..], at) == map[[] := Folder];
    }

    /** find_child: the child of that name, or null. */
    method FindChild(dir: nat, name: string, ghost p: Path) returns (c: int)
      requires Linked() && p in at && at[p] == dir
      ensures c == NodeAt(at, p + [name])
    {
      hide Tree, Named;
      TreeAt(pool[..], count, at, kids, p);
      LocatedAt(pool[..], count, at, p);
      ghost var ks := kids[dir];
      c := pool[dir].firstChild;
      ghost var i := 0;
      assert ks[0..] == ks;
      while c != -1 && pool[c].name != name
        invariant i <= |ks| && Chain(pool[..], c, ks[i..])
        invariant c != -1 ==> i < |ks| && ks[i] == c && 0 <= c < pool.Length
        invariant forall j :: 0 <= j < i ==> ks[j] < pool.Length && pool[ks[j]].name != name
        decreases |ks| - i
      {
        assert ks[i..][1..] == ks[i + 1..];
        c := pool[c].nextSibling;
        i := i + 1;
      }
      ChildAt(pool[..], count, at, kids, p, name);
      if c == -1 {
        assert i == |ks|;
      } else {
        assert ks[i] in ks;
      }
    }

    /** vfs_walk, for a path in normal form: the node at the path, or the one above with the last name. */
    method Walk(path: string, wantParent: bool, ghost cs: Path) returns (node: int, last: string)
      requires Linked() && ValidPath(cs) && path == Render(cs) && |path| < PATH_MAX
      ensures !wantParent ==> node == NodeAt(at, cs)
      ensures wantParent ==> node == if cs == [] then -1 else NodeAt(at, Parent(cs))
      ensures wantParent && node != -1 ==> last == Copy(Last(cs), NAME_MAX)
    {
      last := "";
      RootAlone(cs);
      TreeBounds(pool[..], count, at, kids);
      TreeAt(pool[..], count, at, kids, []);
      if path == "/" {
        return if wantParent then -1 else 0, last;
      }
      PartsAfterSlash(cs);
      node, last := WalkParts(Copy(path[1..], PATH_MAX), wantParent, cs);
    }

    method WalkParts(tmp: string, wantParent: bool, ghost cs: Path) returns (node: int, last: string)
      requires Linked() && cs != [] && Parts(tmp) == cs
      ensures !wantParent ==> node == NodeAt(at, cs)
      ensures wantParent ==> node == NodeAt(at, Parent(cs))
      ensures wantParent && node != -1 ==> last == Copy(Last(cs), NAME_MAX)
    {
      hide Parts, Tree, Located, Named, Holds;
      NothingYet(tmp);
      TreeBounds(pool[..], count, at, kids);
      RootAt(pool[..], count, at, kids);
      last := "";
      var cur, start, p := 0, 0, 0;
      ghost var before: Path := [];
      while true
        invariant 0 <= start <= p <= |tmp|
        invariant Parts(tmp[..p]) == before + [tmp[start..p]]
        invariant before in at && at[before] == cur
        decreases |tmp| - p
      {
        if p == |tmp| || tmp[p] == '/' {
          var done := p == |tmp|;
          var part := tmp[start..p];
          ghost var further := before + [part];
          if done {
            assert tmp[..p] == tmp;
            assert cs == further && Parent(cs) == before && Last(cs) == part;
          } else {
            PartBefore(tmp, start, p, before);
            PartsNext(tmp, start, p, before);
          }
          if done && wantParent {
            return cur, Copy(part, NAME_MAX);
          }
          TreeAt(pool[..], count, at, kids, before);
          if further !in at && !done {
            MissingBelow(pool[..], count, at, kids, further, cs);
          }
          if !pool[cur].isDir {
            NothingBelow(pool[..], count, at, kids, before, part);
            return -1, last;
          }
          var child := FindChild(cur, part, before);
          if child == -1 {
            return -1, last;
          }
          cur := child;
          if done {
            return cur, last;
          }
          before := further;
          start := p + 1;
        } else {
          PartsNext(tmp, start, p, before);
        }
        p := p + 1;
      }
    }

    /** node_alloc: takes the next node and puts it first among the directory's children. */
    method NodeAlloc(name: string, isDir: bool, parent: nat, ghost p: Path) returns (n: int)
      requires Valid() && p in at && at[p] == parent && pool[parent].isDir
      requires |name| < NAME_MAX && p + [name] !in at && p + [name] != ["dev"]
      modifies pool, this`count, this`at, this`kids
      ensures Valid()
      ensures old(count) >= MAX_NODES ==> n == -1 && View() == old(View()) && at == old(at)
      ensures old(count) < MAX_NODES ==>
                && n == old(count) && p + [name] in at && at[p + [name]] == n && pool[n].isDir == isDir
                && View() == Disk(old(View()).files[p + [name] := if isDir then Folder else File("")], old(count) + 1, next)
    {
      hide Tree, Located, Laid, FilesOf, Added, InPool;
      if count >= MAX_NODES {
        return -1;
      }
      LocatedOf(pool[..], count, at, kids);
      LocatedAt(pool[..], count, at, p);
      NodeAdded(pool[..], count, at, kids, p, name, isDir, arena[..], next);
      TakeNode(name, isDir, parent);
      n := count;
      at := at[p + [name] := n];
      kids := kids[parent := [n] + kids[parent]][n := []];
      count := count + 1;
    }

    /** Fills the next node in and links it. */
    method TakeNode(name: string, isDir: bool, parent: nat)
      requires count < pool.Length && parent < count && |name| < NAME_MAX
      modifies pool
      ensures pool[..] == Added(old(pool[..]), count, parent, name, isDir)
    {
      pool[count] := Node(Copy(name, NAME_MAX), isDir, parent, -1, -1, -1, 0);
      pool[count] := pool[count].(nextSibling := pool[parent].firstChild);
      pool[parent] := pool[parent].(firstChild := count);
    }

    /** arena_alloc: the next multiple of 8 bytes that holds n, if the arena has it. */
    method ArenaAlloc(n: nat) returns (p: int)
      requires next <= ARENA_SIZE
      modifies this`next
      ensures old(next) + RoundUp(n) > ARENA_SIZE ==> p == -1 && next == old(next)
      ensures old(next) + RoundUp(n) <= ARENA_SIZE ==> p == old(next) && next == old(next) + RoundUp(n)
    {
      var m := RoundUp(n);
      if next + m > ARENA_SIZE {
        return -1;
      }
      p := next;
      next := next + m;
    }

    /** xmemcpy into the arena. */
    method CopyIn(at0: nat, text: string)
      requires at0 + |text| <= arena.Length
      modifies arena
      ensures arena[..at0] == old(arena[..at0]) && arena[at0..at0 + |text|] == text
    {
      var i := 0;
      while i < |text|
        invariant i <= |text|
        invariant arena[..at0] == old(arena[..at0]) && arena[at0..at0 + i] == text[..i]
      {
        arena[at0 + i] := text[i];
        i := i + 1;
      }
    }

    /** xstrcpy of new contents into the arena, by node k at `path`. */
    method Store(k: nat, text: string, ghost path: Path) returns (ok: bool)
      requires Valid() && path in at && at[path] == k && !pool[k].isDir
      modifies pool, arena, this`next
      ensures Valid() && at == old(at)
      ensures (View(), if ok then Done else NoStorage) == Stored(old(View()), path, text)
    {
      hide Tree, Located, Laid, FilesOf, InPool;
      LocatedOf(pool[..], count, at, kids);
      LocatedAt(pool[..], count, at, path);
      ghost var was, bytes, at0 := pool[..], arena[..], next;
      var data := ArenaAlloc(|text|);
      if data == -1 {
        return false;
      }
      CopyIn(data, text);
      pool[k] := pool[k].(data := data, size := |text|);
      StoredTree(was, count, at, kids, k, data, |text|);
      StoredLaid(was, count, at, path, data, |text|);
      StoredView(was, count, at, path, bytes, arena[..], data, text);
      assert pool[..] == was[k := was[k].(data := data, size := |text|)];
      ok := true;
    }

    /** Takes a child out of its parent's chain: walks to the sibling before it. */
    method Unlink(parent: nat, target: nat, ghost ks: seq<nat>, ghost i: nat)
      requires parent < pool.Length && target < pool.Length && Chain(pool[..], pool[parent].firstChild, ks)
      requires i < |ks| && ks[i] == target && forall k :: k in ks ==> k < pool.Length
      modifies pool
      ensures -1 <= Prev(ks, i) < pool.Length
      ensures pool[..] == Unlinked(old(pool[..]), parent, Prev(ks, i), target)
    {
      ghost var was, first := pool[..], pool[parent].firstChild;
      ChainDistinct(was, first, ks);
      assert ks[0] in ks && (i > 0 ==> ks[i - 1] in ks);
      if pool[parent].firstChild == target {
        pool[parent] := pool[parent].(firstChild := pool[target].nextSibling);
      } else {
        var prev := pool[parent].firstChild;
        ghost var j := 0;
        ChainStep(was, first, ks, 0);
        while prev != -1 && pool[prev].nextSibling != target
          modifies {}
          invariant j < i && prev == ks[j] < pool.Length
          invariant pool[prev].nextSibling == ks[j + 1]
          decreases i - j
        {
          prev := pool[prev].nextSibling;
          j := j + 1;
          ChainStep(was, first, ks, j);
        }
        assert j + 1 == i;
        if prev != -1 {
          pool[prev] := pool[prev].(nextSibling := pool[target].nextSibling);
        }
      }
    }

    /** cmd_mkdir. */
    method MkDir(input: string) returns (o: Outcome)
      requires Valid()
      modifies pool, this`count, this`at, this`kids
      ensures Valid()
      ensures (Now(), o) == Enter(old(Now()), MkdirLine(input))
    {
      hide Tree, Located, Laid, FilesOf, InPool, Resolved, UnderDev;
      ghost var cs := Resolved(here, input);
      Normal(cwd, here, input);
      var path := NormalizePath(cwd, input);
      if IsDevPath(path) {
        return ReadOnly;
      }
      var parent, last := Walk(path, true, cs);
      if cs != [] {
        TargetParent(cs);
        FilesAt(pool[..], count, at, kids, arena[..], Parent(cs));
        FilesAt(pool[..], count, at, kids, arena[..], Target(cs));
      }
      if parent == -1 || !pool[parent].isDir {
        return NoDirectory;
      }
      o := MkDirIn(parent, last, cs);
    }

    method MkDirIn(parent: nat, last: string, ghost cs: Path) returns (o: Outcome)
      requires Valid() && cs != [] && !UnderDev(cs) && last == Copy(Last(cs), NAME_MAX)
      requires Parent(cs) in at && at[Parent(cs)] == parent && IsFolder(View().files, Parent(cs))
      modifies pool, this`count, this`at, this`kids
      ensures Valid()
      ensures (View(), o) == Made(old(View()), cs)
    {
      hide Tree, Located, Laid, FilesOf, InPool, UnderDev;
      TargetParent(cs);
      FilesAt(pool[..], count, at, kids, arena[..], Parent(cs));
      FilesAt(pool[..], count, at, kids, arena[..], Target(cs));
      var child := FindChild(parent, last, Parent(cs));
      if child != -1 {
        return Exists;
      }
      var n := NodeAlloc(last, true, parent, Parent(cs));
      return if n == -1 then NoNodes else Done;
    }

    /** cmd_rm. */
    method Rm(input: string) returns (o: Outcome)
      requires Valid()
      modifies pool, this`at, this`kids
      ensures Valid()
      ensures (Now(), o) == Enter(old(Now()), RmLine(input))
    {
      hide Tree, Located, Laid, FilesOf, InPool, Resolved, UnderDev, IsEmpty;
      ghost var cs := Resolved(here, input);
      Normal(cwd, here, input);
      var path := NormalizePath(cwd, input);
      if IsDevPath(path) {
        return Kernel;
      }
      var parent, last := Walk(path, true, cs);
      if parent == -1 {
        NoParent(pool[..], count, at, kids, arena[..], cs);
        return NoFile;
      }
      FilesAt(pool[..], count, at, kids, arena[..], Target(cs));
      FilesAt(pool[..], count, at, kids, arena[..], Parent(cs));
      var target := FindChild(parent, last, Parent(cs));
      if target == -1 {
        return NoFile;
      }
      EmptyMeans(pool[..], count, at, kids, View().files, Target(cs));
      FileHasNone(pool[..], count, at, kids, Target(cs));
      if pool[target].isDir && pool[target].firstChild != -1 {
        return NotEmpty;
      }
      RemoveAt(parent, target, Parent(cs), Target(cs));
      return Done;
    }

    method RemoveAt(parent: nat, target: nat, ghost p: Path, ghost path: Path)
      requires Valid() && p in at && at[p] == parent && path in at && at[path] == target
      requires path != [] && Parent(path) == p && target < |kids| && kids[target] == []
      modifies pool, this`at, this`kids
      ensures Valid() && View() == old(View()).(files := old(View()).files - {path})
    {
      hide Tree, Located, Laid, FilesOf, InPool, Unlinked;
      ghost var i, prev := PickedAt(pool[..], count, at, kids, p, path);
      RemoveNode(pool[..], count, at, kids, p, i, parent, target, prev, path);
      RemovedAll(pool[..], at, parent, prev, target, path, arena[..], next);
      Unlink(parent, target, kids[parent], i);
      at := at - {path};
      kids := kids[parent := Without(kids[parent], i)];
    }

    /** cmd_echo: the words before the first ">" go to the file named after it. */
    method Echo(argv: seq<string>) returns (o: Outcome)
      requires Valid() && |argv| >= 1
      modifies pool, arena, this`count, this`next, this`at, this`kids
      ensures Valid()
      ensures forall k: nat :: RedirectAt(argv, k) && k + 1 < |argv| ==>
                (Now(), o) == Enter(old(Now()), EchoLine(argv[1..k], argv[k + 1]))
      ensures RedirectAt(argv, |argv| - 1) ==> (Now(), o) == (old(Now()), NoTarget)
      ensures ">" !in argv[1..] ==> Now() == old(Now()) && o == Printed
    {
      hide Tree, Located, Laid, FilesOf, InPool, Enter;
      var k := 1;
      while k < |argv| && argv[k] != ">"
        invariant 1 <= k <= |argv| && forall j :: 1 <= j < k ==> argv[j] != ">"
      {
        k := k + 1;
      }
      assert k < |argv| ==> argv[1..][k - 1] == ">";
      if k == |argv| {
        return Printed;
      }
      if k + 1 >= |argv| {
        return NoTarget;
      }
      o := EchoTo(argv[1..k], argv[k + 1]);
    }

    method EchoTo(words: seq<string>, input: string) returns (o: Outcome)
      requires Valid()
      modifies pool, arena, this`count, this`next, this`at, this`kids
      ensures Valid()
      ensures (Now(), o) == Enter(old(Now()), EchoLine(words, input))
    {
      hide Tree, Located, Laid, FilesOf, InPool, Resolved, UnderDev, LineOf, Stored;
      var buf := BuildLine(words);
      ghost var cs := Resolved(here, input);
      Normal(cwd, here, input);
      var path := NormalizePath(cwd, input);
      if IsDevPath(path) {
        return ReadOnly;
      }
      var parent, last := Walk(path, true, cs);
      if cs != [] {
        TargetParent(cs);
        FilesAt(pool[..], count, at, kids, arena[..], Parent(cs));
        FilesAt(pool[..], count, at, kids, arena[..], Target(cs));
      }
      if parent == -1 || !pool[parent].isDir {
        return NoDirectory;
      }
      o := EchoInto(parent, last, buf, cs);
    }

    /** Finds the file, or takes a node for it, and gives it the text. */
    method EchoInto(parent: nat, last: string, buf: string, ghost cs: Path) returns (o: Outcome)
      requires Valid() && cs != [] && !UnderDev(cs) && last == Copy(Last(cs), NAME_MAX)
      requires Parent(cs) in at && at[Parent(cs)] == parent && IsFolder(View().files, Parent(cs))
      modifies pool, arena, this`count, this`next, this`at, this`kids
      ensures Valid()
      ensures (View(), o) == Written(old(View()), cs, buf)
    {
      hide Tree, Located, Laid, FilesOf, InPool, UnderDev, Stored;
      TargetParent(cs);
      FilesAt(pool[..], count, at, kids, arena[..], Parent(cs));
      FilesAt(pool[..], count, at, kids, arena[..], Target(cs));
      var file := FindChild(parent, last, Parent(cs));
      if file == -1 {
        file := NodeAlloc(last, false, parent, Parent(cs));
        if file == -1 {
          return NoNodes;
        }
      }
      if pool[file].isDir {
        return IsDirectory;
      }
      var ok := Store(file, buf, Target(cs));
      return if ok then Done else NoStorage;
    }

    /** cmd_cd; `opens` says whether the kernel opens a device directory. */
    method Cd(input: string, opens: bool) returns (o: Outcome)
      requires Valid()
      modifies this`cwd, this`here
      ensures Valid()
      ensures (Now(), o) == Enter(old(Now()), CdLine(input, opens))
    {
      hide Tree, Located, Laid, FilesOf, InPool, Resolved, UnderDev;
      ghost var cs := Resolved(here, input);
      Normal(cwd, here, input);
      var path := NormalizePath(cwd, input);
      if IsDevPath(path) {
        if !opens {
          return NoDirectory;
        }
      } else {
        var n, _ := Walk(path, false, cs);
        FilesAt(pool[..], count, at, kids, arena[..], cs);
        if n == -1 || !pool[n].isDir {
          return NoDirectory;
        }
      }
      cwd := Copy(path, PATH_MAX);
      here := cs;
      return Done;
    }

    /** What cat finds at one path. */
    method CatOne(input: string) returns (r: Reading)
      requires Valid()
      ensures r == Read(View().files, Resolved(here, input))
    {
      hide Tree, Located, Laid, FilesOf, InPool, Resolved, UnderDev;
      ghost var cs := Resolved(here, input);
      Normal(cwd, here, input);
      var path := NormalizePath(cwd, input);
      if IsDevPath(path) {
        return Device;
      }
      var n, _ := Walk(path, false, cs);
      FilesAt(pool[..], count, at, kids, arena[..], cs);
      if n == -1 {
        return Missing;
      }
      if pool[n].isDir {
        return IsDir;
      }
      StoredBelow(pool[..], at, next, cs);
      if pool[n].data != -1 && pool[n].size != 0 {
        return Text(arena[pool[n].data..pool[n].data + pool[n].size]);
      }
      return Text("");
    }

    /** cmd_cat: its paths in order, whatever is found at each. */
    method Cat(inputs: seq<string>) returns (rs: seq<Reading>)
      requires Valid()
      ensures |rs| == |inputs| && forall i :: 0 <= i < |rs| ==> rs[i] == Read(View().files, Resolved(here, inputs[i]))
    {
      hide Tree, Located, Laid, FilesOf, InPool, Resolved, Read, View;
      rs := [];
      while |rs| < |inputs|
        invariant |rs| <= |inputs| && forall i :: 0 <= i < |rs| ==> rs[i] == Read(View().files, Resolved(here, inputs[i]))
      {
        var r := CatOne(inputs[|rs|]);
        rs := rs + [r];
      }
    }

    /** vfs_lookup: finds a node exactly where the map has an entry, and the right one. */
    method Lookup(path: string, ghost cs: Path) returns (node: int)
      requires Valid() && ValidPath(cs) && path == Render(cs) && |path| < PATH_MAX
      ensures node != -1 <==> cs in View().files
      ensures node != -1 ==> 0 <= node < pool.Length && View().files[cs] == EntryOf(arena[..], pool[node])
    {
      hide Tree, Located, Laid, FilesOf, InPool;
      FilesAt(pool[..], count, at, kids, arena[..], cs);
      var last: string;
      node, last := Walk(path, false, cs);
    }

    /** What holds between any two commands: a tree by parent links, unique names, disjoint storage. */
    lemma Structure()
      requires Valid()
      ensures Sound(View().files) && InPool(at, |pool[..]|) && Laid(pool[..], at, next)
      ensures ParentLinks(pool[..], at) && UniqueNames(pool[..], at, kids)
    {
      hide Tree, Located, Named, Holds, FilesOf, ParentLinks, UniqueNames, Sound, Laid, InPool;
      ViewSound(pool[..], count, at, kids, arena[..], next);
      LinksHold(pool[..], count, at, kids);
      NamesHold(pool[..], count, at, kids);
    }

    /** The commands of a session, in order. */
    method Enters(ls: seq<Line>)
      requires Valid()
      modifies this, pool, arena
      ensures Valid() && Now() == Play(old(Now()), ls)
    {
      hide Tree, Located, Laid, FilesOf, InPool, Enter, Play, View;
      ghost var first := Now();
      PlayNothing(first);
      var i := 0;
      while i < |ls|
        invariant i <= |ls| && Valid() && Now() == Play(first, ls[..i])
      {
        PlayNext(first, ls, i);
        var o := EnterLine(ls[i]);
        i := i + 1;
      }
      assert ls[..i] == ls;
    }

    /** Runs one command. */
    method EnterLine(l: Line) returns (o: Outcome)
      requires Valid()
      modifies this, pool, arena
      ensures Valid() && (Now(), o) == Enter(old(Now()), l)
    {
      hide Tree, Located, Laid, FilesOf, InPool, Enter, View;
      match l {
        case MkdirLine(input) => o := MkDir(input);
        case RmLine(input) => o := Rm(input);
        case CdLine(input, opens) => o := Cd(input, opens);
        case EchoLine(words, input) => o := EchoTo(words, input);
      }
    }
  }

  /** The first ">" after the command's name. */
  predicate RedirectAt(argv: seq<string>, k: nat) {
    1 <= k < |argv| && argv[k] == ">" && forall j :: 1 <= j < k ==> argv[j] != ">"
  }

  /** The line an echo writes, built word by word in its buffer. */
  method BuildLine(words: seq<string>) returns (buf: string)
    ensures buf == LineOf(words)
  {
    buf := "";
    var i := 0;
    while i < |words|
      invariant i <= |words| && buf == Words(words[..i])
    {
      if i > 0 {
        buf := ShellPaths.Cat(buf, " ", LINE_MAX);
      }
      buf := ShellPaths.Cat(buf, words[i], LINE_MAX);
      assert words[..i + 1][..i] == words[..i];
      i := i + 1;
    }
    assert words[..i] == words;
    buf := ShellPaths.Cat(buf, "\n", LINE_MAX);
  }

  lemma StoredBelow(pool: seq<Node>, at: map<Path, nat>, next: nat, p: Path)
    requires InPool(at, |pool|) && Laid(pool, at, next)
    ensures p in at ==> Stays(pool[at[p]], next)
  {
  }

  /** Each node below the root is in a node that it points back to, and no node stands at two paths. */
  predicate ParentLinks(pool: seq<Node>, at: map<Path, nat>) {
    && (forall p :: p in at && p != [] ==> Parent(p) in at && at[p] < |pool| && pool[at[p]].parent == at[Parent(p)])
    && (forall p, q :: p in at && q in at && p != q ==> at[p] != at[q])
  }

  predicate OwnNames(pool: seq<Node>, ks: seq<nat>, dev: bool) {
    && (forall k :: k in ks ==> k < |pool| && (dev ==> pool[k].name != "dev"))
    && (forall k, l :: k in ks && l in ks && pool[k].name == pool[l].name ==> k == l)
  }

  /** No two children of a node share a name, and no child of the root is called dev. */
  predicate UniqueNames(pool: seq<Node>, at: map<Path, nat>, kids: seq<seq<nat>>) {
    forall p :: p in at ==> at[p] < |kids| && OwnNames(pool, kids[at[p]], p == [])
  }

  lemma LinkHolds(pool: seq<Node>, count: nat, at: map<Path, nat>, kids: seq<seq<nat>>, p: Path)
    requires Tree(pool, count, at, kids) && p in at && p != []
    ensures Parent(p) in at && at[p] < |pool| && pool[at[p]].parent == at[Parent(p)]
  {
    hide Tree, Chain;
    TreeAt(pool, count, at, kids, p);
  }

  lemma LinksHold(pool: seq<Node>, count: nat, at: map<Path, nat>, kids: seq<seq<nat>>)
    requires Tree(pool, count, at, kids)
    ensures ParentLinks(pool, at)
  {
    hide Tree;
    LocatedOf(pool, count, at, kids);
    forall p | p in at && p != [] ensures Parent(p) in at && at[p] < |pool| && pool[at[p]].parent == at[Parent(p)] {
      LinkHolds(pool, count, at, kids, p);
    }
  }

  lemma NamesHold(pool: seq<Node>, count: nat, at: map<Path, nat>, kids: seq<seq<nat>>)
    requires Tree(pool, count, at, kids)
    ensures UniqueNames(pool, at, kids)
  {
    hide Tree, Located;
    forall p | p in at ensures at[p] < |kids| && OwnNames(pool, kids[at[p]], p == []) {
      SiblingNames(pool, count, at, kids, p);
    }
  }

  lemma PlayNothing(s: Session)
    ensures Play(s, []) == s
  {
  }

  lemma PlayNext(s: Session, ls: seq<Line>, i: nat)
    requires i < |ls|
    ensures Play(s, ls[..i + 1]) == Enter(Play(s, ls[..i]), ls[i]).0
  {
    assert ls[..i + 1][..i] == ls[..i];
  }

  predicate InPool(at: map<Path, nat>, n: nat) {
    forall p :: p in at ==> at[p] < n
  }

  lemma LocatedOf(pool: seq<Node>, count: nat, at: map<Path, nat>, kids: seq<seq<nat>>)
    requires Tree(pool, count, at, kids)
    ensures Located(pool, count, at)
  {
  }

  lemma NodeAdded(pool: seq<Node>, count: nat, at: map<Path, nat>, kids: seq<seq<nat>>, p: Path, name: string, isDir: bool,
                  arena: string, next: nat)
    requires Tree(pool, count, at, kids) && count < MAX_NODES && p in at && at[p] < |pool| && pool[at[p]].isDir
    requires |name| < NAME_MAX && p + [name] !in at && p + [name] != ["dev"]
    requires InPool(at, |pool|) && Laid(pool, at, next)
    ensures |pool| == |kids| == MAX_NODES && at[p] < count
    ensures var path := p + [name];
            var pool', at' := Added(pool, count, at[p], name, isDir), at[path := count];
            && Tree(pool', count + 1, at', kids[at[p] := [count] + kids[at[p]]][count := []])
            && InPool(at', |pool'|) && Laid(pool', at', next) && pool'[count].isDir == isDir
            && FilesOf(pool', arena, at') == FilesOf(pool, arena, at)[path := if isDir then Folder else File("")]
  {
    hide Tree, Located, Laid, FilesOf;
    LocatedOf(pool, count, at, kids);
    LocatedAt(pool, count, at, p);
    TreeAt(pool, count, at, kids, p);
    AddNode(pool, count, at, kids, p, name, isDir);
    AddedLaid(pool, count, at, p, name, isDir, next);
    AddedView(pool, count, at, p, name, isDir, arena);
  }

  lemma ChainStep(pool: seq<Node>, first: int, ks: seq<nat>, j: nat)
    requires Chain(pool, first, ks) && j < |ks|
    ensures ks[j] < |pool| && (j == 0 ==> first == ks[0]) && pool[ks[j]].nextSibling == if j + 1 < |ks| then ks[j + 1] else -1
  {
    ChainFrom(pool, first, ks, j);
  }

  /** Where an argument leads: a valid path, whose normal form fits and shows whether it is a device. */
  lemma Normal(cwd: string, here: Path, input: string)
    requires ValidPath(here) && cwd == Render(here) && |cwd| < PATH_MAX
    ensures cwd != "" && cwd[0] == '/'
    ensures var cs := Resolved(here, input);
            && ValidPath(cs) && |Render(cs)| < PATH_MAX && (IsDevPath(Render(cs)) <==> UnderDev(cs))
            && Render(cs) == Render(Resolve(Source(cwd, input)))
  {
    if here != [] {
      TailSlash(here);
    }
    var s := Source(cwd, input);
    SourceAbsolute(cwd, input);
    ResolveValid(s);
    RenderFits(s);
    DevIsFirst(Resolve(s));
  }

  /** What the map says of a path. */
  lemma FilesAt(pool: seq<Node>, count: nat, at: map<Path, nat>, kids: seq<seq<nat>>, arena: string, p: Path)
    requires Tree(pool, count, at, kids)
    ensures |pool| == MAX_NODES && forall q :: q in at ==> at[q] < |pool|
    ensures var files := FilesOf(pool, arena, at);
            && files.Keys == at.Keys && (IsFolder(files, p) <==> p in at && pool[at[p]].isDir)
            && (p in at ==> files[p] == EntryOf(arena, pool[at[p]]))
  {
    hide Tree;
    TreeBounds(pool, count, at, kids);
    assert FilesOf(pool, arena, at).Keys == at.Keys;
  }

  lemma NoParent(pool: seq<Node>, count: nat, at: map<Path, nat>, kids: seq<seq<nat>>, arena: string, cs: Path)
    requires Tree(pool, count, at, kids) && (cs != [] ==> Parent(cs) !in at)
    ensures forall q :: q in at ==> at[q] < |pool|
    ensures cs != [] ==> Target(cs) !in FilesOf(pool, arena, at)
  {
    hide Tree;
    TreeBounds(pool, count, at, kids);
    if cs != [] {
      TargetParent(cs);
      if Target(cs) in at {
        NodeAbove(pool, count, at, kids, Target(cs));
      }
    }
  }

  lemma FileHasNone(pool: seq<Node>, count: nat, at: map<Path, nat>, kids: seq<seq<nat>>, p: Path)
    requires Tree(pool, count, at, kids) && p in at
    ensures at[p] < |pool| && at[p] < |kids| && (!pool[at[p]].isDir ==> kids[at[p]] == [])
  {
    hide Tree;
    TreeAt(pool, count, at, kids, p);
  }

  lemma PickedAt(pool: seq<Node>, count: nat, at: map<Path, nat>, kids: seq<seq<nat>>, p: Path, path: Path) returns (i: nat, prev: int)
    requires Tree(pool, count, at, kids) && p in at && path in at && path != [] && Parent(path) == p
    ensures |pool| == |kids| == MAX_NODES && at[p] < MAX_NODES && Picked(pool, at, kids, p, i, at[p], at[path], prev, path)
    ensures Chain(pool, pool[at[p]].firstChild, kids[at[p]]) && forall k :: k in kids[at[p]] ==> k < |pool|
  {
    hide Tree;
    TreeBounds(pool, count, at, kids);
    TreeAt(pool, count, at, kids, p);
    TreeAt(pool, count, at, kids, path);
    var ks := kids[at[p]];
    i :| 0 <= i < |ks| && ks[i] == at[path];
    prev := Prev(ks, i);
    assert i > 0 ==> ks[i - 1] in ks;
    assert path == p + [Last(path)];
  }

  lemma RemovedAll(pool: seq<Node>, at: map<Path, nat>, n: nat, prev: int, k: nat, path: Path, arena: string, next: nat)
    requires InPool(at, |pool|) && n < |pool| && k < |pool| && -1 <= prev < |pool| && Laid(pool, at, next)
    ensures var pool', at' := Unlinked(pool, n, prev, k), at - {path};
            && InPool(at', |pool'|) && Laid(pool', at', next) && FilesOf(pool', arena, at') == FilesOf(pool, arena, at) - {path}
  {
    RemovedView(pool, at, n, prev, k, path, arena, next);
  }

  lemma RootAt(pool: seq<Node>, count: nat, at: map<Path, nat>, kids: seq<seq<nat>>)
    requires Tree(pool, count, at, kids)
    ensures [] in at && at[[]] == 0
  {
  }

  lemma NothingBelow(pool: seq<Node>, count: nat, at: map<Path, nat>, kids: seq<seq<nat>>, p: Path, name: string)
    requires Tree(pool, count, at, kids) && p in at && at[p] < |pool| && !pool[at[p]].isDir
    ensures p + [name] !in at
  {
    hide Tree;
    if p + [name] in at {
      NodeAbove(pool, count, at, kids, p + [name]);
      ParentOfChild(p, name);
    }
  }

  lemma RootTree(pool: seq<Node>, at: map<Path, nat>, kids: seq<seq<nat>>)
    requires |pool| == MAX_NODES && pool[0] == Node("/", true, -1, -1, -1, -1, 0)
    requires at == map[[] := 0] && |kids| == MAX_NODES && kids[0] == []
    ensures Tree(pool, 1, at, kids)
  {
  }
}
