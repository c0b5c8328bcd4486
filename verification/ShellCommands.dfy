/**
 What the shell's mkdir, rm, echo and cd do to its files (userland/shell.c:302-332,
 412-587), told on a map from paths. The node pool of ShellVfs refines it.
 */
module ShellCommands {
  import opened ShellPaths
  import opened ShellTree

  datatype Entry = Folder | File(text: string)
  type Files = map<Path, Entry>

  /** The files, the nodes taken from the pool so far, and the storage taken so far. */
  datatype Disk = Disk(files: Files, nodes: nat, used: nat)

  datatype Outcome = Done | ReadOnly | NoDirectory | Exists | NoNodes | Kernel | NoFile | NotEmpty | IsDirectory | NoStorage
                   | Printed | NoTarget

  datatype Command = MakeDir(path: Path) | Remove(path: Path) | Write(path: Path, text: string)

  predicate UnderDev(cs: Path) {
    cs != [] && cs[0] == "dev"
  }

  predicate IsFolder(files: Files, p: Path) {
    p in files && files[p].Folder?
  }

  predicate IsEmpty(files: Files, p: Path) {
    forall q :: q in files && q != [] ==> Parent(q) != p
  }

  /** The entry a path is about: its last name is cut to what a node can hold. */
  function Target(cs: Path): Path
    requires cs != []
  {
    Parent(cs) + [Copy(Last(cs), NAME_MAX)]
  }

  /** Storage is handed out in multiples of 8. */
  function RoundUp(n: nat): (r: nat)
    ensures n <= r < n + 8 && r % 8 == 0
  {
    (n + 7) / 8 * 8
  }

  /** cmd_mkdir on a resolved path. */
  function Made(d: Disk, cs: Path): (Disk, Outcome) {
    if UnderDev(cs) then (d, ReadOnly)
    else if cs == [] || !IsFolder(d.files, Parent(cs)) then (d, NoDirectory)
    else if Target(cs) in d.files then (d, Exists)
    else if d.nodes >= MAX_NODES then (d, NoNodes)
    else (Disk(d.files[Target(cs) := Folder], d.nodes + 1, d.used), Done)
  }

  /** cmd_rm on a resolved path. */
  function Removed(d: Disk, cs: Path): (Disk, Outcome) {
    if UnderDev(cs) then (d, Kernel)
    else if cs == [] || Target(cs) !in d.files then (d, NoFile)
    else if !IsEmpty(d.files, Target(cs)) then (d, NotEmpty)
    else (d.(files := d.files - {Target(cs)}), Done)
  }

  /** The redirection of cmd_echo to a resolved path. */
  function Written(d: Disk, cs: Path, text: string): (Disk, Outcome) {
    if UnderDev(cs) then (d, ReadOnly)
    else if cs == [] || !IsFolder(d.files, Parent(cs)) then (d, NoDirectory)
    else if Target(cs) !in d.files && d.nodes >= MAX_NODES then (d, NoNodes)
    else if IsFolder(d.files, Target(cs)) then (d, IsDirectory)
    else Stored(if Target(cs) in d.files then d else Disk(d.files[Target(cs) := File("")], d.nodes + 1, d.used), Target(cs), text)
  }

  /** The last step of an echo: new storage for the text, each time. */
  function Stored(d: Disk, p: Path, text: string): (Disk, Outcome) {
    if d.used + RoundUp(|text|) > ARENA_SIZE then (d, NoStorage)
    else (Disk(d.files[p := File(text)], d.nodes, d.used + RoundUp(|text|)), Done)
  }

  function Apply(d: Disk, c: Command): (Disk, Outcome) {
    match c
    case MakeDir(cs) => Made(d, cs)
    case Remove(cs) => Removed(d, cs)
    case Write(cs, text) => Written(d, cs, text)
  }

  // ----- lines of input

  const LINE_MAX := 512

  /** A command line: the argument of mkdir and rm, the words and the target of an echo, or that of cd. */
  datatype Line = MkdirLine(input: string) | RmLine(input: string) | EchoLine(words: seq<string>, input: string)
                | CdLine(input: string, opens: bool)

  datatype Session = Session(disk: Disk, here: Path)

  /** The path an argument stands for in a working directory. */
  function Resolved(here: Path, input: string): Path {
    Resolve(Source(Render(here), input))
  }

  /** A relative input goes on from the working directory, as far as the buffer reaches. */
  lemma SourceRelative(here: Path, input: string)
    requires ValidPath(here) && (input == "" || input[0] != '/') && |Render(here)| + 1 + |input| < PATH_MAX
    ensures Source(Render(here), input) == (if here == [] then "" else Render(here)) + "/" + input
  {
    if here != [] {
      TailEnd(here);
    }
  }

  /** A normal form does not end in a slash, but for the root. */
  lemma TailEnd(cs: Path)
    requires ValidPath(cs) && cs != []
    ensures Tail(cs) != "" && Tail(cs)[|Tail(cs)| - 1] != '/'
  {
    var c := cs[|cs| - 1];
    assert ValidName(c);
    assert Tail(cs)[|Tail(cs)| - 1] == c[|c| - 1];
  }

  lemma ResolvedPart(here: Path, part: string)
    requires ValidPath(here) && '/' !in part && |Render(here)| + 1 + |part| < PATH_MAX
    ensures Resolved(here, part) == Step(here, part)
  {
    hide Resolve, Source, Step, ValidPath;
    SourceRelative(here, part);
    NormalForm(here);
    ResolveNothing();
    ResolveNext(if here == [] then "" else Render(here), part);
  }

  /** What a line's argument stands for: the directory itself, the one above, or something in it. */
  lemma ResolvedRelative(here: Path, name: string)
    requires ValidPath(here) && ValidName(name) && |Render(here)| + 1 + |name| < PATH_MAX && |Render(here)| + 3 < PATH_MAX
    ensures Resolved(here, "") == here && Resolved(here, ".") == here
    ensures Resolved(here, "..") == if here == [] then [] else here[..|here| - 1]
    ensures Resolved(here, name) == if |here| < MAX_DEPTH then here + [name] else here
  {
    hide Resolved, Render, ValidPath;
    ResolvedPart(here, "");
    ResolvedPart(here, ".");
    ResolvedPart(here, "..");
    ResolvedPart(here, name);
  }

  /** The words of an echo in its line buffer, a space between each two. */
  function Words(ws: seq<string>): string
    decreases |ws|
  {
    if ws == [] then ""
    else if |ws| == 1 then Cat("", ws[0], LINE_MAX)
    else Cat(Cat(Words(ws[..|ws| - 1]), " ", LINE_MAX), ws[|ws| - 1], LINE_MAX)
  }

  function LineOf(ws: seq<string>): string {
    Cat(Words(ws), "\n", LINE_MAX)
  }

  function Joined(ws: seq<string>): string
    decreases |ws|
  {
    if ws == [] then "" else if |ws| == 1 then ws[0] else Joined(ws[..|ws| - 1]) + " " + ws[|ws| - 1]
  }

  /** Words that fit in the buffer are written in full. */
  lemma {:induction false} LineFits(ws: seq<string>)
    requires |Joined(ws)| + 1 < LINE_MAX
    ensures Words(ws) == Joined(ws) && LineOf(ws) == Joined(ws) + "\n"
    decreases |ws|
  {
    if |ws| > 1 {
      LineFits(ws[..|ws| - 1]);
    }
  }

  /** The command a line gives, if it is one that changes files. */
  function CommandOf(here: Path, l: Line): Command
    requires !l.CdLine?
  {
    match l
    case MkdirLine(input) => MakeDir(Resolved(here, input))
    case RmLine(input) => Remove(Resolved(here, input))
    case EchoLine(words, input) => Write(Resolved(here, input), LineOf(words))
  }

  /** cmd_cd: a device directory is for the kernel to open, any other must be in the tree. */
  function Moved(s: Session, cs: Path, opens: bool): (Session, Outcome) {
    if (if UnderDev(cs) then opens else IsFolder(s.disk.files, cs)) then (s.(here := cs), Done) else (s, NoDirectory)
  }

  function Enter(s: Session, l: Line): (Session, Outcome) {
    if l.CdLine? then Moved(s, Resolved(s.here, l.input), l.opens)
    else
      var (d, o) := Apply(s.disk, CommandOf(s.here, l));
      (s.(disk := d), o)
  }

  function Play(s: Session, ls: seq<Line>): Session
    decreases |ls|
  {
    if ls == [] then s else Enter(Play(s, ls[..|ls| - 1]), ls[|ls| - 1]).0
  }

  /** What cat finds at a path. */
  datatype Reading = Missing | Device | IsDir | Text(text: string)

  function Read(files: Files, cs: Path): Reading {
    if UnderDev(cs) then Device
    else if cs !in files then Missing
    else match files[cs] case Folder => IsDir case File(text) => Text(text)
  }

  // ----- what every run keeps

  /** Every entry stands in a folder, under a name a node can hold, and none is /dev. */
  predicate Sound(files: Files) {
    && IsFolder(files, []) && ["dev"] !in files
    && (forall p :: p in files && p != [] ==> IsFolder(files, Parent(p)) && |Last(p)| < NAME_MAX)
  }

  lemma TargetParent(cs: Path)
    requires cs != []
    ensures Target(cs) != [] && Parent(Target(cs)) == Parent(cs) && Last(Target(cs)) == Copy(Last(cs), NAME_MAX)
    ensures |Last(Target(cs))| < NAME_MAX && Target(cs) != Parent(cs)
    ensures |Last(cs)| < NAME_MAX ==> Target(cs) == cs
    ensures !UnderDev(cs) ==> Target(cs) != ["dev"]
  {
    ParentOfChild(Parent(cs), Copy(Last(cs), NAME_MAX));
    assert cs == Parent(cs) + [Last(cs)];
    if Target(cs) == ["dev"] {
      assert Copy(Last(cs), NAME_MAX) == Target(cs)[|cs| - 1];
    }
  }

  lemma SetSound(files: Files, p: Path, e: Entry)
    requires Sound(files) && p != [] && p != ["dev"] && IsFolder(files, Parent(p)) && |Last(p)| < NAME_MAX
    requires p in files ==> files[p].Folder? == e.Folder?
    ensures Sound(files[p := e])
  {
  }

  lemma WithoutSound(files: Files, p: Path)
    requires Sound(files) && p != [] && IsEmpty(files, p)
    ensures Sound(files - {p})
  {
  }

  lemma ApplySound(d: Disk, c: Command)
    requires Sound(d.files)
    ensures Sound(Apply(d, c).0.files)
  {
    hide Sound, Target, IsEmpty, IsFolder;
    if c.path != [] {
      var p := Target(c.path);
      TargetParent(c.path);
      match c {
        case MakeDir(cs) =>
          if Made(d, cs).1 == Done { SetSound(d.files, p, Folder); }
        case Remove(cs) =>
          if Removed(d, cs).1 == Done { WithoutSound(d.files, p); }
        case Write(cs, text) =>
          WrittenSound(d, cs, text);
      }
    }
  }

  lemma WrittenSound(d: Disk, cs: Path, text: string)
    requires Sound(d.files) && cs != []
    ensures Sound(Written(d, cs, text).0.files)
  {
    hide Sound, Target;
    var p, o := Target(cs), Written(d, cs, text).1;
    TargetParent(cs);
    if o == Done || o == NoStorage {
      if p in d.files {
        if o == Done { SetSound(d.files, p, File(text)); }
      } else {
        SetSound(d.files, p, File(""));
        if o == Done {
          SetSound(d.files[p := File("")], p, File(text));
        }
      }
    }
  }

  lemma AddedCount(files: Files, p: Path, e: Entry)
    ensures |files[p := e]| == |files| + if p in files then 0 else 1
  {
    if p in files {
      assert files[p := e].Keys == files.Keys;
    } else {
      assert files[p := e].Keys == files.Keys + {p};
    }
  }

  predicate InBounds(d: Disk) {
    |d.files| <= d.nodes <= MAX_NODES && d.used <= ARENA_SIZE && d.used % 8 == 0
  }

  lemma ApplyCounts(d: Disk, c: Command)
    requires InBounds(d)
    ensures InBounds(Apply(d, c).0) && d.used <= Apply(d, c).0.used && d.nodes <= Apply(d, c).0.nodes
  {
    hide Target, UnderDev, IsFolder, IsEmpty;
    if c.path != [] {
      var p := Target(c.path);
      match c {
        case MakeDir(cs) =>
          AddedCount(d.files, p, Folder);
        case Remove(cs) =>
          assert (d.files - {p}).Keys == d.files.Keys - {p};
        case Write(cs, text) =>
          AddedCount(d.files, p, File(text));
          AddedCount(d.files, p, File(""));
          AddedCount(d.files[p := File("")], p, File(text));
      }
    }
  }

  /** At every point of every session: a sound tree, no more entries than nodes, nodes and storage in bounds. */
  lemma {:induction false} PlayKeeps(s: Session, ls: seq<Line>)
    requires Sound(s.disk.files) && InBounds(s.disk)
    ensures Sound(Play(s, ls).disk.files) && InBounds(Play(s, ls).disk)
    ensures s.disk.nodes <= Play(s, ls).disk.nodes && s.disk.used <= Play(s, ls).disk.used
    decreases |ls|
  {
    hide Apply, Sound, InBounds, CommandOf;
    if ls != [] {
      var e, l := Play(s, ls[..|ls| - 1]), ls[|ls| - 1];
      PlayKeeps(s, ls[..|ls| - 1]);
      if !l.CdLine? {
        ApplySound(e.disk, CommandOf(e.here, l));
        ApplyCounts(e.disk, CommandOf(e.here, l));
      }
    }
  }

  /** So it is for a shell from its start on, where a node once taken is never given back: 255 at most are made. */
  lemma FromStart(ls: seq<Line>)
    ensures var s := Play(Session(Disk(map[[] := Folder], 1, 0), []), ls);
            Sound(s.disk.files) && InBounds(s.disk) && 1 <= s.disk.nodes
  {
    PlayKeeps(Session(Disk(map[[] := Folder], 1, 0), []), ls);
  }

  /** In a sound tree everything above an entry is a folder. */
  lemma {:induction false} FoldersAbove(files: Files, p: Path, k: nat)
    requires Sound(files) && p in files && k < |p|
    ensures IsFolder(files, p[..k])
    decreases |p|
  {
    if k < |p| - 1 {
      FoldersAbove(files, Parent(p), k);
      assert Parent(p)[..k] == p[..k];
    }
  }

  // ----- what a command changes

  /** A command changes one entry at most, and none at all unless it succeeds or an echo runs out of storage. */
  lemma ApplyElsewhere(d: Disk, c: Command, p: Path)
    requires c.path == [] || p != Target(c.path)
    ensures p in Apply(d, c).0.files <==> p in d.files
    ensures p in d.files ==> Apply(d, c).0.files[p] == d.files[p]
  {
  }

  /** A failed command leaves the files alone, but an echo without storage leaves its new file behind, empty. */
  lemma FailedChanges(d: Disk, c: Command)
    requires Apply(d, c).1 != Done
    ensures Apply(d, c).0.files != d.files
            <==> Apply(d, c).1 == NoStorage && Target(c.path) !in d.files
    ensures Apply(d, c).0.files != d.files ==> Apply(d, c).0.files == d.files[Target(c.path) := File("")]
  {
  }

  /** A line that cannot touch the entry at `p`: it is about another one, or it fails and there is nothing to make. */
  predicate Spares(s: Session, l: Line, p: Path) {
    l.CdLine?
    || (var c := CommandOf(s.here, l);
        c.path == [] || Target(c.path) != p
        || (Apply(s.disk, c).1 != Done && (p in s.disk.files || Apply(s.disk, c).1 != NoStorage)))
  }

  /** Over any session an entry stays as it is, or stays missing, as long as each line spares it. */
  lemma {:induction false} EntryKept(s: Session, ls: seq<Line>, p: Path)
    requires forall i :: 0 <= i < |ls| ==> Spares(Play(s, ls[..i]), ls[i], p)
    ensures p in Play(s, ls).disk.files <==> p in s.disk.files
    ensures p in s.disk.files ==> Play(s, ls).disk.files[p] == s.disk.files[p]
    decreases |ls|
  {
    if ls != [] {
      var n := |ls| - 1;
      var e, l := Play(s, ls[..n]), ls[n];
      forall i | 0 <= i < n ensures Spares(Play(s, ls[..n][..i]), ls[..n][i], p) {
        assert ls[..n][..i] == ls[..i];
      }
      hide Apply, CommandOf, Target;
      EntryKept(s, ls[..n], p);
      assert Spares(e, l, p);
      if !l.CdLine? {
        var c := CommandOf(e.here, l);
        if c.path == [] || Target(c.path) != p {
          ApplyElsewhere(e.disk, c, p);
        } else {
          FailedChanges(e.disk, c);
        }
      }
    }
  }

  lemma MadeIsEmpty(files: Files, t: Path)
    requires Sound(files) && t !in files
    ensures IsEmpty(files[t := Folder], t)
  {
    forall q | q in files[t := Folder] && q != [] ensures Parent(q) != t {
      if q == t {
        assert |Parent(q)| < |t|;
      } else {
        assert IsFolder(files, Parent(q));
      }
    }
  }

  /** A directory made and removed again leaves the files as they were, but its node stays taken. */
  lemma MadeAndRemoved(d: Disk, cs: Path)
    requires Sound(d.files) && Apply(d, MakeDir(cs)).1 == Done
    ensures Apply(Apply(d, MakeDir(cs)).0, Remove(cs)) == (d.(nodes := d.nodes + 1), Done)
  {
    hide Sound, IsEmpty, IsFolder, Target, UnderDev;
    var t := Target(cs);
    MadeIsEmpty(d.files, t);
    assert d.files[t := Folder] - {t} == d.files;
  }

  lemma NotUnderDev(files: Files, p: Path)
    requires Sound(files) && p in files
    ensures !UnderDev(p)
  {
    if |p| > 1 {
      assert p[..1] == [p[0]];
      FoldersAbove(files, p, 1);
    } else if p != [] {
      assert p == [p[0]];
    }
  }

  /** Entries have names that no node has to cut. */
  lemma TargetOfEntry(files: Files, p: Path)
    requires Sound(files) && p in files && p != []
    ensures Target(p) == p
  {
    TargetParent(p);
  }

  /** An entry below another has one right below it on its way. */
  lemma EmptyIsBare(files: Files, p: Path)
    requires Sound(files)
    ensures IsEmpty(files, p) <==> forall q :: q in files ==> !(p < q)
  {
    if q :| q in files && p < q {
      if |q| > |p| + 1 {
        FoldersAbove(files, q, |p| + 1);
      }
      var c := q[..|p| + 1];
      assert c == q || IsFolder(files, c);
      assert |q| == |p| + 1 ==> c == q;
      assert Parent(c) == p;
    }
    if q :| q in files && q != [] && Parent(q) == p {
      assert p < q;
    }
  }

  /** rm takes an entry away, and nothing else, exactly when no other entry lies below it; so it always does a file. */
  lemma RemovedIsGone(d: Disk, p: Path)
    requires Sound(d.files) && p in d.files && p != []
    ensures Apply(d, Remove(p)).1 == Done <==> forall q :: q in d.files ==> !(p < q)
    ensures d.files[p].File? ==> Apply(d, Remove(p)).1 == Done
    ensures Apply(d, Remove(p)).0 == if Apply(d, Remove(p)).1 == Done then d.(files := d.files - {p}) else d
    ensures Apply(d, Remove(p)).1 == Done ==> Read(Apply(d, Remove(p)).0.files, p) == Missing
  {
    hide Target;
    TargetOfEntry(d.files, p);
    NotUnderDev(d.files, p);
    EmptyIsBare(d.files, p);
  }

  /** What was written where nothing was is removed without a trace, but for the node and the storage. */
  lemma WrittenAndRemoved(d: Disk, cs: Path, text: string)
    requires Sound(d.files) && Apply(d, Write(cs, text)).1 == Done && Target(cs) !in d.files
    ensures var e := Apply(Apply(d, Write(cs, text)).0, Remove(cs));
            e == (Disk(d.files, d.nodes + 1, d.used + RoundUp(|text|)), Done)
  {
    hide Sound, IsEmpty, Target, IsFolder, UnderDev, RoundUp;
    var t, w := Target(cs), Apply(d, Write(cs, text)).0;
    ApplySound(d, Write(cs, text));
    TargetParent(cs);
    WriteDone(d, cs, text);
    RemovedIsGone(w, t);
    TargetOfEntry(w.files, t);
    assert w.files - {t} == d.files;
    SameRemoved(w, cs);
  }

  lemma WriteDone(d: Disk, cs: Path, text: string)
    requires Apply(d, Write(cs, text)).1 == Done
    ensures cs != [] && !UnderDev(cs)
    ensures var t := Target(cs);
            Apply(d, Write(cs, text)).0
            == Disk(d.files[t := File(text)], d.nodes + if t in d.files then 0 else 1, d.used + RoundUp(|text|))
  {
    hide Target, UnderDev, IsFolder, RoundUp;
    assert d.files[Target(cs) := File("")][Target(cs) := File(text)] == d.files[Target(cs) := File(text)];
  }

  lemma SameRemoved(d: Disk, cs: Path)
    requires Sound(d.files) && cs != [] && !UnderDev(cs) && Target(cs) in d.files
    ensures Apply(d, Remove(cs)) == Apply(d, Remove(Target(cs)))
  {
    hide Sound, Target;
    TargetParent(cs);
    TargetOfEntry(d.files, Target(cs));
    NotUnderDev(d.files, Target(cs));
  }

  /** cd enters exactly the directories there are, and two dots lead back. */
  lemma ThereAndBack(s: Session, name: string, opens: bool)
    requires ValidPath(s.here) && |s.here| < MAX_DEPTH && IsFolder(s.disk.files, s.here) && !UnderDev(s.here + [name])
    requires ValidName(name) && |Render(s.here)| + |name| + 4 < PATH_MAX
    ensures var (there, o) := Enter(s, CdLine(name, opens));
            && (o == Done <==> IsFolder(s.disk.files, s.here + [name]))
            && there == (if o == Done then s.(here := s.here + [name]) else s)
            && (o == Done ==> Enter(there, CdLine("..", opens)) == (s, Done))
  {
    hide Resolved, UnderDev, IsFolder, ValidPath;
    var next := s.here + [name];
    NextValid(s.here, name);
    ResolvedPart(s.here, name);
    ResolvedPart(next, "..");
    assert next[..|next| - 1] == s.here;
  }

  lemma NextValid(here: Path, name: string)
    requires ValidPath(here) && |here| < MAX_DEPTH && ValidName(name)
    ensures ValidPath(here + [name]) && |Render(here + [name])| <= |Render(here)| + 1 + |name|
    ensures !UnderDev(here + [name]) ==> !UnderDev(here)
  {
    var next := here + [name];
    assert next[..|here|] == here && next[|here|] == name;
    assert forall i :: 0 <= i < |here| ==> next[i] == here[i];
    assert Tail(next) == Tail(here) + "/" + name;
    hide Tail, ValidName;
  }

  /** mkdir succeeds exactly where there is a directory and nothing of that name; what it makes is entered by cd. */
  lemma MadeIsEntered(s: Session, name: string, opens: bool)
    requires Sound(s.disk.files) && ValidPath(s.here) && |s.here| < MAX_DEPTH && !UnderDev(s.here + [name])
    requires ValidName(name) && |name| < NAME_MAX && |Render(s.here)| + |name| + 4 < PATH_MAX
    ensures var p := s.here + [name];
            var (made, o) := Enter(s, MkdirLine(name));
            && (o == Done <==> IsFolder(s.disk.files, s.here) && p !in s.disk.files && s.disk.nodes < MAX_NODES)
            && (o == Done ==> Enter(made, CdLine(name, opens)) == (made.(here := p), Done))
  {
    hide ValidPath, UnderDev, Resolved, Sound, Render;
    ResolvedPart(s.here, name);
    var p := s.here + [name];
    TargetParent(p);
    assert Last(p) == name && Parent(p) == s.here;
  }

  /** What an echo wrote is read back by a cat of the same path exactly when its last name was not cut. */
  lemma WrittenIsRead(d: Disk, cs: Path, text: string)
    requires Sound(d.files) && Apply(d, Write(cs, text)).1 == Done
    ensures Read(Apply(d, Write(cs, text)).0.files, cs) == Text(text) <==> |Last(cs)| < NAME_MAX
  {
    TargetParent(cs);
    ApplySound(d, Write(cs, text));
  }

  /** A name of 64 characters under the root is written and not read back. */
  lemma LongNameLost(name: string, text: string)
    requires |name| == NAME_MAX && ValidName(name) && |text| <= ARENA_SIZE
    ensures var d := Disk(map[[] := Folder], 1, 0);
            && Apply(d, Write([name], text)).1 == Done
            && Read(Apply(d, Write([name], text)).0.files, [name]) == Missing
  {
    var d := Disk(map[[] := Folder], 1, 0);
    assert Parent([name]) == [];
    TargetParent([name]);
    WrittenIsRead(d, [name], text);
  }
}
