/**
 Paths of the shell (userland/shell.c): resolving an input against the working
 directory into a normal form, in buffers of 256 characters.
 */
module ShellPaths {

  const PATH_MAX := 256
  const MAX_DEPTH := 64

  type Path = seq<string>

  // ----- bounded strings (mini_string.h)

  /** Copies at most `cap - 1` characters. */
  function Copy(src: string, cap: nat): (s: string)
    ensures |s| < cap || cap == 0
    ensures |src| < cap ==> s == src
  {
    if cap == 0 then [] else if |src| < cap then src else src[..cap - 1]
  }

  function Cat(dst: string, src: string, cap: nat): (s: string)
    ensures |dst| < cap ==> |s| < cap
    ensures |dst| + |src| < cap ==> s == dst + src
  {
    if |dst| + 1 < cap then dst + Copy(src, cap - |dst|) else dst
  }

  // ----- components

  /** The parts between slashes, empty ones included. */
  function Parts(s: string): (ps: seq<string>)
    ensures |ps| >= 1
    decreases |s|
  {
    if s == [] then [""] else Extend(Parts(s[..|s| - 1]), s[|s| - 1])
  }

  /** One more character: a slash opens a part, any other goes to the last. */
  function Extend(ps: seq<string>, c: char): (r: seq<string>)
    requires |ps| >= 1
    ensures |r| >= |ps|
  {
    if c == '/' then ps + [""] else ps[..|ps| - 1] + [ps[|ps| - 1] + [c]]
  }

  /** What a part does to the components so far. */
  function Step(cs: Path, part: string): Path {
    if part == "" || part == "." then cs
    else if part == ".." then (if cs == [] then [] else cs[..|cs| - 1])
    else if |cs| < MAX_DEPTH then cs + [part]
    else cs
  }

  function Fold(ps: seq<string>): Path
    decreases |ps|
  {
    if ps == [] then [] else Step(Fold(ps[..|ps| - 1]), ps[|ps| - 1])
  }

  /** The components an absolute path stands for. */
  function Resolve(s: string): Path {
    Fold(Parts(s))
  }

  function Tail(cs: Path): string
    decreases |cs|
  {
    if cs == [] then "" else Tail(cs[..|cs| - 1]) + "/" + cs[|cs| - 1]
  }

  /** The normal form of a path. */
  function Render(cs: Path): string {
    if cs == [] then "/" else Tail(cs)
  }

  /** The absolute path an input stands for, before it is resolved. */
  function Source(cwd: string, input: string): (s: string)
    ensures |s| < PATH_MAX
  {
    if input != "" && input[0] == '/' then Copy(input, PATH_MAX) else
    var t := Copy(cwd, PATH_MAX);
    Cat(if t == "" || t[|t| - 1] != '/' then Cat(t, "/", PATH_MAX) else t, input, PATH_MAX)
  }

  lemma SourceAbsolute(cwd: string, input: string)
    requires cwd != "" && cwd[0] == '/'
    ensures Source(cwd, input) != "" && Source(cwd, input)[0] == '/'
  {
  }

  predicate ValidName(c: string) {
    c != "" && c != "." && c != ".." && '/' !in c
  }

  predicate ValidPath(cs: Path) {
    |cs| <= MAX_DEPTH && forall i :: 0 <= i < |cs| ==> ValidName(cs[i])
  }

  predicate NoSlash(ps: seq<string>) {
    forall i :: 0 <= i < |ps| ==> '/' !in ps[i]
  }

  lemma {:induction false} PartsNoSlash(s: string)
    ensures NoSlash(Parts(s))
    decreases |s|
  {
    if s != [] {
      PartsNoSlash(s[..|s| - 1]);
    }
  }

  lemma {:induction false} FoldValid(ps: seq<string>)
    requires NoSlash(ps)
    ensures ValidPath(Fold(ps))
    decreases |ps|
  {
    if ps != [] {
      FoldValid(ps[..|ps| - 1]);
    }
  }

  /** Whatever the input, what it resolves to is a valid path. */
  lemma ResolveValid(s: string)
    ensures ValidPath(Resolve(s))
  {
    PartsNoSlash(s);
    FoldValid(Parts(s));
  }

  // ----- the normal form is no longer than the path

  /** Characters of all parts but the last, each with its slash. */
  function Used(ps: seq<string>): nat
    decreases |ps|
  {
    if ps == [] then 0 else Used(ps[..|ps| - 1]) + |ps[|ps| - 1]| + 1
  }

  lemma {:induction false} UsedParts(s: string)
    ensures Used(Parts(s)) == |s| + 1
    decreases |s|
  {
    if s != [] {
      var ps := Parts(s[..|s| - 1]);
      UsedParts(s[..|s| - 1]);
      var qs := Parts(s);
      if s[|s| - 1] == '/' {
        assert qs[..|qs| - 1] == ps;
      } else {
        assert qs[..|qs| - 1] == ps[..|ps| - 1];
      }
    } else {
      assert [""][..0] == [];
    }
  }

  lemma {:induction false} FoldLength(ps: seq<string>)
    ensures |Tail(Fold(ps))| <= Used(ps)
    decreases |ps|
  {
    if ps != [] {
      var cs, part := Fold(ps[..|ps| - 1]), ps[|ps| - 1];
      FoldLength(ps[..|ps| - 1]);
      assert (cs + [part])[..|cs|] == cs;
    }
  }

  /** A normal form fits in any buffer that held the path. */
  lemma RenderFits(s: string)
    requires s != "" && s[0] == '/'
    ensures |Render(Resolve(s))| <= |s|
  {
    UsedParts(s);
    FirstPart(s);
    FirstEmpty(Parts(s));
  }

  /** An absolute path has an empty part before its first slash. */
  lemma {:induction false} FirstPart(s: string)
    requires s != "" && s[0] == '/'
    ensures |Parts(s)| >= 2 && Parts(s)[0] == ""
    decreases |s|
  {
    if |s| > 1 {
      FirstPart(s[..|s| - 1]);
    } else {
      assert s[..0] == [];
    }
  }

  lemma {:induction false} FirstEmpty(ps: seq<string>)
    requires ps != [] && ps[0] == ""
    ensures |Tail(Fold(ps))| + 1 <= Used(ps)
    decreases |ps|
  {
    if |ps| > 1 {
      var cs, part := Fold(ps[..|ps| - 1]), ps[|ps| - 1];
      FirstEmpty(ps[..|ps| - 1]);
      assert (cs + [part])[..|cs|] == cs;
    } else {
      assert ps[..0] == [];
    }
  }

  // ----- reading a normal form back

  lemma {:induction false} PartsAppend(s: string, c: string)
    requires '/' !in c
    ensures Parts(s + c) == Parts(s)[..|Parts(s)| - 1] + [Parts(s)[|Parts(s)| - 1] + c]
    decreases |c|
  {
    var ps := Parts(s);
    if c == [] {
      assert s + c == s && ps[|ps| - 1] + c == ps[|ps| - 1];
    } else {
      var d, x := c[..|c| - 1], c[|c| - 1];
      PartsAppend(s, d);
      assert (s + c)[..|s + c| - 1] == s + d && (s + c)[|s + c| - 1] == x;
      assert ps[|ps| - 1] + d + [x] == ps[|ps| - 1] + c by { assert d + [x] == c; }
    }
  }

  /** The parts of a normal form are its components, after one empty part. */
  lemma {:induction false} PartsOfTail(cs: Path)
    requires forall i :: 0 <= i < |cs| ==> '/' !in cs[i]
    ensures Parts(Tail(cs)) == [""] + cs
    decreases |cs|
  {
    if cs != [] {
      var init, last := cs[..|cs| - 1], cs[|cs| - 1];
      PartsOfTail(init);
      PartsOfNext(Tail(init), [""] + init, last);
      assert [""] + init + [last] == [""] + cs;
    }
  }

  lemma PartsOfNext(s: string, ps: seq<string>, c: string)
    requires Parts(s) == ps && '/' !in c
    ensures Parts(s + "/" + c) == ps + [c]
  {
    var t := s + "/";
    assert Parts(t) == ps + [""] by {
      assert t[..|t| - 1] == s;
    }
    hide Parts;
    PartsAppend(t, c);
    assert (ps + [""])[..|ps|] == ps && "" + c == c;
  }

  lemma {:induction false} FoldNames(cs: Path)
    requires ValidPath(cs)
    ensures Fold([""] + cs) == cs
    decreases |cs|
  {
    if cs != [] {
      var init := cs[..|cs| - 1];
      FoldNames(init);
      assert ([""] + cs)[..|cs|] == [""] + init;
    } else {
      assert [""] + cs == [""] && [""][..0] == [];
    }
  }

  /** Resolving a normal form changes nothing. */
  lemma NormalForm(cs: Path)
    requires ValidPath(cs)
    ensures Resolve(Render(cs)) == cs
  {
    if cs == [] {
      assert "/"[..0] == "" && Parts("/") == ["", ""];
      assert ["", ""][..1] == [""] && [""][..0] == [];
    } else {
      PartsOfTail(cs);
      FoldNames(cs);
    }
  }

  /** The walk splits what follows the leading slash, and gets the components. */
  lemma PartsAfterSlash(cs: Path)
    requires ValidPath(cs) && cs != []
    ensures Render(cs) != "" && Render(cs)[0] == '/' && Parts(Render(cs)[1..]) == cs
  {
    PartsOfTail(cs);
    TailSlash(cs);
    DropFirst(Tail(cs));
    assert ([""] + cs)[1..] == cs;
  }

  lemma {:induction false} TailSlash(cs: Path)
    requires cs != []
    ensures Tail(cs) != "" && Tail(cs)[0] == '/'
    decreases |cs|
  {
    if |cs| > 1 {
      TailSlash(cs[..|cs| - 1]);
    }
  }

  lemma ExtendDrop(ps: seq<string>, c: char)
    requires |ps| >= 2
    ensures Extend(ps, c)[1..] == Extend(ps[1..], c)
  {
    assert ps[1..][..|ps[1..]| - 1] == ps[..|ps| - 1][1..];
  }

  lemma {:induction false} DropFirst(s: string)
    requires s != "" && s[0] == '/'
    ensures |Parts(s)| >= 2 && Parts(s)[1..] == Parts(s[1..])
    decreases |s|
  {
    if |s| > 1 {
      var t := s[..|s| - 1];
      DropFirst(t);
      assert s[1..][..|s[1..]| - 1] == t[1..];
      hide Extend;
      ExtendDrop(Parts(t), s[|s| - 1]);
    } else {
      assert s[..0] == [] && s[1..] == [];
    }
  }

  // ----- what each component does

  /** Any string but the first component at a time: one more component, after a slash. */
  lemma ResolveNext(s: string, part: string)
    requires '/' !in part
    ensures Resolve(s + "/" + part) == Step(Resolve(s), part)
  {
    hide Step;
    PartsOfNext(s, Parts(s), part);
    FoldNext(Parts(s), part);
  }

  lemma ResolveNothing()
    ensures Resolve("") == []
  {
    assert [""][..0] == [];
  }

  /** Nothing, a dot, two dots, or a name: together with the empty path this is all that resolving does. */
  lemma ResolveSteps(s: string, name: string)
    requires ValidName(name)
    ensures Resolve("") == []
    ensures Resolve(s + "/") == Resolve(s) && Resolve(s + "/.") == Resolve(s)
    ensures Resolve(s + "/..") == if Resolve(s) == [] then [] else Resolve(s)[..|Resolve(s)| - 1]
    ensures Resolve(s + "/" + name) == if |Resolve(s)| < MAX_DEPTH then Resolve(s) + [name] else Resolve(s)
  {
    hide Resolve;
    ResolveNothing();
    ResolveNext(s, "");
    ResolveNext(s, ".");
    ResolveNext(s, "..");
    ResolveNext(s, name);
    assert s + "/" + "" == s + "/" && s + "/" + "." == s + "/." && s + "/" + ".." == s + "/..";
  }

  // ----- /dev

  /** Whether a path names /dev or something under it. */
  predicate IsDevPath(path: string) {
    |path| >= 4 && path[..4] == "/dev" && (|path| == 4 || path[4] == '/')
  }

  lemma {:induction false} TailFirst(cs: Path)
    requires cs != []
    ensures Tail(cs) == "/" + cs[0] + Tail(cs[1..])
    decreases |cs|
  {
    if |cs| > 1 {
      var init, last := cs[..|cs| - 1], cs[|cs| - 1];
      TailFirst(init);
      assert cs[1..][..|cs| - 2] == init[1..];
      assert Tail(cs[1..]) == Tail(init[1..]) + "/" + last;
    } else {
      assert cs[1..] == [] && cs[..0] == [];
    }
  }

  /** The test on the string is a test on the first component. */
  lemma DevIsFirst(cs: Path)
    requires ValidPath(cs)
    ensures IsDevPath(Render(cs)) <==> cs != [] && cs[0] == "dev"
  {
    if cs != [] {
      TailFirst(cs);
      var t, c, rest := Tail(cs), cs[0], Tail(cs[1..]);
      if cs[1..] != [] {
        TailSlash(cs[1..]);
      }
      assert t == ("/" + c) + rest;
      assert forall k :: 0 <= k < |c| ==> t[1 + k] == c[k] && c[k] != '/';
      assert |t| > 1 + |c| ==> t[1 + |c|] == '/';
      if IsDevPath(t) {
        assert t[..4] == "/dev" && t[..4][1] == t[1] && t[..4][2] == t[2] && t[..4][3] == t[3];
        assert |c| == 3 && c == [c[0], c[1], c[2]];
      }
      assert c == "dev" ==> t[..4] == "/dev";
    }
  }

  // ----- normalize_path

  method NormalizePath(cwd: string, input: string) returns (out: string)
    requires cwd != "" && cwd[0] == '/'
    ensures out == Render(Resolve(Source(cwd, input)))
  {
    var tmp: string;
    if |input| > 0 && input[0] == '/' {
      tmp := Copy(input, PATH_MAX);
    } else {
      tmp := Copy(cwd, PATH_MAX);
      if |tmp| == 0 || tmp[|tmp| - 1] != '/' {
        tmp := Cat(tmp, "/", PATH_MAX);
      }
      tmp := Cat(tmp, input, PATH_MAX);
    }
    assert tmp == Source(cwd, input);
    var stack := ResolveParts(tmp);
    RenderFits(tmp);
    out := PrintPath(stack);
  }

  lemma PartsNext(s: string, start: nat, p: nat, before: seq<string>)
    requires start <= p < |s| && Parts(s[..p]) == before + [s[start..p]]
    ensures s[p] == '/' ==> Parts(s[..p + 1]) == before + [s[start..p]] + [s[p + 1..p + 1]]
    ensures s[p] != '/' ==> Parts(s[..p + 1]) == before + [s[start..p + 1]]
  {
    assert s[..p + 1][..p] == s[..p];
    assert s[start..p + 1] == s[start..p] + [s[p]];
    assert (before + [s[start..p]])[..|before|] == before;
    assert s[p + 1..p + 1] == "";
  }

  lemma FoldNext(before: seq<string>, part: string)
    ensures Fold(before + [part]) == Step(Fold(before), part)
  {
    assert (before + [part])[..|before|] == before;
  }

  /** Takes the components one at a time from the left. */
  method ResolveParts(tmp: string) returns (stack: Path)
    ensures stack == Resolve(tmp)
  {
    hide Parts, Fold, Step;
    assert Parts(tmp[..0]) == [] + [tmp[0..0]] && Fold([]) == [] by {
      NothingYet(tmp);
    }
    stack := [];
    var start, p, done := 0, 0, false;
    ghost var before: seq<string> := [];
    while !done
      invariant 0 <= start <= p <= |tmp| + 1
      invariant !done ==> p <= |tmp| && Parts(tmp[..p]) == before + [tmp[start..p]]
      invariant stack == Fold(before)
      invariant done ==> before == Parts(tmp)
      decreases |tmp| + 1 - p, !done
    {
      if p < |tmp| {
        PartsNext(tmp, start, p, before);
      }
      if p == |tmp| || tmp[p] == '/' {
        var part := tmp[start..p];
        FoldNext(before, part);
        stack := TakePart(stack, part);
        before := before + [part];
        if p == |tmp| {
          done := true;
          assert tmp[..p] == tmp;
        }
        start := p + 1;
      }
      p := p + 1;
    }
  }

  lemma NothingYet(s: string)
    ensures Parts(s[..0]) == [s[0..0]] && Fold([]) == []
  {
    assert s[..0] == "" && s[0..0] == "";
  }

  method TakePart(stack: Path, part: string) returns (next: Path)
    ensures next == Step(stack, part)
  {
    next := stack;
    if |part| != 0 {
      if part == "." {
      } else if part == ".." {
        if |stack| > 0 {
          next := stack[..|stack| - 1];
        }
      } else if |stack| < MAX_DEPTH {
        next := stack + [part];
      }
    }
  }

  /** Writes the components out. The buffer is never too small. */
  method PrintPath(stack: Path) returns (out: string)
    requires |Render(stack)| < PATH_MAX
    ensures out == Render(stack)
  {
    out := "/";
    var i := 0;
    while i < |stack|
      invariant 0 <= i <= |stack| && out == Render(stack[..i])
    {
      TailPrefix(stack, i + 1);
      assert stack[..i + 1][..i] == stack[..i];
      if i > 0 {
        out := Cat(out, "/", PATH_MAX);
      }
      out := Cat(out, stack[i], PATH_MAX);
      i := i + 1;
    }
    assert stack[..|stack|] == stack;
  }

  lemma {:induction false} TailPrefix(cs: Path, i: nat)
    requires i <= |cs|
    ensures |Tail(cs[..i])| <= |Tail(cs)|
    decreases |cs| - i
  {
    if i < |cs| {
      TailPrefix(cs, i + 1);
      assert cs[..i + 1][..i] == cs[..i];
    } else {
      assert cs[..i] == cs;
    }
  }
}
