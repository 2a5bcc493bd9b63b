/** Path resolution and the working directory of the shell's virtual file system. */
module Paths {
  import opened Text
  import opened Splitting

  // ---------------------------------------------------------------------------
  // Resolution

  function Expand(home: string, path: string): string {
    if path != "" && path[0] == '~' then home + path[1..] else path
  }

  predicate Absolute(path: string) { path != "" && path[0] == '/' }

  function NonEmpty(parts: seq<string>): seq<string> {
    if parts == [] then []
    else
      var n := |parts| - 1;
      NonEmpty(parts[..n]) + (if parts[n] == "" then [] else [parts[n]])
  }

  /** One component applied to the stack of components. */
  function Apply(stack: seq<string>, c: string): seq<string> {
    if c == "" || c == "." then stack
    else if c == ".." then (if stack == [] then [] else stack[..|stack| - 1])
    else stack + [c]
  }

  function Walk(stack: seq<string>, parts: seq<string>): seq<string> {
    if parts == [] then stack
    else Apply(Walk(stack, parts[..|parts| - 1]), parts[|parts| - 1])
  }

  function Render(stack: seq<string>): string {
    if stack == [] then "/" else "/" + Join(stack, '/')
  }

  function Base(cwd: string, path: string): seq<string> {
    if Absolute(path) then [] else NonEmpty(Split(cwd, '/'))
  }

  function Stack(home: string, cwd: string, path: string): seq<string> {
    var expanded := Expand(home, path);
    Walk(Base(cwd, expanded), Split(expanded, '/'))
  }

  function Resolve(home: string, cwd: string, path: string): string { Render(Stack(home, cwd, path)) }

  method ResolvePath(home: string, cwd: string, path: string) returns (r: string)
    ensures r == Resolve(home, cwd, path)
  {
    hide Split, Render;
    var expanded := if path != "" && path[0] == '~' then home + path[1..] else path;
    var components: seq<string> := [];
    if !Absolute(expanded) {
      var parts := Split(cwd, '/');
      for i := 0 to |parts|
        invariant components == NonEmpty(parts[..i])
      {
        assert parts[..i + 1][..i] == parts[..i];
        if parts[i] != "" { components := components + [parts[i]]; }
      }
      assert parts[..|parts|] == parts;
    }
    ghost var base := components;
    var parts := Split(expanded, '/');
    for i := 0 to |parts|
      invariant components == Walk(base, parts[..i])
    {
      assert parts[..i + 1][..i] == parts[..i];
      var c := parts[i];
      if c == "" || c == "." {
      } else if c == ".." {
        if components != [] { components := components[..|components| - 1]; }
      } else {
        components := components + [c];
      }
    }
    assert parts[..|parts|] == parts;
    r := Render(components);
  }

  // ---------------------------------------------------------------------------
  // Canonical paths

  /** A component of a path. */
  predicate Component(c: string) { c != "" && '/' !in c }

  predicate Components(stack: seq<string>) { forall i :: 0 <= i < |stack| ==> Component(stack[i]) }

  predicate Proper(c: string) { Component(c) && c != "." && c != ".." }

  predicate AllProper(stack: seq<string>) { forall i :: 0 <= i < |stack| ==> Proper(stack[i]) }

  /** Absolute, with no empty, "." or ".." parts. */
  ghost predicate Canonical(path: string) { exists stack :: AllProper(stack) && path == Render(stack) }

  lemma {:induction false} NonEmptyComponents(parts: seq<string>)
    requires forall i :: 0 <= i < |parts| ==> '/' !in parts[i]
    ensures Components(NonEmpty(parts))
  {
    if parts != [] { NonEmptyComponents(parts[..|parts| - 1]); }
  }

  lemma {:induction false} WalkComponents(stack: seq<string>, parts: seq<string>)
    requires Components(stack) && forall i :: 0 <= i < |parts| ==> '/' !in parts[i]
    ensures Components(Walk(stack, parts))
    decreases |parts|
  {
    if parts != [] { WalkComponents(stack, parts[..|parts| - 1]); }
  }

  lemma {:induction false} WalkProper(stack: seq<string>, parts: seq<string>)
    requires AllProper(stack) && forall i :: 0 <= i < |parts| ==> '/' !in parts[i]
    ensures AllProper(Walk(stack, parts))
    decreases |parts|
  {
    if parts != [] { WalkProper(stack, parts[..|parts| - 1]); }
  }

  lemma {:induction false} WalkConcat(stack: seq<string>, a: seq<string>, b: seq<string>)
    ensures Walk(stack, a + b) == Walk(Walk(stack, a), b)
    decreases |b|
  {
    if b == [] {
      assert a + b == a;
    } else {
      WalkConcat(stack, a, b[..|b| - 1]);
      assert (a + b)[..|a + b| - 1] == a + b[..|b| - 1];
    }
  }

  /** Walking proper components pushes them all. */
  lemma {:induction false} WalkPushes(stack: seq<string>, parts: seq<string>)
    requires AllProper(parts)
    ensures Walk(stack, parts) == stack + parts
    decreases |parts|
  {
    if parts == [] {
      assert stack + parts == stack;
    } else {
      var n := |parts| - 1;
      WalkPushes(stack, parts[..n]);
      assert stack + parts[..n] + [parts[n]] == stack + parts;
    }
  }

  lemma {:induction false} NonEmptyKeeps(parts: seq<string>)
    requires Components(parts)
    ensures NonEmpty(parts) == parts
  {
    if parts != [] {
      var n := |parts| - 1;
      NonEmptyKeeps(parts[..n]);
      assert parts[..n] + [parts[n]] == parts;
    }
  }

  lemma {:induction false} NonEmptyAfterSlash(parts: seq<string>)
    ensures NonEmpty([""] + parts) == NonEmpty(parts)
  {
    var all := [""] + parts;
    var n := |parts|;
    if n == 0 {
      assert all == [""] && all[..0] == [];
    } else {
      NonEmptyAfterSlash(parts[..n - 1]);
      assert all[..n] == [""] + parts[..n - 1];
    }
  }

  /** Splitting a rendered path: an empty part, then the components. */
  lemma SplitRender(stack: seq<string>)
    requires Components(stack) && stack != []
    ensures Split(Render(stack), '/') == [""] + stack
  {
    hide Split;
    var rest := Join(stack, '/');
    assert Render(stack) == "" + ['/'] + rest;
    SplitConcat("", '/', rest);
    SplitPlain("", '/');
    SplitJoin(stack, '/');
  }

  /** Reading a rendered path gives the components back. */
  lemma Reparse(stack: seq<string>)
    requires Components(stack)
    ensures NonEmpty(Split(Render(stack), '/')) == stack
  {
    if stack == [] {
      assert Split("/", '/') == ["", ""];
      assert ["", ""][..1] == [""] && [""][..0] == [];
    } else {
      hide Split, Render;
      SplitRender(stack);
      NonEmptyAfterSlash(stack);
      NonEmptyKeeps(stack);
    }
  }

  lemma BaseComponents(cwd: string, path: string)
    ensures Components(Base(cwd, path))
  {
    hide Split;
    if !Absolute(path) { NonEmptyComponents(Split(cwd, '/')); }
  }

  lemma StackComponents(home: string, cwd: string, path: string)
    ensures Components(Stack(home, cwd, path))
  {
    hide Split, Base;
    var expanded := Expand(home, path);
    BaseComponents(cwd, expanded);
    WalkComponents(Base(cwd, expanded), Split(expanded, '/'));
  }

  /** From a canonical directory every path resolves to a canonical one. */
  lemma ResolveCanonical(home: string, cwd: string, path: string)
    requires Canonical(cwd)
    ensures Canonical(Resolve(home, cwd, path))
  {
    hide Split, Render;
    var stack :| AllProper(stack) && cwd == Render(stack);
    Reparse(stack);
    var expanded := Expand(home, path);
    WalkProper(Base(cwd, expanded), Split(expanded, '/'));
  }

  lemma RootSplits()
    ensures Split("/", '/') == ["", ""]
    ensures Walk([], ["", ""]) == []
  {
    assert ["", ""][..1] == [""] && [""][..0] == [];
  }

  lemma WalkAfterSlash(stack: seq<string>)
    requires AllProper(stack)
    ensures Walk([], [""] + stack) == stack
  {
    WalkConcat([], [""], stack);
    assert [""][..0] == [] && Walk([], [""]) == [];
    WalkPushes([], stack);
  }

  /** A canonical path resolves to itself from anywhere. */
  lemma CanonicalResolvesToItself(home: string, cwd: string, path: string)
    requires Canonical(path)
    ensures Resolve(home, cwd, path) == path
  {
    hide Split, Join, Walk;
    var stack :| AllProper(stack) && path == Render(stack);
    assert path[0] == '/';
    assert Stack(home, cwd, path) == Walk([], Split(path, '/'));
    if stack == [] {
      RootSplits();
    } else {
      SplitRender(stack);
      WalkAfterSlash(stack);
    }
  }

  /** Resolving twice is resolving once. */
  lemma ResolveIdempotent(home: string, cwd: string, path: string, anywhere: string)
    requires Canonical(cwd)
    ensures Resolve(home, anywhere, Resolve(home, cwd, path)) == Resolve(home, cwd, path)
  {
    ResolveCanonical(home, cwd, path);
    CanonicalResolvesToItself(home, anywhere, Resolve(home, cwd, path));
  }

  /** Resolving `p/q` is resolving `q` from where `p` leads, from any directory at all. */
  lemma ResolveComposes(home: string, cwd: string, p: string, q: string)
    requires Absolute(home)
    requires p != "" && (q == "" || (q[0] != '/' && q[0] != '~'))
    ensures Resolve(home, cwd, p + "/" + q) == Resolve(home, Resolve(home, cwd, p), q)
  {
    hide Split, Render;
    var pe := Expand(home, p);
    assert Expand(home, p + "/" + q) == pe + ['/'] + q;
    SplitConcat(pe, '/', q);
    var base := Base(cwd, pe);
    assert Base(cwd, pe + ['/'] + q) == base;
    WalkConcat(base, Split(pe, '/'), Split(q, '/'));
    StackComponents(home, cwd, p);
    Reparse(Stack(home, cwd, p));
  }

  // ---------------------------------------------------------------------------
  // Where the components lead

  lemma RelativeStack(home: string, stack: seq<string>, path: string)
    requires AllProper(stack) && path != "" && path[0] != '/' && path[0] != '~' && '/' !in path
    ensures Resolve(home, Render(stack), path) == Render(Apply(stack, path))
  {
    hide Split, Render, Apply;
    Reparse(stack);
    SplitPlain(path, '/');
    OneStep(stack, path);
  }

  lemma OneStep(stack: seq<string>, c: string)
    ensures Walk(stack, [c]) == Apply(stack, c)
  {
    assert [c][..0] == [];
  }

  /** A name leads to the entry of that name, two dots to the parent and no higher than the root, one
      dot and the empty path nowhere. */
  lemma StepsLead(home: string, stack: seq<string>, c: string)
    requires AllProper(stack) && Proper(c) && c[0] != '~'
    ensures Resolve(home, Render(stack), c) == Render(stack + [c])
    ensures Resolve(home, Render(stack + [c]), "..") == Render(stack)
    ensures Resolve(home, "/", "..") == "/"
    ensures Resolve(home, Render(stack), ".") == Render(stack)
    ensures Resolve(home, Render(stack), "") == Render(stack)
  {
    hide Resolve, Render;
    assert AllProper(stack + [c]);
    RelativeStack(home, stack, c);
    RelativeStack(home, stack + [c], "..");
    assert (stack + [c])[..|stack|] == stack;
    RootIs();
    RelativeStack(home, [], "..");
    RelativeStack(home, stack, ".");
    NothingLeads(home, stack);
  }

  lemma RootIs()
    ensures Render([]) == "/"
  {
  }

  lemma NothingLeads(home: string, stack: seq<string>)
    requires AllProper(stack)
    ensures Resolve(home, Render(stack), "") == Render(stack)
  {
    hide Split, Render;
    Reparse(stack);
    SplitPlain("", '/');
    OneStep(stack, "");
  }

  /** Going down and up again changes nothing, after any path from any directory. */
  lemma DownAndUp(home: string, cwd: string, p: string, c: string)
    requires Absolute(home) && p != "" && Proper(c)
    ensures Resolve(home, cwd, p + "/" + c + "/..") == Resolve(home, cwd, p)
  {
    hide Split, Render;
    var pe := Expand(home, p);
    var longer := p + "/" + c + "/..";
    assert Expand(home, longer) == pe + ['/'] + (c + ['/'] + "..");
    SplitConcat(pe, '/', c + ['/'] + "..");
    SplitConcat(c, '/', "..");
    SplitPlain(c, '/');
    SplitPlain("..", '/');
    var base := Base(cwd, pe);
    assert Base(cwd, Expand(home, longer)) == base;
    WalkConcat(base, Split(pe, '/'), [c] + [".."]);
    DownUpWalk(Walk(base, Split(pe, '/')), c);
  }

  lemma DownUpWalk(stack: seq<string>, c: string)
    requires Proper(c)
    ensures Walk(stack, [c] + [".."]) == stack
  {
    assert ([c] + [".."])[..1] == [c] && [c][..0] == [];
    assert Walk(stack, [c]) == stack + [c];
    assert (stack + [c])[..|stack|] == stack;
  }

  // ---------------------------------------------------------------------------
  // The file system

  datatype CdError = NotADirectory | NoSuchFile

  function Home(username: string): string { "/home/" + username }

  function Dirs(username: string): set<string> {
    {"/", "/home", Home(username), "/etc", "/tmp", "/var", "/var/log", Home(username) + "/.ssh"}
  }

  function Files(username: string): set<string> {
    {"/etc/hostname", "/etc/os-release", "/etc/passwd", Home(username) + "/.profile"}
  }

  /** The working directory after a run of `cd` commands. */
  function Cd(username: string, cwd: string, paths: seq<string>): string {
    if paths == [] then cwd
    else
      var n := |paths| - 1;
      var before := Cd(username, cwd, paths[..n]);
      var r := Resolve(Home(username), before, paths[n]);
      if r in Dirs(username) then r else before
  }

  /** No run of `cd` leaves the directories there are. */
  lemma {:induction false} CdStaysInDirs(username: string, paths: seq<string>)
    ensures Cd(username, Home(username), paths) in Dirs(username)
  {
    hide Resolve;
    if paths != [] { CdStaysInDirs(username, paths[..|paths| - 1]); }
  }

  lemma HomeSplits(username: string)
    ensures Split(Home(username), '/') == [""] + (["home"] + Split(username, '/'))
  {
    hide Split;
    SplitConcat("", '/', "home" + ['/'] + username);
    SplitConcat("home", '/', username);
    SplitPlain("home", '/');
    SplitPlain("", '/');
    assert Home(username) == "" + ['/'] + ("home" + ['/'] + username);
  }

  /** The home directory is canonical exactly when the parts of the user name are proper. */
  lemma HomeCanonicalIff(username: string)
    ensures Canonical(Home(username)) <==> AllProper(Split(username, '/'))
  {
    hide Split, Join;
    var parts := Split(username, '/');
    var full := ["home"] + parts;
    HomeSplits(username);
    if Canonical(Home(username)) {
      var stack :| AllProper(stack) && Home(username) == Render(stack);
      assert |Home(username)| > 1;
      SplitRender(stack);
      assert stack == ([""] + full)[1..] == full;
      assert forall i :: 0 <= i < |parts| ==> parts[i] == full[i + 1];
    }
    if AllProper(parts) {
      JoinSplit(Home(username), '/');
      JoinTwo("", full, '/');
      assert AllProper(full) && Render(full) == Home(username);
    }
  }

  lemma JoinTwo<T>(a: seq<T>, rest: seq<seq<T>>, sep: T)
    requires rest != []
    ensures Join([a] + rest, sep) == a + [sep] + Join(rest, sep)
  {
    assert ([a] + rest)[1..] == rest;
  }

  /** With a canonical home, the working directory stays canonical and `cd ~` leads home. */
  lemma CdStaysCanonical(username: string, paths: seq<string>)
    requires AllProper(Split(username, '/'))
    ensures Canonical(Cd(username, Home(username), paths))
    ensures Cd(username, Home(username), paths + ["~"]) == Home(username)
  {
    hide Split, Resolve;
    HomeCanonicalIff(username);
    CdCanonical(username, paths);
    CanonicalResolvesToItself(Home(username), Cd(username, Home(username), paths), Home(username));
    assert (paths + ["~"])[..|paths|] == paths;
    TildeIsHome(Home(username), Cd(username, Home(username), paths));
  }

  lemma TildeIsHome(home: string, cwd: string)
    requires Absolute(home)
    ensures Resolve(home, cwd, "~") == Resolve(home, cwd, home)
  {
    assert home + "~"[1..] == home;
  }

  /** A leading tilde stands for the home directory, whatever follows it. */
  lemma TildeExpands(home: string, cwd: string, rest: string)
    requires Absolute(home)
    ensures Resolve(home, cwd, "~" + rest) == Resolve(home, cwd, home + rest)
  {
    hide Split, Render, Walk;
    assert ("~" + rest)[1..] == rest;
  }

  /** From anywhere, each of the directories is one step away by its own name. */
  lemma DirectoriesReached(username: string, cwd: string, d: string)
    requires AllProper(Split(username, '/'))
    requires d in {"/", "/home", "/home/" + username, "/etc", "/tmp", "/var", "/var/log", "/home/" + username + "/.ssh"}
    ensures Cd(username, cwd, [d]) == d
  {
    hide Split, Resolve, Canonical;
    FixedCanonical();
    HomeCanonicalIff(username);
    InsideCanonical(Home(username), ".ssh");
    assert Home(username) + "/" + ".ssh" == "/home/" + username + "/.ssh" == Home(username) + "/.ssh";
    CanonicalResolvesToItself(Home(username), cwd, d);
    assert [d][..0] == [];
  }

  lemma TopCanonical(c: string)
    requires Proper(c)
    ensures Canonical("/" + c)
  {
    assert AllProper([c]) && Render([c]) == "/" + c;
  }

  lemma FixedCanonical()
    ensures Canonical("/") && Canonical("/home") && Canonical("/etc") && Canonical("/tmp")
    ensures Canonical("/var") && Canonical("/var/log")
  {
    hide Canonical, Render;
    RootCanonical();
    TopCanonical("home");
    TopCanonical("etc");
    TopCanonical("tmp");
    TopCanonical("var");
    assert "/" + "home" == "/home" && "/" + "etc" == "/etc" && "/" + "tmp" == "/tmp" && "/" + "var" == "/var";
    InsideCanonical("/var", "log");
    assert "/var" + "/" + "log" == "/var/log";
  }

  lemma RootCanonical()
    ensures Canonical("/")
  {
    assert AllProper([]) && Render([]) == "/";
  }

  lemma {:induction false} JoinSnoc(stack: seq<string>, c: string)
    requires stack != []
    ensures Join(stack + [c], '/') == Join(stack, '/') + "/" + c
  {
    if |stack| == 1 {
      JoinTwo(stack[0], [c], '/');
      assert stack == [stack[0]];
    } else {
      JoinSnoc(stack[1..], c);
      assert stack + [c] == [stack[0]] + (stack[1..] + [c]);
      JoinTwo(stack[0], stack[1..] + [c], '/');
      JoinTwo(stack[0], stack[1..], '/');
      assert stack == [stack[0]] + stack[1..];
    }
  }

  lemma InsideCanonical(dir: string, c: string)
    requires Canonical(dir) && dir != "/" && Proper(c)
    ensures Canonical(dir + "/" + c)
  {
    hide Join;
    var stack :| AllProper(stack) && dir == Render(stack);
    JoinSnoc(stack, c);
    assert AllProper(stack + [c]) && Render(stack + [c]) == dir + "/" + c;
  }

  lemma {:induction false} CdCanonical(username: string, paths: seq<string>)
    requires Canonical(Home(username))
    ensures Canonical(Cd(username, Home(username), paths))
  {
    hide Resolve, Canonical;
    if paths != [] {
      var n := |paths| - 1;
      CdCanonical(username, paths[..n]);
      ResolveCanonical(Home(username), Cd(username, Home(username), paths[..n]), paths[n]);
    }
  }

  class VirtualFs {
    const username: string
    var cwd: string

    ghost predicate Valid()
      reads this
    {
      cwd in Dirs(username)
    }

    constructor (username: string)
      ensures Valid() && this.username == username && cwd == Home(username)
    {
      this.username, cwd := username, Home(username);
    }

    method ChangeDir(path: string) returns (r: Result<(), CdError>)
      requires Valid()
      modifies this
      ensures Valid() && cwd == Cd(username, old(cwd), [path])
      ensures
        var target := Resolve(Home(username), old(cwd), path);
        && (r.Ok? <==> target in Dirs(username))
        && (r == Err(NotADirectory) <==> target !in Dirs(username) && target in Files(username))
    {
      hide Resolve, Dirs, Files;
      var resolved := ResolvePath(Home(username), cwd, path);
      assert [path][..0] == [];
      if resolved in Dirs(username) {
        cwd := resolved;
        return Ok(());
      } else if resolved in Files(username) {
        return Err(NotADirectory);
      } else {
        return Err(NoSuchFile);
      }
    }
  }
}
