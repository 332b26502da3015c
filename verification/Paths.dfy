/** Path normalization: a path is split at slashes, empty and "." parts are dropped, ".." drops the part
    before it, and the rest is joined again below the root. */
module Paths {
  import opened Wrappers

  // ---- Splitting and rendering --------------------------------------------------------------------

  /** `split('/')`: the parts between the slashes, at least one. */
  function Split(s: string): (parts: seq<string>)
    ensures |parts| >= 1
  {
    if s == "" then [""]
    else if s[0] == '/' then [""] + Split(s[1..])
    else
      var rest := Split(s[1..]);
      [[s[0]] + rest[0]] + rest[1..]
  }

  /** One part met with the stack of components so far. */
  function Push(stack: seq<string>, part: string): seq<string> {
    if part == "" || part == "." then stack
    else if part == ".." then (if stack == [] then [] else stack[..|stack| - 1])
    else stack + [part]
  }

  function Fold(stack: seq<string>, parts: seq<string>): seq<string>
    decreases |parts|
  {
    if parts == [] then stack else Fold(Push(stack, parts[0]), parts[1..])
  }

  /** Each component behind a slash. */
  function Render(comps: seq<string>): string {
    if comps == [] then "" else Render(comps[..|comps| - 1]) + "/" + comps[|comps| - 1]
  }

  function RenderPath(comps: seq<string>): string {
    if comps == [] then "/" else Render(comps)
  }

  function Components(path: string): seq<string> {
    Fold([], Split(path))
  }

  /** `normalize`. */
  function Normalize(path: string): string {
    RenderPath(Components(path))
  }

  /** `join`. */
  function Join(base: string, child: string): string {
    Normalize((if base != "" && base[|base| - 1] == '/' then base else base + "/") + child)
  }

  /** `rfind('/')` below position `n`. */
  function LastSlash(s: string, n: nat): (r: Option<nat>)
    requires n <= |s|
    ensures r.Some? ==> r.value < n && s[r.value] == '/' && forall i :: r.value < i < n ==> s[i] != '/'
    ensures r.None? ==> forall i :: 0 <= i < n ==> s[i] != '/'
  {
    if n == 0 then None else if s[n - 1] == '/' then Some(n - 1) else LastSlash(s, n - 1)
  }

  /** `parent`. */
  function Parent(path: string): Option<string> {
    var p := Normalize(path);
    if p == "/" then None
    else
      match LastSlash(p, |p|)
      case None => None
      case Some(i) => Some(if i == 0 then "/" else p[..i])
  }

  /** `basename`. */
  function Basename(path: string): string {
    var p := Normalize(path);
    if p == "/" then "/" else var parts := Split(p); parts[|parts| - 1]
  }

  // ---- Canonical paths ----------------------------------------------------------------------------

  predicate Proper(c: string) {
    c != "" && c != "." && c != ".." && '/' !in c
  }

  ghost predicate AllProper(comps: seq<string>) {
    forall i :: 0 <= i < |comps| ==> Proper(comps[i])
  }

  /** The root, or proper components each behind one slash. */
  ghost predicate Canonical(p: string) {
    exists comps :: AllProper(comps) && p == RenderPath(comps)
  }

  lemma {:induction false} SplitNoSlash(s: string)
    ensures forall i :: 0 <= i < |Split(s)| ==> '/' !in Split(s)[i]
  {
    if s != "" {
      SplitNoSlash(s[1..]);
    }
  }

  lemma {:induction false} SplitPlain(s: string)
    requires '/' !in s
    ensures Split(s) == [s]
  {
    if s != "" {
      assert s[0] in s;
      SplitPlain(s[1..]);
      assert [s[0]] + s[1..] == s;
    }
  }

  /** Splitting at a given slash splits both sides. */
  lemma {:induction false} SplitJoin(a: string, b: string)
    ensures Split(a + "/" + b) == Split(a) + Split(b)
  {
    var s := a + "/" + b;
    if a == "" {
      assert s[1..] == b;
    } else {
      assert s[1..] == a[1..] + "/" + b;
      SplitJoin(a[1..], b);
    }
  }

  lemma {:induction false} FoldJoin(stack: seq<string>, x: seq<string>, y: seq<string>)
    ensures Fold(stack, x + y) == Fold(Fold(stack, x), y)
    decreases |x|
  {
    if x == [] {
      assert x + y == y;
    } else {
      assert (x + y)[0] == x[0] && (x + y)[1..] == x[1..] + y;
      FoldJoin(Push(stack, x[0]), x[1..], y);
    }
  }

  lemma {:induction false} FoldProper(stack: seq<string>, comps: seq<string>)
    requires AllProper(comps)
    ensures Fold(stack, comps) == stack + comps
    decreases |comps|
  {
    if comps == [] {
      assert stack + comps == stack;
    } else {
      FoldProper(stack + [comps[0]], comps[1..]);
      assert stack + [comps[0]] + comps[1..] == stack + comps;
    }
  }

  lemma {:induction false} FoldKeepsProper(stack: seq<string>, parts: seq<string>)
    requires AllProper(stack) && forall i :: 0 <= i < |parts| ==> '/' !in parts[i]
    ensures AllProper(Fold(stack, parts))
    decreases |parts|
  {
    if parts != [] {
      FoldKeepsProper(Push(stack, parts[0]), parts[1..]);
    }
  }

  lemma ComponentsProper(path: string)
    ensures AllProper(Components(path))
  {
    SplitNoSlash(path);
    FoldKeepsProper([], Split(path));
  }

  lemma {:induction false} SplitRender(comps: seq<string>)
    requires AllProper(comps)
    ensures Split(Render(comps)) == [""] + comps
  {
    if comps != [] {
      var n := |comps| - 1;
      SplitRender(comps[..n]);
      SplitJoin(Render(comps[..n]), comps[n]);
      SplitPlain(comps[n]);
      assert [""] + comps[..n] + [comps[n]] == [""] + comps;
    }
  }

  /** A canonical path has the components it was rendered from. */
  lemma ComponentsOfRender(comps: seq<string>)
    requires AllProper(comps)
    ensures Components(RenderPath(comps)) == comps
  {
    if comps == [] {
      assert Split("/") == [""] + Split("");
      assert Fold([], ["", ""]) == Fold([], [""]) == Fold([], []);
    } else {
      SplitRender(comps);
      FoldProper([], comps);
      assert ([""] + comps)[1..] == comps;
      assert [] + comps == comps;
    }
  }

  // ---- The laws -----------------------------------------------------------------------------------

  /** The output of `normalize` is canonical, and a canonical path is its own normal form. */
  lemma NormalizeCanonical(path: string)
    ensures Canonical(Normalize(path))
    ensures Canonical(path) <==> Normalize(path) == path
  {
    ComponentsProper(path);
    if Canonical(path) {
      var comps :| AllProper(comps) && path == RenderPath(comps);
      ComponentsOfRender(comps);
    }
  }

  lemma NormalizeIdempotent(path: string)
    ensures Normalize(Normalize(path)) == Normalize(path)
  {
    NormalizeCanonical(path);
    NormalizeCanonical(Normalize(path));
  }

  lemma ComponentsJoin(a: string, b: string)
    ensures Components(a + "/" + b) == Fold(Components(a), Split(b))
  {
    SplitJoin(a, b);
    FoldJoin([], Split(a), Split(b));
  }

  /** Normalizing the front of a path first makes no difference. */
  lemma NormalizeFront(a: string, b: string)
    ensures Normalize(Normalize(a) + "/" + b) == Normalize(a + "/" + b)
  {
    ComponentsJoin(a, b);
    ComponentsJoin(Normalize(a), b);
    ComponentsProper(a);
    ComponentsOfRender(Components(a));
  }

  /** `join` is normalizing the two with a slash between, also when the base ends in one. */
  lemma JoinExact(base: string, child: string)
    ensures Join(base, child) == Normalize(base + "/" + child)
  {
    if base != "" && base[|base| - 1] == '/' {
      var b := base[..|base| - 1];
      assert base == b + "/" + "" && base + child == b + "/" + child;
      ComponentsJoin(b, child);
      ComponentsJoin(base, child);
      ComponentsJoin(b, "");
      assert Split("") == [""];
      assert Fold(Components(b), [""]) == Fold(Push(Components(b), ""), []);
    }
  }

  lemma LastSlashRender(comps: seq<string>)
    requires AllProper(comps) && comps != []
    ensures var p := Render(comps); LastSlash(p, |p|) == Some(|Render(comps[..|comps| - 1])|)
  {
    var p, i := Render(comps), |Render(comps[..|comps| - 1])|;
    assert p[i] == '/';
    assert p[i + 1..] == comps[|comps| - 1];
    forall k | i < k < |p| ensures p[k] != '/' {
      assert p[k] == p[i + 1..][k - i - 1];
      assert p[k] in comps[|comps| - 1];
    }
  }

  /** `parent` drops the last component and `basename` is it. */
  lemma ParentBasename(path: string)
    ensures var comps := Components(path);
            if comps == [] then Parent(path) == None && Basename(path) == "/" && Normalize(path) == "/"
            else
              && Parent(path) == Some(RenderPath(comps[..|comps| - 1]))
              && Basename(path) == comps[|comps| - 1]
  {
    var comps := Components(path);
    ComponentsProper(path);
    if comps != [] {
      var n := |comps| - 1;
      var p := Render(comps);
      LastSlashRender(comps);
      RootIsNotRender(comps);
      SplitRender(comps);
      assert p[..|Render(comps[..n])|] == Render(comps[..n]);
      if n > 0 {
        assert Render(comps[..n]) != "";
      }
    }
  }

  lemma RootIsNotRender(comps: seq<string>)
    requires AllProper(comps) && comps != []
    ensures Render(comps) != "/"
  {
    assert |comps[|comps| - 1]| > 0;
  }

  /** Off the root, a path is the join of its parent and its base name. */
  lemma JoinParentBasename(path: string)
    requires Normalize(path) != "/"
    ensures Parent(path).Some? && Join(Parent(path).value, Basename(path)) == Normalize(path)
  {
    var comps := Components(path);
    ComponentsProper(path);
    ParentBasename(path);
    JoinExact(Parent(path).value, Basename(path));
    ComponentsBelow(comps);
  }

  /** One part more, as the stack meets it. */
  lemma ComponentsStep(path: string, part: string)
    requires '/' !in part
    ensures Components(path + "/" + part) == Push(Components(path), part)
    ensures Components(part) == Push([], part)
  {
    ComponentsJoin(path, part);
    SplitPlain(part);
    assert Fold(Components(path), [part]) == Fold(Push(Components(path), part), []);
    assert Fold([], [part]) == Fold(Push([], part), []);
  }

  lemma RootExact(path: string)
    ensures Normalize(path) == "/" <==> Components(path) == []
  {
    ComponentsProper(path);
    if Components(path) != [] {
      RootIsNotRender(Components(path));
    }
  }

  /** ".." leads to the parent, and at the root to the root. */
  lemma DotDot(path: string)
    ensures if Normalize(path) == "/" then Normalize(path + "/..") == "/" && Parent(path) == None
            else Parent(path) == Some(Normalize(path + "/.."))
  {
    ComponentsStep(path, "..");
    assert path + "/" + ".." == path + "/..";
    ParentBasename(path);
    RootExact(path);
  }

  /** "." and an empty part lead nowhere. */
  lemma Dot(path: string)
    ensures Normalize(path + "/.") == Normalize(path + "/") == Normalize(path)
  {
    ComponentsStep(path, ".");
    ComponentsStep(path, "");
    assert path + "/" + "." == path + "/." && path + "/" + "" == path + "/";
  }

  /** Any other name leads below: it becomes the base name, and the path before it the parent. */
  lemma Down(path: string, c: string)
    requires Proper(c)
    ensures Basename(path + "/" + c) == c && Parent(path + "/" + c) == Some(Normalize(path))
    ensures Normalize(path + "/" + c) == (if Normalize(path) == "/" then "" else Normalize(path)) + "/" + c
  {
    var comps := Components(path);
    ComponentsStep(path, c);
    ParentBasename(path + "/" + c);
    RootExact(path);
    assert (comps + [c])[..|comps|] == comps;
    assert Render(comps + [c]) == Render(comps) + "/" + c;
    assert comps == [] ==> Render(comps) == "";
  }

  /** The first part stands below the root. */
  lemma FirstPart(part: string)
    requires '/' !in part
    ensures Normalize(part) == if Proper(part) then "/" + part else "/"
  {
    ComponentsStep("", part);
    if Proper(part) {
      assert Push([], part) == [part] && [part][..0] == [];
      assert Render([part]) == Render([]) + "/" + part;
      assert Render([]) + "/" + part == "/" + part;
    }
  }

  lemma ComponentsBelow(comps: seq<string>)
    requires AllProper(comps) && comps != []
    ensures var n := |comps| - 1; Components(RenderPath(comps[..n]) + "/" + comps[n]) == comps
  {
    var n := |comps| - 1;
    ComponentsOfRender(comps[..n]);
    ComponentsStep(RenderPath(comps[..n]), comps[n]);
    assert comps[..n] + [comps[n]] == comps;
  }

  // ---- The working directory ----------------------------------------------------------------------

  predicate Absolute(path: string) {
    path != "" && path[0] == '/'
  }

  /** `sys_chdir`. */
  function Chdir(cwd: string, path: string): string {
    if Absolute(path) then Normalize(path) else Join(cwd, path)
  }

  function ChdirAll(cwd: string, paths: seq<string>): string
    decreases |paths|
  {
    if paths == [] then cwd else ChdirAll(Chdir(cwd, paths[0]), paths[1..])
  }

  /** `resolve_user_path`, with its shortcut for ".". */
  function Resolve(cwd: string, path: string): string {
    if Absolute(path) then Normalize(path) else if path == "." then cwd else Join(cwd, path)
  }

  /** A canonical working directory stays canonical under every run of changes. */
  lemma {:induction false} ChdirKeeps(cwd: string, paths: seq<string>)
    requires Canonical(cwd)
    ensures Canonical(ChdirAll(cwd, paths))
    decreases |paths|
  {
    if paths != [] {
      NormalizeCanonical(paths[0]);
      JoinExact(cwd, paths[0]);
      NormalizeCanonical(cwd + "/" + paths[0]);
      ChdirKeeps(Chdir(cwd, paths[0]), paths[1..]);
    }
  }

  /** From the root, the working directory is canonical after every run of changes. */
  lemma CwdCanonical(paths: seq<string>)
    ensures Canonical(ChdirAll("/", paths))
  {
    assert AllProper([]) && "/" == RenderPath([]);
    ChdirKeeps("/", paths);
  }

  /** In a canonical working directory the shortcut for "." agrees with the general case, and resolving is
      normalizing the path below the directory. */
  lemma ResolveExact(cwd: string, path: string)
    requires Canonical(cwd)
    ensures Resolve(cwd, path) == if Absolute(path) then Normalize(path) else Normalize(cwd + "/" + path)
  {
    JoinExact(cwd, path);
    if path == "." {
      ComponentsJoin(cwd, path);
      SplitPlain(path);
      assert Fold(Components(cwd), ["."]) == Fold(Push(Components(cwd), "."), []);
      NormalizeCanonical(cwd);
    }
  }

  // ---- The loop of normalize ----------------------------------------------------------------------

  /** `normalize` as the kernel runs it: a stack of components filled by one loop and written out by another. */
  method NormalizePath(path: string) returns (result: string)
    ensures result == Normalize(path) && Canonical(result)
  {
    NormalizeCanonical(path);
    var parts := Split(path);
    var components: seq<string> := [];
    for i := 0 to |parts|
      invariant components == Fold([], parts[..i])
    {
      var part := parts[i];
      assert parts[..i + 1] == parts[..i] + [part];
      FoldJoin([], parts[..i], [part]);
      assert Fold(components, [part]) == Fold(Push(components, part), []);
      if part == "" || part == "." {
        continue;
      }
      if part == ".." {
        if components != [] { components := components[..|components| - 1]; }
      } else {
        components := components + [part];
      }
    }
    assert parts[..|parts|] == parts;
    if components == [] { return "/"; }
    result := "";
    for i := 0 to |components|
      invariant result == Render(components[..i])
    {
      assert components[..i + 1][..i] == components[..i];
      result := result + "/";
      result := result + components[i];
    }
    assert components[..|components|] == components;
  }
}
