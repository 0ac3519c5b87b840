/** Path strings: path_parse (fs/fs.c), wash_path and make_clear_abs_path (shell/buildin_cmd.c).
    With `shipped` the assignment at fs.c:234 and the pointer comparison at fs.c:238 are kept, so exactly
    one character is skipped; without it the leading run of slashes is. */
module Paths {
  import opened Outcomes

  // ---------------------------------------------------------------- path_parse

  /** Where the first component of p ends. */
  function UpTo(p: string): (n: nat)
    ensures n <= |p|
    ensures n < |p| ==> p[n] == '/'
    ensures forall i :: 0 <= i < n ==> p[i] != '/'
  {
    if p == "" || p[0] == '/' then 0 else 1 + UpTo(p[1..])
  }

  function SkipSlashes(p: string): (q: string)
    ensures |q| <= |p|
    ensures q == "" || q[0] != '/'
  {
    if p == "" || p[0] != '/' then p else SkipSlashes(p[1..])
  }

  /** rest is None for the NULL returned at the end of the string. */
  datatype Parsed = Parsed(name: string, rest: Option<string>)

  function Parse(p: string, shipped: bool): Parsed
    requires p != ""
  {
    var q := if shipped then p[1..] else SkipSlashes(p);
    var n := UpTo(q);
    Parsed(q[..n], if n == |q| then None else Some(q[n..]))
  }

  /** The names the loops of search_file, path_depth_cnt and wash_path go through. */
  function Names(p: string, shipped: bool): seq<string>
    requires p != ""
    decreases |p|
  {
    var r := Parse(p, shipped);
    if r.name == "" then []
    else if r.rest.None? then [r.name]
    else [r.name] + Names(r.rest.value, shipped)
  }

  method SkipRun(p: string) returns (at: nat)
    ensures at <= |p| && p[at..] == SkipSlashes(p)
  {
    at := 0;
    while at < |p| && p[at] == '/'
      invariant at <= |p| && SkipSlashes(p) == SkipSlashes(p[at..])
    {
      assert p[at..][1..] == p[at + 1..];
      at := at + 1;
    }
  }

  method PathParse(p: string, shipped: bool) returns (name: string, rest: Option<string>)
    requires p != ""
    ensures Parsed(name, rest) == Parse(p, shipped)
  {
    var start := 1;
    if !shipped {
      start := SkipRun(p);
    }
    name, rest := TakeName(p[start..]);
  }

  method TakeName(q: string) returns (name: string, rest: Option<string>)
    ensures Parsed(name, rest) == Parsed(q[..UpTo(q)], if UpTo(q) == |q| then None else Some(q[UpTo(q)..]))
  {
    name := "";
    var at := 0;
    while at < |q| && q[at] != '/'
      invariant at <= |q| && name == q[..at]
      invariant forall i :: 0 <= i < at ==> q[i] != '/'
    {
      name := name + [q[at]];
      at := at + 1;
    }
    UpToIs(q, at);
    rest := if at == |q| then None else Some(q[at..]);
  }

  lemma UpToIs(q: string, n: nat)
    requires n <= |q| && (n < |q| ==> q[n] == '/') && forall i :: 0 <= i < n ==> q[i] != '/'
    ensures UpTo(q) == n
  {
  }

  method PathDepthCnt(p: string, shipped: bool) returns (depth: nat)
    requires p != ""
    ensures depth == |Names(p, shipped)|
  {
    depth := 0;
    var name, rest := PathParse(p, shipped);
    ghost var left := Names(p, shipped);
    while name != ""
      invariant depth + |left| == |Names(p, shipped)|
      invariant rest.Some? ==> rest.value != ""
      invariant left == if name == "" then [] else [name] + if rest.None? then [] else Names(rest.value, shipped)
      decreases |left|
    {
      depth := depth + 1;
      left := left[1..];
      name := "";
      if rest.Some? {
        name, rest := PathParse(rest.value, shipped);
      }
    }
  }

  // ---------------------------------------------------------------- what the names are

  /** The pieces between slashes, empty ones included. */
  function Pieces(p: string): (s: seq<string>)
    decreases |p|
  {
    var n := UpTo(p);
    if n == |p| then [p] else [p[..n]] + Pieces(p[n + 1..])
  }

  function NonEmpty(s: seq<string>): seq<string> {
    if s == [] then [] else (if s[0] == "" then [] else [s[0]]) + NonEmpty(s[1..])
  }

  function Leading(s: seq<string>): seq<string> {
    if s == [] || s[0] == "" then [] else [s[0]] + Leading(s[1..])
  }

  /** With runs of slashes skipped, the names are the non-empty pieces. */
  lemma {:induction false} NamesIntended(p: string)
    requires p != "" && p[0] == '/'
    ensures Names(p, false) == NonEmpty(Pieces(p[1..]))
    decreases |p|
  {
    var q := p[1..];
    if q == "" {
      assert Pieces(q) == [""];
    } else if q[0] == '/' {
      assert Pieces(q) == [""] + Pieces(q[1..]);
      assert SkipSlashes(p) == SkipSlashes(q);
      NamesIntended(q);
    } else {
      var n := UpTo(q);
      assert SkipSlashes(p) == q;
      if n < |q| {
        assert q[n..][1..] == q[n + 1..];
        NamesIntended(q[n..]);
        assert Pieces(q) == [q[..n]] + Pieces(q[n + 1..]);
      } else {
        assert Pieces(q) == [q] && q[..n] == q;
      }
    }
  }

  /** As shipped, the names stop at the first empty piece. */
  lemma {:induction false} NamesShipped(p: string)
    requires p != "" && p[0] == '/'
    ensures Names(p, true) == Leading(Pieces(p[1..]))
    decreases |p|
  {
    var q := p[1..];
    var n := UpTo(q);
    if n == |q| {
      assert Pieces(q) == [q] && q[..n] == q;
    } else {
      assert Pieces(q) == [q[..n]] + Pieces(q[n + 1..]);
      if n > 0 {
        assert q[n..][1..] == q[n + 1..];
        NamesShipped(q[n..]);
      }
    }
  }

  ghost predicate GapBefore(s: seq<string>, i: int, j: int) {
    0 <= i < j < |s| && s[i] == "" && s[j] != ""
  }

  lemma {:induction false} NothingLeft(s: seq<string>)
    ensures NonEmpty(s) == [] <==> forall j :: 0 <= j < |s| ==> s[j] == ""
  {
    if s != [] {
      NothingLeft(s[1..]);
      assert forall j :: 1 <= j < |s| ==> s[j] == s[1..][j - 1];
      assert forall j :: 0 <= j < |s[1..]| ==> s[1..][j] == s[j + 1];
    }
  }

  lemma GapShift(s: seq<string>)
    requires s != [] && s[0] != ""
    ensures (exists i, j :: GapBefore(s, i, j)) <==> exists i, j :: GapBefore(s[1..], i, j)
  {
    if i, j :| GapBefore(s[1..], i, j) {
      assert GapBefore(s, i + 1, j + 1);
    }
    if i, j :| GapBefore(s, i, j) {
      assert GapBefore(s[1..], i - 1, j - 1);
    }
  }

  lemma {:induction false} LeadingIsAllIff(s: seq<string>)
    ensures Leading(s) == NonEmpty(s) <==> !exists i, j :: GapBefore(s, i, j)
  {
    if s != [] {
      if s[0] == "" {
        NothingLeft(s[1..]);
        if j :| 0 <= j < |s[1..]| && s[1..][j] != "" {
          assert GapBefore(s, 0, j + 1);
        } else {
          assert forall j :: 1 <= j < |s| ==> s[j] == s[1..][j - 1];
        }
      } else {
        LeadingIsAllIff(s[1..]);
        GapShift(s);
        SamePrefix(s[0], Leading(s[1..]), NonEmpty(s[1..]));
      }
    }
  }

  /** The shipped path_parse is right exactly on the paths with no empty component in front of a
      non-empty one; a trailing slash does no harm. */
  lemma ShippedParseRightIff(p: string)
    requires p != "" && p[0] == '/'
    ensures Names(p, true) == Names(p, false) <==> !exists i, j :: GapBefore(Pieces(p[1..]), i, j)
  {
    NamesIntended(p);
    NamesShipped(p);
    LeadingIsAllIff(Pieces(p[1..]));
  }

  /** As shipped, everything behind a doubled slash is dropped. */
  lemma ShippedDropsBehindDoubleSlash()
    ensures Names("/a//b", true) == ["a"] && Names("/a//b", false) == ["a", "b"]
  {
    var p := "/a//b";
    var q := p[1..];
    assert UpTo("a//b") == 1 by { UpToIs("a//b", 1); }
    assert q == "a//b" && q[..1] == "a" && q[1..] == "//b" && q[2..] == "/b";
    assert Pieces("b") == ["b"] by { UpToIs("b", 1); }
    assert Pieces("/b") == ["", "b"] by { assert "/b"[1..] == "b" && "/b"[..0] == ""; }
    assert Pieces(q) == ["a", "", "b"];
    NamesShipped(p);
    NamesIntended(p);
    assert Leading(["", "b"]) == [] && ["a", "", "b"][1..] == ["", "b"];
    assert NonEmpty(["b"]) == ["b"] && ["", "b"][1..] == ["b"];
  }

  // ---------------------------------------------------------------- names and the strings made of them

  predicate Component(s: string) {
    s != "" && forall i :: 0 <= i < |s| ==> s[i] != '/'
  }

  lemma {:induction false} NamesAreComponents(p: string, shipped: bool)
    requires p != ""
    ensures forall s :: s in Names(p, shipped) ==> Component(s)
    decreases |p|
  {
    var r := Parse(p, shipped);
    if r.name != "" && r.rest.Some? {
      NamesAreComponents(r.rest.value, shipped);
    }
  }

  function Join(names: seq<string>): (p: string)
    ensures names != [] ==> p != "" && p[0] == '/'
  {
    if names == [] then "" else "/" + names[0] + Join(names[1..])
  }

  function Render(names: seq<string>): (p: string)
    ensures p != "" && p[0] == '/'
  {
    if names == [] then "/" else Join(names)
  }

  lemma ParseFront(a: string, p: string, shipped: bool)
    requires Component(a) && (p == "" || p[0] == '/')
    ensures Parse("/" + a + p, shipped) == Parsed(a, if p == "" then None else Some(p))
  {
    var whole := "/" + a + p;
    var q := a + p;
    assert whole[1..] == q;
    assert q[0] == a[0];
    assert SkipSlashes(whole) == q;
    UpToIs(q, |a|);
    assert q[..|a|] == a && q[|a|..] == p;
  }

  /** The names of a followed by the names of p. */
  lemma {:induction false} NamesOfConcat(a: seq<string>, p: string, shipped: bool)
    requires forall s :: s in a ==> Component(s)
    requires p != "" && p[0] == '/'
    ensures Names(Join(a) + p, shipped) == a + Names(p, shipped)
  {
    if a == [] {
      assert Join(a) + p == p;
    } else {
      var tail := Join(a[1..]) + p;
      NamesStep(a, p, tail, shipped);
      NamesOfConcat(a[1..], p, shipped);
      FrontOff(a, Names(p, shipped));
    }
  }

  lemma FrontOff<T>(a: seq<T>, b: seq<T>)
    requires a != []
    ensures a + b == [a[0]] + (a[1..] + b)
  {
  }

  lemma SamePrefix<T>(x: T, a: seq<T>, b: seq<T>)
    ensures [x] + a == [x] + b <==> a == b
  {
    assert ([x] + a)[1..] == a && ([x] + b)[1..] == b;
  }

  lemma NamesStep(a: seq<string>, p: string, tail: string, shipped: bool)
    requires a != [] && Component(a[0]) && tail == Join(a[1..]) + p && p != "" && p[0] == '/'
    ensures tail != "" && Names(Join(a) + p, shipped) == [a[0]] + Names(tail, shipped)
  {
    JoinFront(a, p);
    assert tail[0] == '/';
    NamesFront(a[0], tail, shipped);
  }

  lemma JoinFront(a: seq<string>, p: string)
    requires a != []
    ensures Join(a) + p == "/" + a[0] + (Join(a[1..]) + p)
  {
  }

  lemma NamesFront(a: string, p: string, shipped: bool)
    requires Component(a) && (p == "" || p[0] == '/')
    ensures Names("/" + a + p, shipped) == [a] + if p == "" then [] else Names(p, shipped)
  {
    ParseFront(a, p, shipped);
  }

  /** Printing a list of components and parsing it again gives the list back. */
  lemma NamesOfRender(a: seq<string>, shipped: bool)
    requires forall s :: s in a ==> Component(s)
    ensures Names(Render(a), shipped) == a
  {
    if a == [] {
      assert "/"[1..] == "";
    } else {
      var front, last := a[..|a| - 1], a[|a| - 1];
      assert a == front + [last];
      JoinConcat(front, [last]);
      JoinOne(last);
      NamesFront(last, "", shipped);
      NamesOfConcat(front, Join([last]), shipped);
    }
  }

  lemma JoinOne(last: string)
    ensures Join([last]) == "/" + last + "" == "/" + last
  {
  }

  lemma {:induction false} JoinConcat(a: seq<string>, b: seq<string>)
    ensures Join(a + b) == Join(a) + Join(b)
  {
    if a == [] {
      assert a + b == b;
    } else {
      assert (a + b)[1..] == a[1..] + b;
      JoinConcat(a[1..], b);
    }
  }

  // ---------------------------------------------------------------- wash_path

  function Step(stack: seq<string>, name: string): seq<string> {
    if name == ".." then (if stack == [] then [] else stack[..|stack| - 1])
    else if name == "." then stack
    else stack + [name]
  }

  /** The stack machine over "." and "..". */
  function FoldFrom(stack: seq<string>, names: seq<string>): seq<string>
    decreases names
  {
    if names == [] then stack else FoldFrom(Step(stack, names[0]), names[1..])
  }

  predicate Clean(names: seq<string>) {
    forall s :: s in names ==> Component(s) && s != "." && s != ".."
  }

  function LastSlash(p: string): (i: nat)
    requires exists i :: 0 <= i < |p| && p[i] == '/'
    ensures i < |p| && p[i] == '/' && forall j :: i < j < |p| ==> p[j] != '/'
  {
    if p[|p| - 1] == '/' then |p| - 1 else LastSlash(p[..|p| - 1])
  }

  lemma LastSlashOfJoin(front: seq<string>, last: string)
    requires Component(last)
    ensures Join(front + [last]) == Join(front) + "/" + last
    ensures exists i :: 0 <= i < |Join(front + [last])| && Join(front + [last])[i] == '/'
    ensures LastSlash(Join(front + [last])) == |Join(front)|
  {
    JoinConcat(front, [last]);
    JoinOne(last);
    LastSlashIs(Join(front), last);
  }

  lemma LastSlashIs(a: string, last: string)
    requires Component(last)
    ensures var p := a + ("/" + last);
            p == a + "/" + last && p[|a|] == '/' && LastSlash(p) == |a|
  {
    var p := a + ("/" + last);
    assert p[|a|] == '/';
    assert forall j :: |a| < j < |p| ==> p[j] == last[j - |a| - 1];
  }

  lemma RenderedTop(stack: seq<string>)
    requires stack != [] && Clean(stack)
    ensures var front := Join(stack[..|stack| - 1]); var p := Render(stack);
            && p == front + "/" + stack[|stack| - 1] && p != "/"
            && p[|front|] == '/' && LastSlash(p) == |front|
            && (front == "" <==> |stack| == 1)
  {
    assert stack == stack[..|stack| - 1] + [stack[|stack| - 1]];
    LastSlashOfJoin(stack[..|stack| - 1], stack[|stack| - 1]);
    JoinEmpty(stack[..|stack| - 1]);
  }

  /** Lines 33-58: one component applied to the output buffer. */
  method Apply(clean: string, name: string, ghost stack: seq<string>) returns (r: string)
    requires clean == Render(stack) && Clean(stack) && Component(name)
    ensures r == Render(Step(stack, name)) && Clean(Step(stack, name))
  {
    r := clean;
    StepIsClean(stack, name);
    if stack != [] {
      RenderedTop(stack);
    }
    if name == ".." {
      assert clean[0] == '/';
      var slash := LastSlash(clean);
      if slash != 0 {
        r := clean[..slash];
      } else {
        r := clean[..1];
      }
    } else if name != "." {
      LastSlashOfJoin(stack, name);
      if clean != "/" {
        r := r + "/";
      }
      r := r + name;
    }
  }

  lemma JoinEmpty(a: seq<string>)
    ensures Join(a) == "" <==> a == []
  {
  }

  method WashPath(path: string, shipped: bool) returns (clean: string)
    requires path != "" && path[0] == '/'
    ensures clean == Render(FoldFrom([], Names(path, shipped)))
  {
    var name, rest := PathParse(path, shipped);
    NamesAreComponents(path, shipped);
    ghost var left := Names(path, shipped);
    ghost var stack: seq<string> := [];
    if name == "" {
      return "/";
    }
    clean := "/";
    while name != ""
      invariant rest.Some? ==> rest.value != ""
      invariant left == if name == "" then [] else [name] + if rest.None? then [] else Names(rest.value, shipped)
      invariant forall s :: s in left ==> Component(s)
      invariant clean == Render(stack) && Clean(stack)
      invariant FoldFrom([], Names(path, shipped)) == FoldFrom(stack, left)
      decreases |left|
    {
      clean := Apply(clean, name, stack);
      stack := Step(stack, name);
      left := left[1..];
      name := "";
      if rest.Some? {
        name, rest := PathParse(rest.value, shipped);
      }
    }
  }

  function Wash(path: string, shipped: bool): string
    requires path != ""
  {
    Render(FoldFrom([], Names(path, shipped)))
  }

  lemma RestIn(names: seq<string>)
    requires names != []
    ensures names[0] in names && forall s :: s in names[1..] ==> s in names
  {
  }

  lemma StepIsClean(stack: seq<string>, name: string)
    requires Clean(stack) && Component(name)
    ensures Clean(Step(stack, name))
  {
    forall s | s in Step(stack, name) ensures s in stack || s == name {
    }
  }

  lemma {:induction false} FoldIsClean(stack: seq<string>, names: seq<string>)
    requires Clean(stack) && forall s :: s in names ==> Component(s)
    ensures Clean(FoldFrom(stack, names))
    decreases names
  {
    if names != [] {
      StepIsClean(stack, names[0]);
      RestIn(names);
      FoldIsClean(Step(stack, names[0]), names[1..]);
    }
  }

  lemma {:induction false} FoldOfClean(stack: seq<string>, names: seq<string>)
    requires Clean(names)
    ensures FoldFrom(stack, names) == stack + names
    decreases names
  {
    if names == [] {
      assert stack + names == stack;
    } else {
      RestIn(names);
      FoldOfClean(stack + [names[0]], names[1..]);
      assert stack + names == stack + [names[0]] + names[1..];
    }
  }

  /** The names of a washed path are the folded components, none of them "." or "..". */
  lemma NamesOfWash(path: string, shipped: bool)
    requires path != ""
    ensures Names(Wash(path, shipped), shipped) == FoldFrom([], Names(path, shipped))
    ensures Clean(Names(Wash(path, shipped), shipped))
  {
    NamesAreComponents(path, shipped);
    FoldIsClean([], Names(path, shipped));
    NamesOfRender(FoldFrom([], Names(path, shipped)), shipped);
  }

  lemma WashIdempotent(path: string, shipped: bool)
    requires path != ""
    ensures Wash(Wash(path, shipped), shipped) == Wash(path, shipped)
  {
    NamesOfWash(path, shipped);
    FoldOfClean([], Names(Wash(path, shipped), shipped));
    assert [] + Names(Wash(path, shipped), shipped) == Names(Wash(path, shipped), shipped);
  }

  lemma {:induction false} FoldConcat(stack: seq<string>, a: seq<string>, b: seq<string>)
    ensures FoldFrom(stack, a + b) == FoldFrom(FoldFrom(stack, a), b)
    decreases a
  {
    if a == [] {
      assert a + b == b;
    } else {
      assert (a + b)[1..] == a[1..] + b;
      FoldConcat(Step(stack, a[0]), a[1..], b);
    }
  }

  // ---------------------------------------------------------------- make_clear_abs_path

  /** cwd is what getcwd wrote. */
  method MakeClearAbsPath(path: string, cwd: string, shipped: bool) returns (clean: string)
    requires cwd != "" && cwd[0] == '/'
    ensures clean == Wash(if path != "" && path[0] == '/' then path else if cwd == "/" then "/" + path else cwd + "/" + path,
                          shipped)
  {
    var abs := "";
    if path == "" || path[0] != '/' {
      abs := cwd;
      if !(cwd[0] == '/' && |cwd| == 1) {
        abs := abs + "/";
      }
    }
    abs := abs + path;
    assert abs == if path != "" && path[0] == '/' then path else if cwd == "/" then "/" + path else cwd + "/" + path;
    clean := WashPath(abs, shipped);
  }

  /** A relative path is folded on top of the working directory's components. */
  lemma RelativePathFolds(cwd: seq<string>, path: string, shipped: bool)
    requires Clean(cwd) && (path == "" || path[0] != '/')
    ensures Wash(if Render(cwd) == "/" then "/" + path else Render(cwd) + "/" + path, shipped)
            == Render(FoldFrom(cwd, Names("/" + path, shipped)))
  {
    var full := if Render(cwd) == "/" then "/" + path else Render(cwd) + "/" + path;
    CwdPrefix(cwd, path);
    NamesOfConcat(cwd, "/" + path, shipped);
    FoldConcat([], cwd, Names("/" + path, shipped));
    FoldOfClean([], cwd);
    assert [] + cwd == cwd;
  }

  lemma CwdPrefix(cwd: seq<string>, path: string)
    requires Clean(cwd)
    ensures (if Render(cwd) == "/" then "/" + path else Render(cwd) + "/" + path) == Join(cwd) + ("/" + path)
  {
    if cwd != [] {
      RenderedTop(cwd);
    }
  }
}
