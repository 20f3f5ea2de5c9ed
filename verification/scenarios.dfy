/**
 * Concrete runs of the whole program on small trees: first the walk, then
 * the writer's decision, then the lines.
 */
module Scenarios {
  import opened Candidates
  import opened Collector
  import opened Resolver
  import opened Writer
  import opened Results

  // ---------------------------------------------------------------------
  // `/r` holding `a` (which holds `x`) and `b`.
  // ---------------------------------------------------------------------

  function NestedTree(): Entry
  {
    Folder("r", "/r", [Folder("a", "/r/a", [Folder("x", "/r/a/x", [])]), Folder("b", "/r/b", [])])
  }

  /** The candidates of `NestedTree` in pre-order: the root at level 1, then
      `a`, its child `x`, then `b`. */
  function NestedCandidates(): seq<Candidate>
  {
    [Candidate("r", "/r", 2, 1), Candidate("a", "/r/a", 1, 2),
     Candidate("x", "/r/a/x", 0, 3), Candidate("b", "/r/b", 0, 2)]
  }

  lemma NestedTreeWalk()
    ensures Collect(NestedTree(), 1) == Success(NestedCandidates())
  {
    var x := Folder("x", "/r/a/x", []);
    var a := Folder("a", "/r/a", [x]);
    var b := Folder("b", "/r/b", []);
    var cs := NestedCandidates();
    var root := NestedTree();
    assert root.entries == [a, b] && [a, b][1..] == [b];
    assert DirCount([x]) == 1;
    assert DirCount([a, b]) == 2;
    assert Walk(x, 3) == [cs[2]];
    assert WalkEntries([x], 3) == [cs[2]];
    assert Walk(a, 2) == [cs[1], cs[2]];
    assert Walk(b, 2) == [cs[3]];
    assert WalkEntries([b], 2) == [cs[3]];
    assert WalkEntries([a, b], 2) == cs[1..];
    assert Walk(root, 1) == cs;
  }

  /** Every name is unique and visible, so every candidate gets its line,
      whatever the preferred pattern. */
  lemma NestedTreeResolve(preferred: string, rx: Matcher)
    ensures Resolve(NestedCandidates(), preferred, rx) == NestedCandidates()
  {
    var cs := NestedCandidates();
    assert Names(cs) == ["r", "a", "x", "b"];
    assert CountName(cs, "r") == 1 && CountName(cs, "a") == 1;
    assert CountName(cs, "x") == 1 && CountName(cs, "b") == 1;
    assert Emits(cs[0].name, cs, preferred, rx) && Emits(cs[1].name, cs, preferred, rx);
    assert Emits(cs[2].name, cs, preferred, rx) && Emits(cs[3].name, cs, preferred, rx);
    EmittedAll(cs, cs, preferred, rx);
  }

  /** Four lines, root first, in walk order; the line format itself is
      shown by `DotTreeRun`. */
  lemma NestedTreeRun(preferred: string, rx: Matcher)
    ensures Run(NestedTree(), preferred, rx) == Success(Render(NestedCandidates()))
  {
    NestedTreeWalk();
    NestedTreeResolve(preferred, rx);
  }

  // ---------------------------------------------------------------------
  // `/r` holding `lib` and `vendor/lib`.
  // ---------------------------------------------------------------------

  function LibTree(): Entry
  {
    Folder("r", "/r", [Folder("lib", "/r/lib", []), Folder("vendor", "/r/vendor", [Folder("lib", "/r/vendor/lib", [])])])
  }

  /** The candidates of `LibTree` in pre-order; `lib` is carried twice. */
  function LibCandidates(): seq<Candidate>
  {
    [Candidate("r", "/r", 2, 1), Candidate("lib", "/r/lib", 0, 2),
     Candidate("vendor", "/r/vendor", 1, 2), Candidate("lib", "/r/vendor/lib", 0, 3)]
  }

  lemma LibTreeWalk()
    ensures Collect(LibTree(), 1) == Success(LibCandidates())
  {
    var lib := Folder("lib", "/r/lib", []);
    var vlib := Folder("lib", "/r/vendor/lib", []);
    var vendor := Folder("vendor", "/r/vendor", [vlib]);
    var cs := LibCandidates();
    var root := LibTree();
    assert root.entries == [lib, vendor] && [lib, vendor][1..] == [vendor];
    assert DirCount([vlib]) == 1;
    assert DirCount([lib, vendor]) == 2;
    assert Walk(vlib, 3) == [cs[3]];
    assert WalkEntries([vlib], 3) == [cs[3]];
    assert Walk(vendor, 2) == [cs[2], cs[3]];
    assert Walk(lib, 2) == [cs[1]];
    assert WalkEntries([vendor], 2) == [cs[2], cs[3]];
    assert WalkEntries([lib, vendor], 2) == cs[1..];
    assert Walk(root, 1) == cs;
  }

  /** The group of `lib` is settled by the top-level `lib`, whose path is
      the only one the pattern matches. */
  lemma LibTreeLibResolved(preferred: string, rx: Matcher)
    requires rx(preferred, "/r/lib") && !rx(preferred, "/r/vendor/lib")
    ensures Emits("lib", LibCandidates(), preferred, rx)
  {
    var cs := LibCandidates();
    assert cs[1].name == "lib" && rx(preferred, cs[1].path);
    EmitsIff("lib", cs, preferred, rx);
  }

  /** `r` and `vendor` are unique names, so they get their lines. */
  lemma LibTreeUnique(preferred: string, rx: Matcher)
    ensures Emits("r", LibCandidates(), preferred, rx)
    ensures Emits("vendor", LibCandidates(), preferred, rx)
  {
    var cs := LibCandidates();
    assert Names(cs) == ["r", "lib", "vendor", "lib"];
    assert CountName(cs, "r") == 1 && CountName(cs, "vendor") == 1;
  }

  /** With a pattern that matches only `/r/lib`, the top-level `lib` settles
      the group, and the line written on each visit is the candidate being
      visited: both `lib` directories get their line, not only the one that
      matched. */
  lemma LibTreeResolve(preferred: string, rx: Matcher)
    requires rx(preferred, "/r/lib") && !rx(preferred, "/r/vendor/lib")
    ensures Resolve(LibCandidates(), preferred, rx) == LibCandidates()
  {
    var cs := LibCandidates();
    LibTreeUnique(preferred, rx);
    LibTreeLibResolved(preferred, rx);
    assert Emits(cs[0].name, cs, preferred, rx) && Emits(cs[1].name, cs, preferred, rx);
    assert Emits(cs[2].name, cs, preferred, rx) && Emits(cs[3].name, cs, preferred, rx);
    EmittedAll(cs, cs, preferred, rx);
  }

  lemma LibTreeRun(preferred: string, rx: Matcher)
    requires rx(preferred, "/r/lib") && !rx(preferred, "/r/vendor/lib")
    ensures Run(LibTree(), preferred, rx) == Success(Render(LibCandidates()))
  {
    LibTreeWalk();
    LibTreeResolve(preferred, rx);
  }

  /** The verdict of the program's default pattern `.`: without the dot-all
      flag, `.` matches any non-empty string whose first character is not a
      newline. */
  function DefaultVerdict(pattern: string, path: string): bool
  {
    |path| > 0 && path[0] != '\n'
  }

  /** Under the default pattern every path of the tree matches, so all four
      directories keep their line. */
  lemma LibTreeDefaultPattern()
    ensures Resolve(LibCandidates(), ".", DefaultVerdict) == LibCandidates()
  {
    var rx: Matcher := DefaultVerdict;
    var cs := LibCandidates();
    forall c | c in cs
      ensures rx(".", c.path)
    {
      assert c.path[0] == '/';
    }
    ResolveMatchAll(cs, ".", rx);
    LibTreeVisible();
  }

  /** No directory of the tree has an empty or dot name. */
  lemma LibTreeVisible()
    ensures Visible(LibCandidates()) == LibCandidates()
  {
    var cs := LibCandidates();
    var r, l, v := cs[0], cs[1], cs[2];
    assert !Hidden(r.name) && !Hidden(l.name) && !Hidden(v.name) && !Hidden(cs[3].name);
    assert cs[..3] == [r, l, v] && [r, l, v][..2] == [r, l] && [r, l][..1] == [r];
    assert Visible([r]) == [r];
    assert Visible([r, l]) == [r, l];
    assert Visible([r, l, v]) == [r, l, v];
  }

  // ---------------------------------------------------------------------
  // `/r` holding the directory `.git` and a plain file.
  // ---------------------------------------------------------------------

  function DotTree(): Entry
  {
    Folder("r", "/r", [Folder(".git", "/r/.git", []), File("README", "/r/README")])
  }

  lemma DotTreeWalk()
    ensures Collect(DotTree(), 1) == Success([Candidate("r", "/r", 1, 1), Candidate(".git", "/r/.git", 0, 2)])
  {
    var git := Folder(".git", "/r/.git", []);
    var readme := File("README", "/r/README");
    var cg := Candidate(".git", "/r/.git", 0, 2);
    var root := DotTree();
    assert root.entries == [git, readme];
    assert [git, readme][1..] == [readme];
    assert DirCount([readme]) == 0;
    assert DirCount([git, readme]) == 1;
    assert Walk(git, 2) == [cg];
    assert WalkEntries([readme], 2) == [];
    assert WalkEntries([git, readme], 2) == [cg];
    assert Walk(root, 1) == [Candidate("r", "/r", 1, 1), cg];
  }

  /** The dot-directory is skipped even though its name is unique. */
  lemma DotTreeResolve(preferred: string, rx: Matcher)
    ensures Resolve([Candidate("r", "/r", 1, 1), Candidate(".git", "/r/.git", 0, 2)], preferred, rx)
         == [Candidate("r", "/r", 1, 1)]
  {
    var cr, cg := Candidate("r", "/r", 1, 1), Candidate(".git", "/r/.git", 0, 2);
    var cs := [cr, cg];
    assert Names(cs) == ["r", ".git"];
    assert CountName(cs, "r") == 1;
    assert Emits("r", cs, preferred, rx) && !Emits(".git", cs, preferred, rx);
    assert cs[..1] == [cr];
    assert Emitted(cs[..1], cs, preferred, rx) == [cr];
  }

  /** Only the root gets a line: the dot-directory is skipped and the file is
      no candidate. */
  lemma DotTreeRun(preferred: string, rx: Matcher)
    ensures Run(DotTree(), preferred, rx) == Success(["alias r=\"cd /r\"\n"])
  {
    var cr := Candidate("r", "/r", 1, 1);
    DotTreeWalk();
    DotTreeResolve(preferred, rx);
    assert Run(DotTree(), preferred, rx) == Success(Render([cr]));
    assert Render([cr]) == [Line(cr)];
    assert Line(cr) == "alias r=\"cd /r\"\n";
  }

  /** A root that is a plain file makes the walk fail before anything is written. */
  lemma FileRootFails(preferred: string, rx: Matcher)
    ensures Run(File("notes", "/notes"), preferred, rx) == Failure(NotADirectory("/notes"))
  {
  }
}
