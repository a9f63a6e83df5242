/**
 * `_find_file_path`: a fuzzy, case- and separator-insensitive search for a
 * file name under the sandbox root, walking the tree the way `os.walk`
 * does (a directory's own files first, then each visible sub-directory in
 * listing order) and skipping every name that starts with a dot.
 */
module Search {
  import opened Strings
  import opened Paths
  import opened Optional

  /** A directory as the walk lists it: its file names and its sub-directories. */
  datatype Folder = Folder(files: seq<string>, subdirs: seq<SubDir>)

  datatype SubDir = SubDir(name: string, folder: Folder)

  /** One step of the walk: a directory, as its components below the root, and its files. */
  datatype Visit = Visit(dirs: seq<string>, files: seq<string>)

  /** Dot-names are skipped, for files and directories alike. */
  predicate Dotted(name: string) {
    StartsWith(name, ".")
  }

  // ---------------------------------------------------------------------
  // Matching

  /** Lower-case, then drop `_`, `-` and space. */
  function Normalise(s: string): (r: string)
    ensures |r| <= |s|
    ensures forall i :: 0 <= i < |r| ==> !IsSeparator(r[i])
  {
    DropSeparators(Lower(s))
  }

  /**
   * The normalised query base occurs in the normalised file base, and the
   * extensions agree whenever the query has one.
   */
  predicate Matches(query: string, name: string) {
    var q := SplitExt(query);
    var n := SplitExt(name);
    Contains(Normalise(n.0), Normalise(q.0)) && (q.1 == "" || q.1 == n.1)
  }

  // ---------------------------------------------------------------------
  // The walk

  /** `os.walk(top)` with `dirs[:]` pruned of dot-names at every step. */
  function Walk(f: Folder, dirs: seq<string>): seq<Visit>
    decreases f, |f.subdirs| + 1
  {
    [Visit(dirs, f.files)] + WalkFrom(f, 0, dirs)
  }

  /** The walk of the visible sub-directories of `f` from the `i`-th on. */
  function WalkFrom(f: Folder, i: nat, dirs: seq<string>): seq<Visit>
    requires i <= |f.subdirs|
    decreases f, |f.subdirs| - i
  {
    if i == |f.subdirs| then []
    else
      var d := f.subdirs[i];
      (if Dotted(d.name) then [] else Walk(d.folder, dirs + [d.name])) + WalkFrom(f, i + 1, dirs)
  }

  /** `files = [f for f in files if not f.startswith('.')]` */
  function Visible(names: seq<string>): seq<string> {
    if names == [] then []
    else
      var init := Visible(names[..|names| - 1]);
      init + (if Dotted(names[|names| - 1]) then [] else [names[|names| - 1]])
  }

  /** The test the search applies to each visible file name. */
  function MatcherFor(query: string): string -> bool {
    (name: string) => Matches(query, name)
  }

  /** The names of one directory that pass `keep`, as component paths below the root. */
  function NameHits(dirs: seq<string>, names: seq<string>, keep: string -> bool): seq<seq<string>> {
    if names == [] then []
    else
      var last := names[|names| - 1];
      NameHits(dirs, names[..|names| - 1], keep) + (if keep(last) then [dirs + [last]] else [])
  }

  /** The hits of a whole walk, in walk order. */
  function Hits(visits: seq<Visit>, keep: string -> bool): seq<seq<string>> {
    if visits == [] then []
    else NameHits(visits[0].dirs, Visible(visits[0].files), keep) + Hits(visits[1..], keep)
  }

  /** `os.path.relpath(os.path.join(root, f), '/my_files')` */
  function Rel(comps: seq<string>): string {
    JoinWith(comps, "/")
  }

  function RelAll(hits: seq<seq<string>>): (r: seq<string>)
    ensures |r| == |hits|
  {
    if hits == [] then [] else RelAll(hits[..|hits| - 1]) + [Rel(hits[|hits| - 1])]
  }

  const SearchRootMissing: string :=
    "Error: Search directory not found or is not a directory: /my_files"

  function NotFound(query: string): string {
    "Error: No files found matching: " + query + " (or variations) within /my_files"
  }

  /** What the tool answers, given the tree under the root (`None`: no such directory). */
  function FindReply(query: string, top: Option<Folder>): string {
    match top
    case None => SearchRootMissing
    case Some(t) =>
      var found := RelAll(Hits(Walk(t, []), MatcherFor(query)));
      if found == [] then NotFound(query) else JoinWith(found, "\n")
  }

  // ---------------------------------------------------------------------
  // The search loop

  lemma RelAllSnoc(hits: seq<seq<string>>, h: seq<string>)
    ensures RelAll(hits + [h]) == RelAll(hits) + [Rel(h)]
  {
    assert (hits + [h])[..|hits|] == hits;
  }

  lemma NameHitsStep(dirs: seq<string>, names: seq<string>, j: nat, keep: string -> bool)
    requires j < |names|
    ensures NameHits(dirs, names[..j + 1], keep)
         == NameHits(dirs, names[..j], keep) + (if keep(names[j]) then [dirs + [names[j]]] else [])
  {
    assert names[..j + 1][..j] == names[..j];
  }

  lemma HitsStep(visits: seq<Visit>, k: nat, keep: string -> bool)
    requires k < |visits|
    ensures Hits(visits[..k + 1], keep)
         == Hits(visits[..k], keep) + NameHits(visits[k].dirs, Visible(visits[k].files), keep)
  {
    var v := visits[k];
    assert visits[..k + 1] == visits[..k] + [v];
    HitsAppend(visits[..k], [v], keep);
    assert Hits([v], keep) == NameHits(v.dirs, Visible(v.files), keep) + Hits([], keep) by {
      assert [v][1..] == [];
    }
    assert NameHits(v.dirs, Visible(v.files), keep) + [] == NameHits(v.dirs, Visible(v.files), keep);
  }

  lemma {:induction false} RelAllAppend(a: seq<seq<string>>, b: seq<seq<string>>)
    ensures RelAll(a + b) == RelAll(a) + RelAll(b)
    decreases |b|
  {
    if b == [] {
      assert a + b == a;
    } else {
      var n := |b| - 1;
      assert (a + b)[..|a + b| - 1] == a + b[..n];
      RelAllAppend(a, b[..n]);
    }
  }

  /**
   * The inner loop over one directory's visible files, given the query's
   * normalised base and its extension, computed once before the walk.
   */
  method MatchNames(dirs: seq<string>, files: seq<string>, query: string, target: string, targetExt: string)
    returns (found: seq<string>)
    requires target == Normalise(SplitExt(query).0) && targetExt == SplitExt(query).1
    ensures found == RelAll(NameHits(dirs, files, MatcherFor(query)))
  {
    found := [];
    for j := 0 to |files|
      invariant found == RelAll(NameHits(dirs, files[..j], MatcherFor(query)))
    {
      var f := files[j];
      NameHitsStep(dirs, files, j, MatcherFor(query));
      var split := SplitExt(f);
      var normalised := Normalise(split.0);
      assert MatcherFor(query)(f) <==> Contains(normalised, target) && (targetExt == "" || targetExt == split.1);
      if Contains(normalised, target) && !(targetExt != "" && targetExt != split.1) {
        RelAllSnoc(NameHits(dirs, files[..j], MatcherFor(query)), dirs + [f]);
        found := found + [Rel(dirs + [f])];
      } else {
        assert NameHits(dirs, files[..j], MatcherFor(query)) + [] == NameHits(dirs, files[..j], MatcherFor(query));
      }
    }
    assert files[..|files|] == files;
  }

  /** The loop of `_find_file_path` over the steps of the walk. */
  method FindFilePath(query: string, top: Option<Folder>) returns (reply: string)
    ensures reply == FindReply(query, top)
  {
    var target := SplitExt(query);
    var normalisedTarget := Normalise(target.0);
    if top.None? {
      return SearchRootMissing;
    }
    var visits := Walk(top.value, []);
    var found: seq<string> := [];
    for k := 0 to |visits|
      invariant found == RelAll(Hits(visits[..k], MatcherFor(query)))
    {
      var v := visits[k];
      var here := MatchNames(v.dirs, Visible(v.files), query, normalisedTarget, target.1);
      HitsStep(visits, k, MatcherFor(query));
      RelAllAppend(Hits(visits[..k], MatcherFor(query)), NameHits(v.dirs, Visible(v.files), MatcherFor(query)));
      found := found + here;
    }
    assert visits[..|visits|] == visits;
    if found == [] {
      reply := NotFound(query);
    } else {
      reply := JoinWith(found, "\n");
    }
  }

  // ---------------------------------------------------------------------
  // What the search finds, stated on the tree

  /**
   * `comps` leads from `f` to a file through sub-directories, and neither
   * the file nor any directory on the way has a dot-name.
   */
  ghost predicate HasVisibleFile(f: Folder, comps: seq<string>)
    decreases f
  {
    if |comps| == 1 then comps[0] in f.files && !Dotted(comps[0])
    else
      |comps| > 1 && !Dotted(comps[0])
      && exists i :: 0 <= i < |f.subdirs| && f.subdirs[i].name == comps[0]
                     && HasVisibleFile(f.subdirs[i].folder, comps[1..])
  }

  /** No component of a visible file's path is a dot-name. */
  lemma {:induction false} VisibleComponents(f: Folder, comps: seq<string>)
    requires HasVisibleFile(f, comps)
    ensures forall k :: 0 <= k < |comps| ==> !Dotted(comps[k])
    decreases f
  {
    if |comps| > 1 {
      var i :| 0 <= i < |f.subdirs| && f.subdirs[i].name == comps[0]
               && HasVisibleFile(f.subdirs[i].folder, comps[1..]);
      VisibleComponents(f.subdirs[i].folder, comps[1..]);
      forall k | 1 <= k < |comps| ensures !Dotted(comps[k]) {
        assert comps[k] == comps[1..][k - 1];
      }
    }
  }

  lemma {:induction false} VisibleMember(names: seq<string>, n: string)
    ensures n in Visible(names) <==> n in names && !Dotted(n)
  {
    if names != [] {
      var init := names[..|names| - 1];
      VisibleMember(init, n);
      assert names == init + [names[|names| - 1]];
    }
  }

  lemma {:induction false} NameHitsMember(dirs: seq<string>, names: seq<string>, keep: string -> bool, c: seq<string>)
    ensures c in NameHits(dirs, names, keep)
        <==> |c| == |dirs| + 1 && c[..|dirs|] == dirs && c[|dirs|] in names && keep(c[|dirs|])
  {
    if names != [] {
      var init := names[..|names| - 1];
      var last := names[|names| - 1];
      NameHitsMember(dirs, init, keep, c);
      assert names == init + [last];
      if c == dirs + [last] {
        assert c[..|dirs|] == dirs && c[|dirs|] == last;
      }
      if |c| == |dirs| + 1 && c[..|dirs|] == dirs && c[|dirs|] == last {
        assert c == dirs + [last];
      }
    }
  }

  lemma {:induction false} HitsAppend(a: seq<Visit>, b: seq<Visit>, keep: string -> bool)
    ensures Hits(a + b, keep) == Hits(a, keep) + Hits(b, keep)
    decreases |a|
  {
    if a == [] {
      assert a + b == b;
    } else {
      var here := NameHits(a[0].dirs, Visible(a[0].files), keep);
      assert (a + b)[0] == a[0] && (a + b)[1..] == a[1..] + b;
      HitsAppend(a[1..], b, keep);
      var x, y := Hits(a[1..], keep), Hits(b, keep);
      assert here + (x + y) == (here + x) + y;
    }
  }

  /** The hits of a walk: those of the directory's own files, then those below. */
  lemma WalkHits(f: Folder, dirs: seq<string>, keep: string -> bool)
    ensures Hits(Walk(f, dirs), keep)
         == NameHits(dirs, Visible(f.files), keep) + Hits(WalkFrom(f, 0, dirs), keep)
  {
    var walk := Walk(f, dirs);
    assert walk[0] == Visit(dirs, f.files) && walk[1..] == WalkFrom(f, 0, dirs);
  }

  lemma WalkFromHits(f: Folder, i: nat, dirs: seq<string>, keep: string -> bool)
    requires i < |f.subdirs|
    ensures var d := f.subdirs[i];
      Hits(WalkFrom(f, i, dirs), keep)
      == (if Dotted(d.name) then [] else Hits(Walk(d.folder, dirs + [d.name]), keep))
         + Hits(WalkFrom(f, i + 1, dirs), keep)
  {
    var d := f.subdirs[i];
    HitsAppend(if Dotted(d.name) then [] else Walk(d.folder, dirs + [d.name]), WalkFrom(f, i + 1, dirs), keep);
  }

  /** Everything the walk below `dirs` finds is a visible, matching file there. */
  lemma {:induction false} WalkSound(f: Folder, dirs: seq<string>, keep: string -> bool, c: seq<string>)
    requires c in Hits(Walk(f, dirs), keep)
    ensures |c| > |dirs| && c[..|dirs|] == dirs
    ensures HasVisibleFile(f, c[|dirs|..]) && keep(c[|c| - 1])
    decreases f, |f.subdirs| + 1
  {
    WalkHits(f, dirs, keep);
    if c in NameHits(dirs, Visible(f.files), keep) {
      NameHitsMember(dirs, Visible(f.files), keep, c);
      VisibleMember(f.files, c[|dirs|]);
      assert c[|dirs|..] == [c[|dirs|]];
    } else {
      WalkFromSound(f, 0, dirs, keep, c);
    }
  }

  lemma {:induction false} WalkFromSound(f: Folder, i: nat, dirs: seq<string>, keep: string -> bool, c: seq<string>)
    requires i <= |f.subdirs|
    requires c in Hits(WalkFrom(f, i, dirs), keep)
    ensures |c| > |dirs| + 1 && c[..|dirs|] == dirs
    ensures HasVisibleFile(f, c[|dirs|..]) && keep(c[|c| - 1])
    decreases f, |f.subdirs| - i
  {
    if i == |f.subdirs| {
      assert false;
    } else {
      var d := f.subdirs[i];
      var below := dirs + [d.name];
      WalkFromHits(f, i, dirs, keep);
      var first := if Dotted(d.name) then [] else Hits(Walk(d.folder, below), keep);
      assert c in first || c in Hits(WalkFrom(f, i + 1, dirs), keep);
      if c in first {
        WalkSound(d.folder, below, keep, c);
        SubdirHit(f, i, dirs, c);
      } else {
        WalkFromSound(f, i + 1, dirs, keep, c);
      }
    }
  }

  /** A hit below the `i`-th sub-directory is a visible file of `f`. */
  lemma SubdirHit(f: Folder, i: nat, dirs: seq<string>, c: seq<string>)
    requires i < |f.subdirs| && !Dotted(f.subdirs[i].name)
    requires var below := dirs + [f.subdirs[i].name];
      |c| > |below| && c[..|below|] == below && HasVisibleFile(f.subdirs[i].folder, c[|below|..])
    ensures |c| > |dirs| + 1 && c[..|dirs|] == dirs && HasVisibleFile(f, c[|dirs|..])
  {
    var d := f.subdirs[i];
    var below := dirs + [d.name];
    assert c[..|dirs|] == c[..|below|][..|dirs|];
    var rest := c[|dirs|..];
    assert rest[0] == c[..|below|][|dirs|] == d.name;
    assert rest[1..] == c[|below|..];
    assert f.subdirs[i].name == rest[0] && HasVisibleFile(f.subdirs[i].folder, rest[1..]);
  }

  /** Every visible, matching file below `dirs` is found by the walk. */
  lemma {:induction false} WalkComplete(f: Folder, dirs: seq<string>, keep: string -> bool, rest: seq<string>)
    requires HasVisibleFile(f, rest) && keep(rest[|rest| - 1])
    ensures dirs + rest in Hits(Walk(f, dirs), keep)
    decreases f, |f.subdirs| + 1, 0
  {
    WalkHits(f, dirs, keep);
    var c := dirs + rest;
    if |rest| == 1 {
      VisibleMember(f.files, rest[0]);
      assert c[..|dirs|] == dirs && c[|dirs|] == rest[0];
      NameHitsMember(dirs, Visible(f.files), keep, c);
    } else {
      var i :| 0 <= i < |f.subdirs| && f.subdirs[i].name == rest[0]
               && HasVisibleFile(f.subdirs[i].folder, rest[1..]);
      WalkFromComplete(f, 0, i, dirs, keep, rest);
    }
  }

  lemma {:induction false} WalkFromComplete(f: Folder, from: nat, i: nat, dirs: seq<string>, keep: string -> bool, rest: seq<string>)
    requires from <= i < |f.subdirs|
    requires |rest| > 1 && !Dotted(rest[0]) && f.subdirs[i].name == rest[0]
    requires HasVisibleFile(f.subdirs[i].folder, rest[1..]) && keep(rest[|rest| - 1])
    ensures dirs + rest in Hits(WalkFrom(f, from, dirs), keep)
    decreases f, |f.subdirs| - from, 1
  {
    var c := dirs + rest;
    var d := f.subdirs[from];
    var tail := Hits(WalkFrom(f, from + 1, dirs), keep);
    WalkFromHits(f, from, dirs, keep);
    if from == i {
      SubdirComplete(f, i, dirs, keep, rest);
      var first := Hits(Walk(d.folder, dirs + [d.name]), keep);
      assert c in first + tail;
    } else {
      WalkFromComplete(f, from + 1, i, dirs, keep, rest);
      var first := if Dotted(d.name) then [] else Hits(Walk(d.folder, dirs + [d.name]), keep);
      assert c in first + tail;
    }
  }

  /** A visible file below the `i`-th sub-directory is found by that sub-directory's walk. */
  lemma {:induction false} SubdirComplete(f: Folder, i: nat, dirs: seq<string>, keep: string -> bool, rest: seq<string>)
    requires i < |f.subdirs|
    requires |rest| > 1 && !Dotted(rest[0]) && f.subdirs[i].name == rest[0]
    requires HasVisibleFile(f.subdirs[i].folder, rest[1..]) && keep(rest[|rest| - 1])
    ensures dirs + rest in Hits(Walk(f.subdirs[i].folder, dirs + [rest[0]]), keep)
    decreases f, |f.subdirs| - i, 0
  {
    var d := f.subdirs[i];
    var below := dirs + [d.name];
    assert rest[1..][|rest[1..]| - 1] == rest[|rest| - 1];
    WalkComplete(d.folder, below, keep, rest[1..]);
    assert below + rest[1..] == dirs + rest;
  }

  /** A walk finds a path exactly when it leads to a visible file that passes `keep`. */
  lemma WalkFindsExactly(top: Folder, keep: string -> bool, c: seq<string>)
    ensures c in Hits(Walk(top, []), keep)
        <==> c != [] && HasVisibleFile(top, c) && keep(c[|c| - 1])
  {
    if c in Hits(Walk(top, []), keep) {
      WalkSound(top, [], keep, c);
      assert c[0..] == c;
    }
    if c != [] && HasVisibleFile(top, c) && keep(c[|c| - 1]) {
      WalkComplete(top, [], keep, c);
      assert [] + c == c;
    }
  }

  /**
   * The search finds a path exactly when it leads to a visible file whose
   * name matches the query; `FindFilePath` lists these in walk order.
   */
  lemma FoundExactly(top: Folder, query: string, c: seq<string>)
    ensures c in Hits(Walk(top, []), MatcherFor(query))
        <==> c != [] && HasVisibleFile(top, c) && Matches(query, c[|c| - 1])
  {
    WalkFindsExactly(top, MatcherFor(query), c);
  }
}

/** Worked queries and general laws of `_find_file_path`'s matching rule. */
module Queries {
  import opened Strings
  import opened Paths
  import opened Search

  /** Removing one `_`, `-` or space anywhere in a name does not change what it normalises to. */
  lemma SeparatorIgnored(a: string, c: char, b: string)
    requires IsSeparator(c)
    ensures Normalise(a + [c] + b) == Normalise(a + b)
  {
    LowerAppend(a + [c], b);
    LowerAppend(a, [c]);
    LowerAppend(a, b);
    DropSeparatorsAppend(Lower(a) + Lower([c]), Lower(b));
    DropSeparatorsAppend(Lower(a), Lower([c]));
    DropSeparatorsAppend(Lower(a), Lower(b));
    assert Lower([c]) == [c];
    assert DropSeparators([c]) == [] by {
      assert [c][1..] == [];
    }
  }

  /** Upper-case letters in a query or a name make no difference. */
  lemma CaseIgnored(s: string)
    ensures Normalise(Lower(s)) == Normalise(s)
  {
    LowerIdempotent(s);
  }

  lemma NormaliseMain()
    ensures Normalise("main") == "main" && Normalise("Main") == "main"
  {
  }

  lemma NormaliseUpper()
    ensures Normalise("MAINC") == "mainc"
  {
  }

  lemma NormaliseUnderscore()
    ensures Normalise("Main_C") == "mainc"
  {
  }

  lemma NormaliseHyphen()
    ensures Normalise("main-c") == "mainc"
  {
  }

  /** `main.c` and `main.py` share the base `main` and differ in extension. */
  lemma ExtensionsOfMain()
    ensures SplitExt("main.c") == ("main", ".c")
    ensures SplitExt("main.py") == ("main", ".py")
  {
    SplitExtOfName("main", "c");
    assert "main" + "." + "c" == "main.c";
    SplitExtOfName("main", "py");
    assert "main" + "." + "py" == "main.py";
  }

  /** A query with an extension never matches a name with another one. */
  lemma ExtensionsDiffer(query: string, name: string)
    requires SplitExt(query).1 == ".c" && SplitExt(name).1 == ".py"
    ensures !Matches(query, name)
  {
    assert ".c" != ".py" by {
      assert |".c"| == 2;
    }
  }

  /** A query without an extension accepts any: `Main` finds `main.c`. */
  lemma QueryWithoutExtension()
    ensures Matches("Main", "main.c")
  {
    ExtensionsOfMain();
    SplitExtNoDot("Main");
    NormaliseMain();
    assert OccursAt("main", "main", 0);
  }

  /** A query with an extension demands the same one: `main.c` does not find `main.py`. */
  lemma QueryWithExtension()
    ensures !Matches("main.c", "main.py")
  {
    ExtensionsOfMain();
    ExtensionsDiffer("main.c", "main.py");
  }

  /**
   * Only the part before the extension is compared: `MAINC`, `Main_C` and
   * `main-c` have no extension, so their whole text `mainc` is looked for
   * in the base `main` of `main.c`, and is not found.
   */
  lemma QueryWithoutDot(query: string)
    requires query == "MAINC" || query == "Main_C" || query == "main-c"
    ensures !Matches(query, "main.c")
  {
    ExtensionsOfMain();
    SplitExtNoDot(query);
    NormaliseMain();
    NormaliseUpper();
    NormaliseUnderscore();
    NormaliseHyphen();
    LongerNotContained("main", "mainc");
  }
}
