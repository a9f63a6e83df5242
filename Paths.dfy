/**
 * Path handling of the file tools: POSIX `os.path.join`, `os.path.normpath`,
 * `os.path.splitext` and `os.path.basename`, the sandbox resolver built from
 * them, and the string-prefix containment check every tool applies.
 */
module Paths {
  import opened Strings

  /** The sandbox root every relative path is resolved against. */
  const Root: string := "/my_files"

  // ---------------------------------------------------------------------
  // os.path.join and os.path.normpath (POSIX)

  /** `os.path.join(base, rel)`: an absolute `rel` replaces `base`. */
  function JoinPath(base: string, rel: string): string {
    if StartsWith(rel, "/") then rel
    else if base == "" || base[|base| - 1] == '/' then base + rel
    else base + "/" + rel
  }

  /**
   * How many leading slashes `normpath` keeps: POSIX gives exactly two a
   * meaning of their own, three or more collapse to one.
   */
  function InitialSlashes(p: string): (k: nat)
    ensures k <= 2 && k <= |p|
    ensures forall i :: 0 <= i < k ==> p[i] == '/'
  {
    if !StartsWith(p, "/") then 0
    else if StartsWith(p, "//") && !StartsWith(p, "///") then 2
    else 1
  }

  function Slashes(k: nat): string
    requires k <= 2
  {
    if k == 0 then "" else if k == 1 then "/" else "//"
  }

  /** A component a normalised path may hold: not empty, `.` or `..`. */
  predicate Proper(c: string) {
    c != "" && c != "." && c != ".." && '/' !in c
  }

  predicate AllProper(cs: seq<string>) {
    forall i :: 0 <= i < |cs| ==> Proper(cs[i])
  }

  /** One iteration of `normpath`'s component loop. */
  function Step(acc: seq<string>, c: string, absolute: bool): seq<string> {
    if c == "" || c == "." then acc
    else if c != ".." || (!absolute && acc == []) || (acc != [] && acc[|acc| - 1] == "..") then acc + [c]
    else if acc != [] then acc[..|acc| - 1]
    else acc
  }

  function Collapse(acc: seq<string>, comps: seq<string>, absolute: bool): seq<string>
    decreases |comps|
  {
    if comps == [] then acc else Collapse(Step(acc, comps[0], absolute), comps[1..], absolute)
  }

  /** `os.path.normpath(p)` */
  function NormPath(p: string): string {
    if p == "" then "."
    else
      var k := InitialSlashes(p);
      var out := Slashes(k) + JoinWith(Collapse([], SplitOn(p, '/'), k > 0), "/");
      if out == "" then "." else out
  }

  /** `_get_absolute_path`: drop one leading `/`, join onto the root, normalise. */
  function Resolve(rel: string): string {
    var r := if StartsWith(rel, "/") then rel[1..] else rel;
    NormPath(JoinPath(Root, r))
  }

  /**
   * A normalised absolute path: one leading slash (or POSIX's two), then
   * components none of which is empty, `.` or `..`.
   */
  predicate IsNormalAbsolute(r: string) {
    var k := InitialSlashes(r);
    (k == 1 || k == 2) && (r[k..] == "" || AllProper(SplitOn(r[k..], '/')))
  }

  // ---------------------------------------------------------------------
  // Containment

  /** The check every tool runs: `absolute_path.startswith('/my_files')`. */
  predicate InSandbox(p: string) {
    StartsWith(p, Root)
  }

  /** The containment check as evidently intended: the root or below it. */
  predicate InSandboxStrict(p: string) {
    p == Root || StartsWith(p, Root + "/")
  }

  // ---------------------------------------------------------------------
  // os.path.splitext and os.path.basename

  /** `s.rfind(c)`: the last index holding `c`, or -1. */
  function RFind(s: string, c: char): (r: int)
    ensures -1 <= r < |s|
    ensures r >= 0 ==> s[r] == c
    ensures forall j :: r < j < |s| ==> s[j] != c
  {
    if s == [] then -1
    else if s[|s| - 1] == c then |s| - 1
    else RFind(s[..|s| - 1], c)
  }

  /**
   * Where `os.path.splitext` cuts `p`: at the last dot of the last component,
   * unless everything before that dot in the component is dots; at the end
   * of `p` when there is no such dot.
   */
  function ExtStart(p: string): (i: int)
    ensures 0 <= i <= |p|
    ensures i < |p| ==> p[i] == '.'
    ensures forall j :: i < j < |p| ==> p[j] != '.' && p[j] != '/'
  {
    var sep := RFind(p, '/');
    var dot := RFind(p, '.');
    if dot > sep && !OnlyDots(p[sep + 1..dot]) then dot else |p|
  }

  /** `os.path.splitext(p)` */
  function SplitExt(p: string): (r: (string, string))
    ensures r.0 + r.1 == p
    ensures r.1 == "" || r.1[0] == '.'
  {
    var i := ExtStart(p);
    (p[..i], p[i..])
  }

  /** Every character of `s` is a dot. */
  predicate OnlyDots(s: string) {
    s == [] || (s[0] == '.' && OnlyDots(s[1..]))
  }

  function Extension(p: string): string {
    SplitExt(p).1
  }

  /** A name with no dot and no slash has no extension. */
  lemma SplitExtNoDot(s: string)
    requires '.' !in s && '/' !in s
    ensures SplitExt(s) == (s, "")
  {
    assert RFind(s, '.') == -1 && RFind(s, '/') == -1;
    assert ExtStart(s) == |s|;
    assert s[..|s|] == s && s[|s|..] == "";
  }

  /**
   * A file name `base.ext`, where `base` does not start with a dot and
   * `ext` holds no dot, splits at that last dot.
   */
  lemma SplitExtOfName(base: string, ext: string)
    requires base != "" && base[0] != '.' && '/' !in base
    requires '.' !in ext && '/' !in ext
    ensures SplitExt(base + "." + ext) == (base, "." + ext)
  {
    var p := base + ("." + ext);
    assert base + "." + ext == p;
    var i := |base|;
    RFindLast(base, "." + ext, '.');
    assert '/' !in "." + ext;
    RFindAbsent(p, '/');
    assert p[0..i] == base && !OnlyDots(base);
    assert ExtStart(p) == i;
    assert p[..i] == base && p[i..] == "." + ext;
  }

  /** The last `c` of `a + [c] + rest`, when `rest` holds none, is at `|a|`. */
  lemma RFindLast(a: string, tail: string, c: char)
    requires tail != [] && tail[0] == c && c !in tail[1..]
    ensures RFind(a + tail, c) == |a|
  {
    var p := a + tail;
    assert p[|a|] == c;
  }

  /** A character that does not occur is found nowhere. */
  lemma RFindAbsent(s: string, c: char)
    requires c !in s
    ensures RFind(s, c) == -1
  {
  }

  /** `os.path.basename(p)`: everything after the last `/`. */
  function Basename(p: string): (b: string)
    ensures '/' !in b
    ensures |b| <= |p| && p[|p| - |b|..] == b
  {
    var i := RFind(p, '/') + 1;
    assert forall j :: 0 <= j < |p[i..]| ==> p[i..][j] == p[i + j];
    p[i..]
  }

  /** `os.path.basename(p).startswith('.')` */
  predicate IsHidden(p: string) {
    StartsWith(Basename(p), ".")
  }

  // ---------------------------------------------------------------------
  // Lemmas: normpath yields normalised paths, and is the identity on them

  lemma {:induction false} CollapseProper(acc: seq<string>, comps: seq<string>)
    requires AllProper(acc)
    requires forall i :: 0 <= i < |comps| ==> '/' !in comps[i]
    ensures AllProper(Collapse(acc, comps, true))
    decreases |comps|
  {
    if comps != [] {
      CollapseProper(Step(acc, comps[0], true), comps[1..]);
    }
  }

  lemma {:induction false} CollapseKeepsProper(acc: seq<string>, comps: seq<string>)
    requires AllProper(acc) && AllProper(comps)
    ensures Collapse(acc, comps, true) == acc + comps
    decreases |comps|
  {
    if comps != [] {
      assert Step(acc, comps[0], true) == acc + [comps[0]];
      CollapseKeepsProper(acc + [comps[0]], comps[1..]);
      assert acc + [comps[0]] + comps[1..] == acc + comps;
    }
  }

  lemma CollapseCons(acc: seq<string>, c: string, rest: seq<string>)
    ensures Collapse(acc, [c] + rest, true) == Collapse(Step(acc, c, true), rest, true)
  {
    assert ([c] + rest)[0] == c && ([c] + rest)[1..] == rest;
  }

  lemma JoinCons(a: string, rest: seq<string>, sep: string)
    requires rest != []
    ensures JoinWith([a] + rest, sep) == a + sep + JoinWith(rest, sep)
  {
    assert ([a] + rest)[0] == a && ([a] + rest)[1..] == rest;
  }

  /** A join is its first part followed by the separator and the join of the rest, if any. */
  lemma JoinHead(parts: seq<string>, sep: string)
    requires parts != []
    ensures JoinWith(parts, sep) == parts[0] + (if |parts| == 1 then "" else sep + JoinWith(parts[1..], sep))
  {
    if |parts| == 1 {
      assert parts[0] + "" == parts[0];
    } else {
      assert parts[0] + sep + JoinWith(parts[1..], sep) == parts[0] + (sep + JoinWith(parts[1..], sep));
    }
  }

  lemma {:induction false} JoinFirst(a: string, b: string, rest: seq<string>, sep: string)
    ensures JoinWith([a + b] + rest, sep) == a + JoinWith([b] + rest, sep)
  {
    if rest != [] {
      assert ([a + b] + rest)[1..] == rest && ([b] + rest)[1..] == rest;
    }
  }

  /** Splitting on `c` and joining on `c` gives the string back. */
  lemma {:induction false} JoinSplit(s: string, c: char)
    ensures JoinWith(SplitOn(s, c), [c]) == s
  {
    if s != [] {
      var t := SplitOn(s[1..], c);
      assert JoinWith(t, [c]) == s[1..] by {
        JoinSplit(s[1..], c);
      }
      if s[0] == c {
        assert SplitOn(s, c) == [""] + t;
        JoinCons("", t, [c]);
        assert "" + [c] + s[1..] == s;
      } else {
        assert SplitOn(s, c) == [[s[0]] + t[0]] + t[1..];
        JoinFirst([s[0]], t[0], t[1..], [c]);
        assert [t[0]] + t[1..] == t;
        assert [s[0]] + s[1..] == s;
      }
    }
  }

  /** The joined components of a path start with no slash. */
  lemma JoinProperHead(cs: seq<string>)
    requires cs != [] && AllProper(cs)
    ensures JoinWith(cs, "/") != "" && JoinWith(cs, "/")[0] == cs[0][0]
  {
    assert Proper(cs[0]);
    if |cs| > 1 {
      assert JoinWith(cs, "/") == cs[0] + ("/" + JoinWith(cs[1..], "/"));
    }
  }

  /** Slashes followed by proper components form a normalised path. */
  lemma NormalShape(k: nat, cs: seq<string>)
    requires k == 1 || k == 2
    requires AllProper(cs)
    ensures InitialSlashes(Slashes(k) + JoinWith(cs, "/")) == k
    ensures IsNormalAbsolute(Slashes(k) + JoinWith(cs, "/"))
  {
    var j := JoinWith(cs, "/");
    var r := Slashes(k) + j;
    assert r[k..] == j;
    assert InitialSlashes(r) == k by {
      assert r[..1] == "/";
      if k == 2 {
        assert r[..2] == "//";
      }
      if cs != [] {
        JoinProperHead(cs);
        assert j[0] != '/' by {
          assert Proper(cs[0]) && cs[0][0] in cs[0];
        }
        assert r[k] == j[0];
        assert !StartsWith(r, Slashes(k) + "/") by {
          assert (Slashes(k) + "/")[k] == '/';
        }
      } else {
        assert |r| == k;
      }
    }
    if cs != [] {
      SplitOnJoin(cs, '/');
    }
  }

  /** `normpath` of an absolute path is a normalised absolute path. */
  lemma NormPathNormal(p: string)
    requires StartsWith(p, "/")
    ensures IsNormalAbsolute(NormPath(p))
  {
    var k := InitialSlashes(p);
    var cs := Collapse([], SplitOn(p, '/'), true);
    CollapseProper([], SplitOn(p, '/'));
    NormalShape(k, cs);
  }

  /** Splitting a path that starts with `k` slashes yields `k` empty pieces first. */
  lemma SplitSlashes(k: nat, body: string)
    requires k <= 2
    ensures SplitOn(Slashes(k) + body, '/') == seq(k, _ => "") + SplitOn(body, '/')
  {
    if k == 1 {
      assert ("/" + body)[0] == '/' && ("/" + body)[1..] == body;
      assert seq(1, _ => "") == [""];
    } else if k == 2 {
      assert ("//" + body)[0] == '/' && ("//" + body)[1..] == "/" + body;
      assert ("/" + body)[0] == '/' && ("/" + body)[1..] == body;
      assert seq(2, _ => "") == ["", ""];
      assert SplitOn("//" + body, '/') == [""] + ([""] + SplitOn(body, '/'));
    } else {
      assert seq(0, _ => "") == [];
      assert Slashes(k) + body == body;
    }
  }

  /** `normpath` leaves a normalised absolute path unchanged. */
  lemma NormPathOfNormal(r: string)
    requires IsNormalAbsolute(r)
    ensures NormPath(r) == r
  {
    var k := InitialSlashes(r);
    var body := r[k..];
    assert r == Slashes(k) + body;
    SplitSlashes(k, body);
    var empties: seq<string> := seq(k, _ => "");
    var cs := SplitOn(body, '/');
    if body == "" {
      assert cs == [""];
      assert Collapse([], empties + cs, true) == [] by {
        assert Collapse([], [""], true) == [] by { CollapseCons([], "", []); }
        CollapseCons([], "", [""]);
        assert Collapse([], ["", ""], true) == [];
        CollapseCons([], "", ["", ""]);
        if k == 1 { assert empties + cs == ["", ""]; } else { assert empties + cs == ["", "", ""]; }
      }
    } else {
      assert Collapse([], empties + cs, true) == Collapse([], cs, true) by {
        if k == 1 {
          assert (empties + cs)[1..] == cs;
        } else {
          assert (empties + cs)[1..][1..] == cs;
        }
      }
      CollapseKeepsProper([], cs);
      assert [] + cs == cs;
      JoinSplit(body, '/');
    }
  }

  /** Normalising twice is normalising once. */
  lemma NormPathIdempotent(p: string)
    requires StartsWith(p, "/")
    ensures NormPath(NormPath(p)) == NormPath(p)
  {
    NormPathNormal(p);
    NormPathOfNormal(NormPath(p));
  }

  // ---------------------------------------------------------------------
  // Lemmas: what the resolver returns

  /** Every resolved path is absolute and normalised. */
  lemma ResolveNormal(rel: string)
    ensures StartsWith(Resolve(rel), "/")
    ensures IsNormalAbsolute(Resolve(rel))
  {
    var r := if StartsWith(rel, "/") then rel[1..] else rel;
    var joined := JoinPath(Root, r);
    assert StartsWith(joined, "/") by {
      if !StartsWith(r, "/") {
        assert joined == Root + "/" + r;
        assert joined[..1] == "/";
      }
    }
    NormPathNormal(joined);
    assert InitialSlashes(Resolve(rel)) >= 1;
  }

  /** The root is one slash and the name `my_files`, a proper component. */
  lemma RootParts()
    ensures Root == "/" + "my_files" && Proper("my_files")
  {
  }

  /** A path without a leading slash is joined onto the root with one slash between. */
  lemma ResolveJoined(rel: string)
    requires !StartsWith(rel, "/")
    ensures Resolve(rel) == NormPath("/" + ("my_files" + "/" + rel))
  {
    assert JoinPath(Root, rel) == Root + "/" + rel by {
      assert Root[|Root| - 1] == 's';
    }
    RootParts();
    Regroup4("/", "my_files", "/", rel);
  }

  /** Proper components joined onto the root are left exactly as they are. */
  lemma ResolvePlain(cs: seq<string>)
    requires cs != [] && AllProper(cs)
    ensures Resolve(JoinWith(cs, "/")) == Root + "/" + JoinWith(cs, "/")
  {
    var rel := JoinWith(cs, "/");
    var full := ["my_files"] + cs;
    assert !StartsWith(rel, "/") by {
      JoinProperHead(cs);
      assert cs[0][0] in cs[0];
    }
    ResolveJoined(rel);
    var p := "/" + JoinWith(full, "/");
    assert JoinWith(full, "/") == "my_files" + "/" + rel by {
      JoinCons("my_files", cs, "/");
    }
    RootParts();
    assert IsNormalAbsolute(p) by {
      assert AllProper(full);
      NormalShape(1, full);
    }
    NormPathOfNormal(p);
    Regroup4("/", "my_files", "/", rel);
  }

  /** Splitting a rooted path: an empty piece, then the components. */
  lemma SplitRooted(cs: seq<string>)
    requires cs != [] && forall i :: 0 <= i < |cs| ==> '/' !in cs[i]
    ensures SplitOn("/" + JoinWith(cs, "/"), '/') == [""] + cs
  {
    SplitSlashes(1, JoinWith(cs, "/"));
    SplitOnJoin(cs, '/');
  }

  /**
   * A leading `..` climbs out of the root: what follows it is resolved
   * against `/` instead.
   */
  lemma ParentOfRootEscapes(cs: seq<string>)
    requires cs != [] && AllProper(cs)
    ensures Resolve("../" + JoinWith(cs, "/")) == "/" + JoinWith(cs, "/")
  {
    var j := JoinWith(cs, "/");
    var rel := "../" + j;
    assert !StartsWith(rel, "/") by {
      assert rel[..1] == ".";
    }
    ResolveJoined(rel);
    assert rel == ".." + "/" + j by {
      assert "../" == ".." + "/";
    }
    JoinClimb(cs);
    NormPathClimb(cs);
  }

  lemma JoinClimb(cs: seq<string>)
    requires cs != []
    ensures JoinWith(["my_files", ".."] + cs, "/") == "my_files" + "/" + (".." + "/" + JoinWith(cs, "/"))
  {
    JoinCons("..", cs, "/");
    assert ["my_files", ".."] + cs == ["my_files"] + ([".."] + cs);
    JoinCons("my_files", [".."] + cs, "/");
  }

  lemma NormPathClimb(cs: seq<string>)
    requires cs != [] && AllProper(cs)
    ensures NormPath("/" + JoinWith(["my_files", ".."] + cs, "/")) == "/" + JoinWith(cs, "/")
  {
    var full := ["my_files", ".."] + cs;
    assert forall i :: 0 <= i < |full| ==> '/' !in full[i] by {
      forall i | 2 <= i < |full| ensures '/' !in full[i] {
        assert full[i] == cs[i - 2] && Proper(cs[i - 2]);
      }
    }
    SplitRooted(full);
    var p := "/" + JoinWith(full, "/");
    assert p[..1] == "/";
    assert InitialSlashes(p) == 1 by {
      assert p[1] == 'm';
    }
    assert [""] + full == [""] + (["my_files"] + ([".."] + cs));
    CollapseCons([], "", ["my_files"] + ([".."] + cs));
    CollapseCons([], "my_files", [".."] + cs);
    CollapseCons(["my_files"], "..", cs);
    CollapseKeepsProper([], cs);
    assert [] + cs == cs;
    assert Collapse([], SplitOn(p, '/'), true) == cs;
  }

  /**
   * Only one leading slash is removed: with a second one the joined path is
   * absolute and replaces the root altogether.
   */
  lemma ExtraSlashReplacesRoot(cs: seq<string>)
    requires cs != [] && AllProper(cs)
    ensures Resolve("//" + JoinWith(cs, "/")) == "/" + JoinWith(cs, "/")
  {
    var j := JoinWith(cs, "/");
    assert ("//" + j)[..1] == "/" && ("//" + j)[1..] == "/" + j;
    assert ("/" + j)[..1] == "/";
    NormalShape(1, cs);
    NormPathOfNormal("/" + j);
  }

  /**
   * The prefix check as written admits a sibling of the root whose name
   * begins with the root's name (`../my_files_other/notes.py`), which the
   * strict check turns away.
   */
  lemma SiblingPassesPrefixCheck(cs: seq<string>)
    requires cs != [] && AllProper(cs)
    requires StartsWith(cs[0], "my_files") && cs[0] != "my_files"
    ensures InSandbox(Resolve("../" + JoinWith(cs, "/")))
    ensures !InSandboxStrict(Resolve("../" + JoinWith(cs, "/")))
  {
    ParentOfRootEscapes(cs);
    RootParts();
    var j := JoinWith(cs, "/");
    var tail := if |cs| == 1 then "" else "/" + JoinWith(cs[1..], "/");
    JoinHead(cs, "/");
    assert Proper(cs[0]);
    SiblingOfRoot(Root, "my_files", cs[0], tail);
  }

  /**
   * A path whose first component extends the root's name without ending at
   * it starts with the root but is neither the root nor below it.
   */
  lemma SiblingOfRoot(root: string, name: string, first: string, tail: string)
    requires root == "/" + name
    requires StartsWith(first, name) && first != name && '/' !in first
    ensures StartsWith("/" + (first + tail), root)
    ensures "/" + (first + tail) != root
    ensures !StartsWith("/" + (first + tail), root + "/")
  {
    var x := first[|name|..];
    PrefixRest(first, name);
    assert x != "";
    assert x[0] != '/' by {
      assert x[0] == first[|name|];
    }
    var r := "/" + (first + tail);
    assert r == root + (x + tail) by {
      Regroup4("/", name, x, tail);
    }
    PrefixOfAppend(root, x + tail);
    if StartsWith(r, root + "/") {
      PrefixNext(r, root, '/');
      assert false;
    }
  }

  /**
   * The strict check confines a normalised path to the root's subtree: its
   * first component is the root's own name.
   */
  lemma StrictCheckConfines(r: string)
    requires IsNormalAbsolute(r) && InSandboxStrict(r)
    ensures InitialSlashes(r) == 1
    ensures SplitOn(r[1..], '/')[0] == "my_files"
  {
    RootParts();
    var name := "my_files";
    var rest := r[|Root|..];
    PrefixRest(r, Root);
    assert r[1..] == name + rest by {
      Regroup4("/", name, rest, "");
      assert r == "/" + (name + rest);
    }
    assert SplitOn(rest, '/')[0] == "" by {
      if rest != "" {
        PrefixNext(r, Root, '/');
        assert rest[0] == r[|Root|];
      }
    }
    SplitOnPlain(name, rest, '/');
    assert name + "" == name;
    assert r[1] == 'm' by {
      assert r[1..][0] == name[0];
    }
  }
}
