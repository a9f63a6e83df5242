/**
 * The file system the tools act on, as a map from absolute path to node,
 * and the `os` and `shutil` operations they call, each stated by its
 * effect on that map: `os.path.dirname`, `os.makedirs(exist_ok=True)`,
 * `os.remove`, `shutil.rmtree`, `shutil.copy2`, `shutil.copytree` and
 * `shutil.move`.
 */
module Store {
  import opened Optional
  import opened Strings
  import opened Paths
  import Notebook
  import Pdf

  /** What the readers see in a file: plain text, or what a library parses out of it. */
  datatype Data =
    | Text(text: string)
    | NotebookData(cells: seq<Notebook.Cell>)
    | PdfData(pages: seq<string>, outline: seq<Pdf.Entry>)
    | DocxData(paragraphs: seq<string>)

  datatype Node = Dir | File(data: Data)

  type FileSystem = map<string, Node>

  // ---------------------------------------------------------------------
  // os.path.dirname

  predicate AllSlashes(s: string) {
    forall i :: 0 <= i < |s| ==> s[i] == '/'
  }

  /** `s.rstrip('/')` */
  function StripTrailingSlashes(s: string): (r: string)
    ensures |r| <= |s| && s[..|r|] == r
    ensures forall k :: |r| <= k < |s| ==> s[k] == '/'
    ensures s != [] && s[|s| - 1] == '/' ==> |r| < |s|
  {
    if s != [] && s[|s| - 1] == '/' then StripTrailingSlashes(s[..|s| - 1]) else s
  }

  /** `os.path.dirname(p)`: the head before the last `/`, without its trailing slashes. */
  function Dirname(p: string): (r: string)
    ensures |r| <= |p|
    ensures p != "" && !AllSlashes(p) ==> |r| < |p|
  {
    var head := p[..RFind(p, '/') + 1];
    if head != "" && !AllSlashes(head) then StripTrailingSlashes(head) else head
  }

  /** The parent of a path that passes the prefix check passes it too, unless it is `/`. */
  lemma DirnameInSandbox(p: string)
    requires InSandbox(p)
    ensures InSandbox(Dirname(p)) || AllSlashes(Dirname(p))
  {
    var i := RFind(p, '/');
    var head := p[..i + 1];
    assert p[0] == '/' && i >= 0;
    if i >= 9 {
      assert head[8] == p[8] == 's';
      assert !AllSlashes(head);
      var r := StripTrailingSlashes(head);
      assert |r| > 8;
      assert r[..9] == head[..9] == p[..9];
    } else {
      assert forall k :: 1 <= k < 9 ==> p[k] == Root[k];
      assert i == 0;
      assert head == "/";
    }
  }

  // ---------------------------------------------------------------------
  // os.makedirs

  /**
   * `os.makedirs(d, exist_ok=True)`: `d` and every missing ancestor become
   * directories; what exists is kept as it is.
   */
  function MakeDirs(fs: FileSystem, d: string): (r: FileSystem)
    ensures forall q :: q in fs ==> q in r && r[q] == fs[q]
    ensures forall q :: q in r && q !in fs ==> r[q] == Dir && |q| <= |d|
    ensures d != "" && !AllSlashes(d) ==> d in r
    decreases |d|
  {
    if d == "" || AllSlashes(d) || d in fs then fs
    else MakeDirs(fs, Dirname(d))[d := Dir]
  }

  /** Every directory `makedirs` adds below a sandboxed path passes the prefix check. */
  lemma {:induction false} MakeDirsInSandbox(fs: FileSystem, d: string)
    requires InSandbox(d) || AllSlashes(d)
    ensures forall q :: q in MakeDirs(fs, d) && q !in fs ==> InSandbox(q)
    decreases |d|
  {
    if !(d == "" || AllSlashes(d) || d in fs) {
      DirnameInSandbox(d);
      MakeDirsInSandbox(fs, Dirname(d));
    }
  }

  /** `os.makedirs(os.path.dirname(p), exist_ok=True)`, then `open(p, 'w')`: `p` holds `node`. */
  function Put(fs: FileSystem, p: string, node: Node): (r: FileSystem)
    ensures p in r && r[p] == node
    ensures forall q :: q in fs && q != p ==> q in r && r[q] == fs[q]
  {
    MakeDirs(fs, Dirname(p))[p := node]
  }

  // ---------------------------------------------------------------------
  // Subtrees

  /** `q` is `p` itself or lies below it. */
  predicate Under(p: string, q: string) {
    q == p || StartsWith(q, p + "/")
  }

  lemma UnderInSandbox(p: string, q: string)
    requires InSandbox(p) && Under(p, q)
    ensures InSandbox(q)
  {
    if q != p {
      assert q[..|p|] == (p + "/")[..|p|] == p;
    }
  }

  /** `shutil.rmtree(p)`: `p` and everything below it are gone. */
  function RemoveTree(fs: FileSystem, p: string): (r: FileSystem)
    ensures forall q :: q in r <==> q in fs && !Under(p, q)
    ensures forall q :: q in r ==> r[q] == fs[q]
  {
    map q | q in fs && !Under(p, q) :: fs[q]
  }

  /** The path `q` below `src` takes when `src` is moved or copied to `dst`. */
  function Rebase(src: string, dst: string, q: string): string
    requires Under(src, q)
  {
    dst + q[|src|..]
  }

  lemma RebaseInjective(src: string, dst: string, q1: string, q2: string)
    requires Under(src, q1) && Under(src, q2)
    requires Rebase(src, dst, q1) == Rebase(src, dst, q2)
    ensures q1 == q2
  {
    var t1, t2 := q1[|src|..], q2[|src|..];
    assert (dst + t1)[|dst|..] == t1 && (dst + t2)[|dst|..] == t2;
    assert q1 == q1[..|src|] + t1 && q2 == q2[..|src|] + t2;
  }

  lemma RebaseSelf(src: string, dst: string)
    ensures Under(src, src) && Rebase(src, dst, src) == dst
  {
    assert src[|src|..] == "";
    assert dst + "" == dst;
  }

  /** Distinct paths below `src` are re-rooted to distinct paths. */
  lemma RebaseDistinct(fs: FileSystem, src: string, dst: string)
    ensures forall q1, q2 :: (q1 in fs && Under(src, q1) && q2 in fs && Under(src, q2) && q1 != q2)
                          ==> Rebase(src, dst, q1) != Rebase(src, dst, q2)
  {
    forall q1, q2 | q1 in fs && Under(src, q1) && q2 in fs && Under(src, q2) && q1 != q2
      ensures Rebase(src, dst, q1) != Rebase(src, dst, q2)
    {
      if Rebase(src, dst, q1) == Rebase(src, dst, q2) {
        RebaseInjective(src, dst, q1, q2);
      }
    }
  }

  /** Everything at or below `src`, re-rooted at `dst`. */
  function Relocated(fs: FileSystem, src: string, dst: string): FileSystem {
    RebaseDistinct(fs, src, dst);
    map q | q in fs && Under(src, q) :: Rebase(src, dst, q) := fs[q]
  }

  /** The relocated tree lies at or below `dst`. */
  lemma RelocatedUnder(fs: FileSystem, src: string, dst: string)
    ensures forall k :: k in Relocated(fs, src, dst) ==> Under(dst, k)
  {
    forall k | k in Relocated(fs, src, dst) ensures Under(dst, k) {
      var q :| q in fs && Under(src, q) && Rebase(src, dst, q) == k;
      var t := q[|src|..];
      assert t == "" || t[0] == '/';
      if t != "" {
        assert k[..|dst| + 1] == dst + "/";
      }
    }
  }

  /** A relocated path holds what its origin held. */
  lemma RelocatedAt(fs: FileSystem, src: string, dst: string, q: string)
    requires q in fs && Under(src, q)
    ensures Rebase(src, dst, q) in Relocated(fs, src, dst)
    ensures Relocated(fs, src, dst)[Rebase(src, dst, q)] == fs[q]
  {
    var r := Relocated(fs, src, dst);
    var k := Rebase(src, dst, q);
    forall q2 | q2 in fs && Under(src, q2) && Rebase(src, dst, q2) == k ensures q2 == q {
      RebaseInjective(src, dst, q, q2);
    }
  }

  /**
   * Where `copy2` and `move` put `src`: inside `dst` when `dst` is an
   * existing directory, at `dst` otherwise.
   */
  function Target(fs: FileSystem, src: string, dst: string): string {
    if dst in fs && fs[dst].Dir? then dst + "/" + Basename(src) else dst
  }

  /** `shutil.copy2(src, dst)` for a file `src`. */
  function CopyFile(fs: FileSystem, src: string, dst: string): FileSystem
    requires src in fs
  {
    fs[Target(fs, src, dst) := fs[src]]
  }

  /** `shutil.copytree(src, dst, dirs_exist_ok=True)`: `src`'s tree merged into `dst`. */
  function CopyTree(fs: FileSystem, src: string, dst: string): FileSystem {
    fs + Relocated(fs, src, dst)
  }

  /** Some file lies at or below `p`. */
  predicate HoldsFile(fs: FileSystem, p: string) {
    exists q :: q in fs && Under(p, q) && fs[q].File?
  }

  /** The text of `shutil.SameFileError` for `p` copied onto itself. */
  function SameFile(p: string): string {
    "'" + p + "' and '" + p + "' are the same file"
  }

  /**
   * The error a copy onto itself raises: `copy2` refuses a file whose
   * target is the file itself; `copytree(d, d, dirs_exist_ok=True)` walks
   * the tree and fails on the files it would copy onto themselves, so it
   * raises exactly when the tree holds a file.
   */
  function CopyRefusal(fs: FileSystem, src: string, dst: string): Option<string>
    requires src in fs
  {
    if fs[src].Dir? then
      if dst == src && HoldsFile(fs, src) then Some(SameFile(src)) else None
    else if Target(fs, src, dst) == src then Some(SameFile(src))
    else None
  }

  /** A tree copied onto itself is the tree itself: the merge adds and changes nothing. */
  lemma CopyTreeOntoItself(fs: FileSystem, d: string)
    ensures CopyTree(fs, d, d) == fs
  {
    var r := Relocated(fs, d, d);
    forall k | k in r ensures k in fs && r[k] == fs[k] {
      var q :| q in fs && Under(d, q) && Rebase(d, d, q) == k;
      RebaseIdentity(d, q);
      RelocatedAt(fs, d, d, q);
    }
    assert fs + r == fs;
  }

  lemma RebaseIdentity(d: string, q: string)
    requires Under(d, q)
    ensures Rebase(d, d, q) == q
  {
    if q != d {
      assert q[..|d|] == (d + "/")[..|d|] == d;
    }
    assert q == q[..|d|] + q[|d|..];
  }

  /**
   * `shutil.move` on a directory `dst` that is `src` itself takes its
   * same-file branch: a rename onto itself.
   */
  predicate MovesOntoItself(fs: FileSystem, src: string, dst: string) {
    dst == src && dst in fs && fs[dst].Dir?
  }

  /**
   * The errors `shutil.move` raises on its own account, before anything
   * moves: an existing directory `dst` that already holds an entry named
   * like `src`, and a directory whose rename into its own subtree fails.
   */
  function MoveRefusal(fs: FileSystem, src: string, dst: string): Option<string> {
    if MovesOntoItself(fs, src, dst) then None
    else if dst in fs && fs[dst].Dir? && Target(fs, src, dst) in fs then
      Some("Destination path '" + Target(fs, src, dst) + "' already exists")
    else if src in fs && fs[src].Dir? && StartsWith(dst, src + "/") then
      Some("Cannot move a directory '" + src + "' into itself '" + dst + "'.")
    else None
  }

  /**
   * `shutil.move(src, dst)` once it has not refused: `src`'s tree leaves
   * its place and appears at the target; a directory renamed onto itself
   * stays as it is.
   */
  function Move(fs: FileSystem, src: string, dst: string): FileSystem {
    if MovesOntoItself(fs, src, dst) then fs
    else RemoveTree(fs, src) + Relocated(fs, src, Target(fs, src, dst))
  }

  /** Moving a directory onto its own path is accepted and changes nothing. */
  lemma MoveOntoItself(fs: FileSystem, d: string)
    requires d in fs && fs[d].Dir?
    ensures MoveRefusal(fs, d, d) == None
    ensures Move(fs, d, d) == fs
  {
  }

  /** Moving a directory anywhere into its own subtree is refused. */
  lemma MoveIntoOwnSubtree(fs: FileSystem, src: string, dst: string)
    requires src in fs && fs[src].Dir? && StartsWith(dst, src + "/")
    ensures MoveRefusal(fs, src, dst).Some?
  {
  }

  /**
   * A move to a destination other than `src` takes `src` away and puts
   * what it held at the target, provided `src` is not the target or below it.
   */
  lemma MoveRelocates(fs: FileSystem, src: string, dst: string)
    requires src in fs && dst != src && !Under(Target(fs, src, dst), src)
    ensures src !in Move(fs, src, dst)
    ensures Target(fs, src, dst) in Move(fs, src, dst)
    ensures Move(fs, src, dst)[Target(fs, src, dst)] == fs[src]
  {
    var t := Target(fs, src, dst);
    var removed := RemoveTree(fs, src);
    var moved := Relocated(fs, src, t);
    RebaseSelf(src, t);
    RelocatedAt(fs, src, t, src);
    RelocatedUnder(fs, src, t);
    assert src !in removed;
    assert src !in moved;
    assert Move(fs, src, dst) == removed + moved;
  }

  lemma TargetInSandbox(fs: FileSystem, src: string, dst: string)
    requires InSandbox(dst)
    ensures InSandbox(Target(fs, src, dst))
  {
    var t := Target(fs, src, dst);
    if t != dst {
      assert t[..|dst|] == dst;
    }
  }

  // ---------------------------------------------------------------------
  // Confinement

  /** Nothing that fails the prefix check was added, removed or changed. */
  predicate SameOutside(fs: FileSystem, fs': FileSystem) {
    (forall q :: q in fs && !InSandbox(q) ==> q in fs' && fs'[q] == fs[q])
    && (forall q :: q in fs' && !InSandbox(q) ==> q in fs)
  }

  lemma SameOutsideTrans(a: FileSystem, b: FileSystem, c: FileSystem)
    requires SameOutside(a, b) && SameOutside(b, c)
    ensures SameOutside(a, c)
  {
  }

  lemma MakeDirsConfined(fs: FileSystem, d: string)
    requires InSandbox(d) || AllSlashes(d)
    ensures SameOutside(fs, MakeDirs(fs, d))
  {
    MakeDirsInSandbox(fs, d);
  }

  lemma PutConfined(fs: FileSystem, p: string, node: Node)
    requires InSandbox(p)
    ensures SameOutside(fs, Put(fs, p, node))
  {
    DirnameInSandbox(p);
    MakeDirsConfined(fs, Dirname(p));
  }

  lemma RemoveTreeConfined(fs: FileSystem, p: string)
    requires InSandbox(p)
    ensures SameOutside(fs, RemoveTree(fs, p))
  {
    forall q | q in fs && !InSandbox(q) ensures !Under(p, q) {
      if Under(p, q) {
        UnderInSandbox(p, q);
      }
    }
  }

  lemma RelocatedConfined(fs: FileSystem, src: string, dst: string)
    requires InSandbox(dst)
    ensures forall k :: k in Relocated(fs, src, dst) ==> InSandbox(k)
  {
    RelocatedUnder(fs, src, dst);
    forall k | k in Relocated(fs, src, dst) ensures InSandbox(k) {
      UnderInSandbox(dst, k);
    }
  }

  lemma CopyFileConfined(fs: FileSystem, src: string, dst: string)
    requires src in fs && InSandbox(dst)
    ensures SameOutside(fs, CopyFile(fs, src, dst))
  {
    TargetInSandbox(fs, src, dst);
  }

  lemma CopyTreeConfined(fs: FileSystem, src: string, dst: string)
    requires InSandbox(dst)
    ensures SameOutside(fs, CopyTree(fs, src, dst))
  {
    RelocatedConfined(fs, src, dst);
  }

  lemma MoveConfined(fs: FileSystem, src: string, dst: string)
    requires InSandbox(src) && InSandbox(dst)
    ensures SameOutside(fs, Move(fs, src, dst))
  {
    RemoveTreeConfined(fs, src);
    TargetInSandbox(fs, src, dst);
    RelocatedConfined(fs, src, Target(fs, src, dst));
  }
}
