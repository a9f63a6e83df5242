/**
 * The single-slot clipboard of `AgenticGemini`: `_copy_file` and
 * `_cut_file` fill the slot, `_paste_file` consumes it. The slot is the
 * pair of class-level fields `_clipboard_src` and `_clipboard_op`; the file
 * system is the path map of `Store`, handed to each tool and handed back.
 * Each tool's effect is first stated as a function of the slot and the file
 * system (`CopyStep`, `CutStep`, `PasteStep`); the methods of the class
 * `AgenticGemini` update the two fields and are proved to follow them.
 */
module Clipboard {
  import Strings
  import opened Paths
  import opened Optional
  import opened Store
  import opened Replies
  import Tools

  /** The operation tag, `'COPY'` or `'CUT'`. */
  datatype Op = Copy | Cut

  /** The two fields as one value: the source path and the operation tag. */
  datatype Slot = Slot(src: Option<string>, op: Option<Op>)

  const Cleared: Slot := Slot(None, None)

  /** `not _clipboard_src or not _clipboard_op`: an empty string counts as no source. */
  predicate IsEmpty(slot: Slot) {
    slot.src.None? || slot.src.value == "" || slot.op.None?
  }

  /** What the fields hold whenever a tool runs: a source that passed the prefix check. */
  predicate Sound(slot: Slot) {
    slot.src.Some? ==> InSandbox(slot.src.value)
  }

  /** A reply, the slot and the file system after a tool ran. */
  datatype Step = Step(reply: Reply, slot: Slot, fs: FileSystem)

  // ---------------------------------------------------------------------
  // _copy_file and _cut_file

  /**
   * The gates copy and cut share: traversal, hidden name, existence, then
   * the confirmation; once confirmed the slot holds the path and `op`.
   * `hidden` is the tool's own hidden-name error.
   */
  function Mark(slot: Slot, fs: FileSystem, abs: string, answer: string, op: Op, hidden: Failure): Step {
    if !InSandbox(abs) then Step(Refused(Traversal), slot, fs)
    else if IsHidden(abs) then Step(Refused(hidden), slot, fs)
    else if abs !in fs then Step(Refused(PathNotFound(abs)), slot, fs)
    else if answer != Tools.Confirmation then Step(Refused(Denied), slot, fs)
    else
      var done := if op == Copy then CopiedToClipboard(abs) else CutToClipboard(abs);
      Step(Done(done), Slot(Some(abs), Some(op)), fs)
  }

  /** `_copy_file` */
  function CopyStep(slot: Slot, fs: FileSystem, rel: string, answer: string): Step {
    Mark(slot, fs, Resolve(rel), answer, Copy, HiddenCopy)
  }

  /** `_cut_file` */
  function CutStep(slot: Slot, fs: FileSystem, rel: string, answer: string): Step {
    Mark(slot, fs, Resolve(rel), answer, Cut, HiddenCut)
  }

  // ---------------------------------------------------------------------
  // _paste_file

  /** The file system once the parent directories of the destination exist. */
  function Prepared(fs: FileSystem, dest: string): FileSystem {
    MakeDirs(fs, Dirname(dest))
  }

  /**
   * What a confirmed paste does to the file system: a copy merges the
   * source tree into the destination (`copytree`) or copies the file
   * (`copy2`); a cut moves it (`move`).
   */
  function Pasted(fs: FileSystem, src: string, op: Op, dest: string): FileSystem
    requires src in fs
  {
    var ready := Prepared(fs, dest);
    if op == Cut then Move(ready, src, dest)
    else if ready[src].Dir? then CopyTree(ready, src, dest)
    else Store.CopyFile(ready, src, dest)
  }

  /**
   * `_paste_file` on the destination `rel`. The empty-clipboard check comes
   * first, before the destination is resolved; a vanished source clears
   * the slot before the confirmation is asked for; `raised` is the text of
   * an exception the OS raises once the paste proceeds, before anything
   * changes. The errors `shutil.move`, `copy2` and `copytree` raise
   * themselves are not a parameter: they follow from the file system, and
   * come after `makedirs` has made the destination's parents.
   */
  function PasteStep(slot: Slot, fs: FileSystem, rel: string, answer: string, raised: Option<string>): Step {
    PasteAt(slot, fs, Resolve(rel), answer, raised)
  }

  function PasteAt(slot: Slot, fs: FileSystem, dest: string, answer: string, raised: Option<string>): Step {
    if IsEmpty(slot) then Step(Refused(ClipboardEmpty), slot, fs)
    else
      var src := slot.src.value;
      if !InSandbox(dest) then Step(Refused(Traversal), slot, fs)
      else if IsHidden(dest) then Step(Refused(HiddenPaste), slot, fs)
      else if src !in fs then Step(Refused(SourceGone), Cleared, fs)
      else if answer != Tools.Confirmation then Step(Refused(Denied), slot, fs)
      else if raised.Some? then Step(Refused(PasteFailed(raised.value)), slot, fs)
      else if slot.op.value == Copy then
        if CopyRefusal(Prepared(fs, dest), src, dest).Some? then
          Step(Refused(PasteFailed(CopyRefusal(Prepared(fs, dest), src, dest).value)), slot, Prepared(fs, dest))
        else Step(Done(PastedCopy(dest)), slot, Pasted(fs, src, Copy, dest))
      else if MoveRefusal(Prepared(fs, dest), src, dest).Some? then
        Step(Refused(PasteFailed(MoveRefusal(Prepared(fs, dest), src, dest).value)), slot, Prepared(fs, dest))
      else Step(Done(PastedMove(dest)), Cleared, Pasted(fs, src, Cut, dest))
  }

  // ---------------------------------------------------------------------
  // Lemmas: the gates and the slot

  /**
   * Copy and cut check traversal, then the hidden name, then existence,
   * all before the confirmation; a refusal leaves the slot and the file
   * system as they were.
   */
  lemma MarkGateOrder(slot: Slot, fs: FileSystem, abs: string, answer: string, op: Op, hidden: Failure)
    ensures !InSandbox(abs) ==> Mark(slot, fs, abs, answer, op, hidden) == Step(Refused(Traversal), slot, fs)
    ensures InSandbox(abs) && IsHidden(abs) ==> Mark(slot, fs, abs, answer, op, hidden) == Step(Refused(hidden), slot, fs)
    ensures InSandbox(abs) && !IsHidden(abs) && abs !in fs ==>
      Mark(slot, fs, abs, answer, op, hidden) == Step(Refused(PathNotFound(abs)), slot, fs)
    ensures InSandbox(abs) && !IsHidden(abs) && abs in fs && answer != Tools.Confirmation ==>
      Mark(slot, fs, abs, answer, op, hidden) == Step(Refused(Denied), slot, fs)
  {
  }

  /**
   * A confirmed copy or cut overwrites the slot whatever it held before:
   * the last one wins. The file system is never touched.
   */
  lemma LastWriterWins(slot: Slot, fs: FileSystem, abs: string, answer: string, op: Op, hidden: Failure)
    ensures Mark(slot, fs, abs, answer, op, hidden).fs == fs
    ensures Mark(slot, fs, abs, answer, op, hidden).reply.Done? <==>
      InSandbox(abs) && !IsHidden(abs) && abs in fs && answer == Tools.Confirmation
    ensures Mark(slot, fs, abs, answer, op, hidden).slot
         == if Mark(slot, fs, abs, answer, op, hidden).reply.Done? then Slot(Some(abs), Some(op)) else slot
  {
  }

  /**
   * Paste checks the slot first, then traversal and the hidden name of the
   * destination, then that the source still exists (clearing the slot when
   * it does not), all before the confirmation.
   */
  lemma PasteGateOrder(slot: Slot, fs: FileSystem, dest: string, answer: string, raised: Option<string>)
    ensures IsEmpty(slot) ==> PasteAt(slot, fs, dest, answer, raised) == Step(Refused(ClipboardEmpty), slot, fs)
    ensures !IsEmpty(slot) && !InSandbox(dest) ==>
      PasteAt(slot, fs, dest, answer, raised) == Step(Refused(Traversal), slot, fs)
    ensures !IsEmpty(slot) && InSandbox(dest) && IsHidden(dest) ==>
      PasteAt(slot, fs, dest, answer, raised) == Step(Refused(HiddenPaste), slot, fs)
    ensures !IsEmpty(slot) && InSandbox(dest) && !IsHidden(dest) && slot.src.value !in fs ==>
      PasteAt(slot, fs, dest, answer, raised) == Step(Refused(SourceGone), Cleared, fs)
  {
  }

  /**
   * Only the exact answer `YES` lets a tool act: with any other answer the
   * file system is unchanged, and so is the slot, except when paste found
   * the source gone before it asked.
   */
  lemma OnlyYesProceeds(slot: Slot, fs: FileSystem, abs: string, answer: string, op: Op, hidden: Failure, raised: Option<string>)
    requires answer != Tools.Confirmation
    ensures Mark(slot, fs, abs, answer, op, hidden).slot == slot
    ensures InSandbox(abs) && !IsHidden(abs) && abs in fs ==> Mark(slot, fs, abs, answer, op, hidden).reply == Refused(Denied)
    ensures PasteAt(slot, fs, abs, answer, raised).fs == fs
    ensures PasteAt(slot, fs, abs, answer, raised).slot == slot
         || PasteAt(slot, fs, abs, answer, raised).reply == Refused(SourceGone)
    ensures !PasteAt(slot, fs, abs, answer, raised).reply.Done?
    ensures !IsEmpty(slot) && InSandbox(abs) && !IsHidden(abs) && slot.src.value in fs ==>
      PasteAt(slot, fs, abs, answer, raised).reply == Refused(Denied)
  {
  }

  // ---------------------------------------------------------------------
  // Lemmas: what a paste does

  /** A sandboxed path is not empty. */
  lemma SandboxedNotEmpty(p: string)
    requires InSandbox(p)
    ensures p != "" && !AllSlashes(p)
  {
    assert p[1] == 'm';
  }

  /** A copy that lands on `dest` or inside it leaves `dest` existing, and removes nothing. */
  lemma CopyReachesDest(fs: FileSystem, src: string, dest: string)
    requires src in fs && InSandbox(dest)
    ensures dest in Pasted(fs, src, Copy, dest)
    ensures forall q :: q in fs ==> q in Pasted(fs, src, Copy, dest)
  {
    SandboxedNotEmpty(dest);
    var ready := Prepared(fs, dest);
    if ready[src].Dir? {
      RebaseSelf(src, dest);
      RelocatedAt(ready, src, dest, src);
    }
  }

  /**
   * Copy, then paste: the source and everything else that existed are
   * still there, the destination exists, and the slot still holds the
   * copy, so the same item can be pasted again.
   */
  lemma CopyThenPaste(slot: Slot, fs: FileSystem, src: string, dest: string)
    requires Mark(slot, fs, src, Tools.Confirmation, Copy, HiddenCopy).reply.Done?
    requires src in fs && InSandbox(dest) && !IsHidden(dest)
    requires CopyRefusal(Prepared(fs, dest), src, dest).None?
    ensures var copied := Mark(slot, fs, src, Tools.Confirmation, Copy, HiddenCopy);
      var pasted := PasteAt(copied.slot, copied.fs, dest, Tools.Confirmation, None);
      && pasted.reply == Done(PastedCopy(dest))
      && pasted.slot == Slot(Some(src), Some(Copy))
      && src in pasted.fs && dest in pasted.fs
      && forall q :: q in fs ==> q in pasted.fs
  {
    LastWriterWins(slot, fs, src, Tools.Confirmation, Copy, HiddenCopy);
    SandboxedNotEmpty(src);
    var full := Slot(Some(src), Some(Copy));
    assert !IsEmpty(full);
    assert PasteAt(full, fs, dest, Tools.Confirmation, None) == Step(Done(PastedCopy(dest)), full, Pasted(fs, src, Copy, dest));
    CopyReachesDest(fs, src, dest);
  }

  /**
   * Copy a file, then paste it where it would land on itself (its own path,
   * or the directory that holds it): `copy2` refuses, only the
   * destination's parents are made, and the slot still holds the copy.
   */
  lemma CopyFileOntoItself(slot: Slot, fs: FileSystem, src: string, dest: string)
    requires Mark(slot, fs, src, Tools.Confirmation, Copy, HiddenCopy).reply.Done?
    requires fs[src].File? && InSandbox(dest) && !IsHidden(dest)
    requires Landing(fs, src, dest) == src
    ensures var copied := Mark(slot, fs, src, Tools.Confirmation, Copy, HiddenCopy);
      var pasted := PasteAt(copied.slot, copied.fs, dest, Tools.Confirmation, None);
      && pasted.reply == Refused(PasteFailed(SameFile(src)))
      && pasted.slot == copied.slot
      && pasted.fs == Prepared(fs, dest)
  {
    LastWriterWins(slot, fs, src, Tools.Confirmation, Copy, HiddenCopy);
    SandboxedNotEmpty(src);
    var full := Slot(Some(src), Some(Copy));
    assert !IsEmpty(full);
    var ready := Prepared(fs, dest);
    assert CopyRefusal(ready, src, dest) == Some(SameFile(src));
    assert PasteAt(full, fs, dest, Tools.Confirmation, None)
        == Step(Refused(PasteFailed(SameFile(src))), full, ready);
  }

  /**
   * Copy a directory, then paste it onto its own path: `copytree` fails
   * when the tree holds a file, and otherwise succeeds without changing
   * anything beyond the destination's parents. The slot keeps the copy.
   */
  lemma CopyDirectoryOntoItself(slot: Slot, fs: FileSystem, d: string)
    requires Mark(slot, fs, d, Tools.Confirmation, Copy, HiddenCopy).reply.Done?
    requires fs[d].Dir?
    ensures var copied := Mark(slot, fs, d, Tools.Confirmation, Copy, HiddenCopy);
      var pasted := PasteAt(copied.slot, copied.fs, d, Tools.Confirmation, None);
      && pasted.reply == (if HoldsFile(fs, d) then Refused(PasteFailed(SameFile(d))) else Done(PastedCopy(d)))
      && pasted.slot == copied.slot
      && pasted.fs == Prepared(fs, d)
  {
    LastWriterWins(slot, fs, d, Tools.Confirmation, Copy, HiddenCopy);
    SandboxedNotEmpty(d);
    var full := Slot(Some(d), Some(Copy));
    assert !IsEmpty(full);
    var ready := Prepared(fs, d);
    assert HoldsFile(ready, d) == HoldsFile(fs, d) by {
      if HoldsFile(fs, d) {
        var q :| q in fs && Under(d, q) && fs[q].File?;
        assert q in ready && ready[q].File?;
      }
      if HoldsFile(ready, d) {
        var q :| q in ready && Under(d, q) && ready[q].File?;
        assert q in fs;
      }
    }
    CopyTreeOntoItself(ready, d);
    assert Pasted(fs, d, Copy, d) == ready;
  }

  /** Where a cut item lands: the destination, or inside it when it is a directory. */
  function Landing(fs: FileSystem, src: string, dest: string): string {
    Target(Prepared(fs, dest), src, dest)
  }

  /**
   * A move to another path takes the source away and puts what it held at
   * the landing place, provided the source is not the landing place or
   * below it.
   */
  lemma MoveRelocates(fs: FileSystem, src: string, dest: string)
    requires src in fs && InSandbox(dest) && dest != src
    requires !Under(Landing(fs, src, dest), src)
    ensures src !in Pasted(fs, src, Cut, dest)
    ensures Landing(fs, src, dest) in Pasted(fs, src, Cut, dest)
    ensures Pasted(fs, src, Cut, dest)[Landing(fs, src, dest)] == fs[src]
  {
    var ready := Prepared(fs, dest);
    assert Pasted(fs, src, Cut, dest) == Move(ready, src, dest);
    Store.MoveRelocates(ready, src, dest);
  }

  /**
   * Cut, then paste: the source is gone, what it held is at the landing
   * place, and the slot is cleared.
   */
  lemma CutThenPaste(slot: Slot, fs: FileSystem, src: string, dest: string)
    requires Mark(slot, fs, src, Tools.Confirmation, Cut, HiddenCut).reply.Done?
    requires InSandbox(dest) && !IsHidden(dest) && dest != src
    requires MoveRefusal(Prepared(fs, dest), src, dest).None?
    requires !Under(Landing(fs, src, dest), src)
    ensures var cut := Mark(slot, fs, src, Tools.Confirmation, Cut, HiddenCut);
      var pasted := PasteAt(cut.slot, cut.fs, dest, Tools.Confirmation, None);
      && pasted.reply == Done(PastedMove(dest))
      && pasted.slot == Cleared
      && src !in pasted.fs
      && Landing(fs, src, dest) in pasted.fs && pasted.fs[Landing(fs, src, dest)] == fs[src]
  {
    LastWriterWins(slot, fs, src, Tools.Confirmation, Cut, HiddenCut);
    SandboxedNotEmpty(src);
    var full := Slot(Some(src), Some(Cut));
    assert !IsEmpty(full);
    assert PasteAt(full, fs, dest, Tools.Confirmation, None) == Step(Done(PastedMove(dest)), Cleared, Pasted(fs, src, Cut, dest));
    MoveRelocates(fs, src, dest);
  }

  /**
   * Cut a directory, then paste it onto its own path: `move` renames it
   * onto itself, so the tree stays where it was, the paste reports success
   * and the slot is cleared.
   */
  lemma CutPasteOntoItself(slot: Slot, fs: FileSystem, d: string)
    requires Mark(slot, fs, d, Tools.Confirmation, Cut, HiddenCut).reply.Done?
    requires fs[d].Dir?
    ensures var cut := Mark(slot, fs, d, Tools.Confirmation, Cut, HiddenCut);
      var pasted := PasteAt(cut.slot, cut.fs, d, Tools.Confirmation, None);
      && pasted.reply == Done(PastedMove(d))
      && pasted.slot == Cleared
      && pasted.fs == Prepared(fs, d)
  {
    LastWriterWins(slot, fs, d, Tools.Confirmation, Cut, HiddenCut);
    SandboxedNotEmpty(d);
    var full := Slot(Some(d), Some(Cut));
    assert !IsEmpty(full);
    var ready := Prepared(fs, d);
    MoveOntoItself(ready, d);
    assert PasteAt(full, fs, d, Tools.Confirmation, None) == Step(Done(PastedMove(d)), Cleared, ready);
  }

  /**
   * Cut a directory, then paste it into its own subtree: `move` refuses,
   * the tree stays where it was, only the destination's parents are made,
   * and the slot still holds the cut.
   */
  lemma CutIntoOwnSubtree(slot: Slot, fs: FileSystem, src: string, dest: string)
    requires Mark(slot, fs, src, Tools.Confirmation, Cut, HiddenCut).reply.Done?
    requires fs[src].Dir? && Strings.StartsWith(dest, src + "/") && !IsHidden(dest)
    ensures var cut := Mark(slot, fs, src, Tools.Confirmation, Cut, HiddenCut);
      var pasted := PasteAt(cut.slot, cut.fs, dest, Tools.Confirmation, None);
      && pasted.reply.Refused? && pasted.reply.failure.PasteFailed?
      && pasted.slot == cut.slot
      && pasted.fs == Prepared(fs, dest)
      && src in pasted.fs && pasted.fs[src] == fs[src]
  {
    LastWriterWins(slot, fs, src, Tools.Confirmation, Cut, HiddenCut);
    SandboxedNotEmpty(src);
    UnderInSandbox(src, dest);
    var full := Slot(Some(src), Some(Cut));
    assert !IsEmpty(full);
    var ready := Prepared(fs, dest);
    MoveIntoOwnSubtree(ready, src, dest);
    assert PasteAt(full, fs, dest, Tools.Confirmation, None)
        == Step(Refused(PasteFailed(MoveRefusal(ready, src, dest).value)), full, ready);
  }

  /** A cut item can be pasted once: the next paste finds the slot empty. */
  lemma CutPastesOnce(slot: Slot, fs: FileSystem, src: string, dest: string, again: string, answer: string, raised: Option<string>)
    requires Mark(slot, fs, src, Tools.Confirmation, Cut, HiddenCut).reply.Done?
    requires InSandbox(dest) && !IsHidden(dest)
    requires MoveRefusal(Prepared(fs, dest), src, dest).None?
    ensures var cut := Mark(slot, fs, src, Tools.Confirmation, Cut, HiddenCut);
      var pasted := PasteAt(cut.slot, cut.fs, dest, Tools.Confirmation, None);
      PasteAt(pasted.slot, pasted.fs, again, answer, raised).reply == Refused(ClipboardEmpty)
  {
    LastWriterWins(slot, fs, src, Tools.Confirmation, Cut, HiddenCut);
    SandboxedNotEmpty(src);
    var full := Slot(Some(src), Some(Cut));
    assert !IsEmpty(full);
    assert PasteAt(full, fs, dest, Tools.Confirmation, None).slot == Cleared;
  }

  // ---------------------------------------------------------------------
  // Lemmas: confinement

  /** Copy, cut and paste only ever leave a path that passed the prefix check in the slot. */
  lemma StepsKeepSound(slot: Slot, fs: FileSystem, abs: string, answer: string, op: Op, hidden: Failure, raised: Option<string>)
    requires Sound(slot)
    ensures Sound(Mark(slot, fs, abs, answer, op, hidden).slot)
    ensures Sound(PasteAt(slot, fs, abs, answer, raised).slot)
  {
    var marked := Mark(slot, fs, abs, answer, op, hidden).slot;
    assert marked == slot || (marked.src == Some(abs) && InSandbox(abs));
    var pasted := PasteAt(slot, fs, abs, answer, raised).slot;
    assert pasted == slot || pasted == Cleared;
  }

  /** A paste never touches a path that fails the prefix check. */
  lemma PasteConfined(slot: Slot, fs: FileSystem, dest: string, answer: string, raised: Option<string>)
    requires Sound(slot)
    ensures SameOutside(fs, PasteAt(slot, fs, dest, answer, raised).fs)
  {
    var r := PasteAt(slot, fs, dest, answer, raised);
    if !IsEmpty(slot) && InSandbox(dest) && !IsHidden(dest) && slot.src.value in fs
       && answer == Tools.Confirmation && raised.None? {
      var src := slot.src.value;
      var ready := Prepared(fs, dest);
      DirnameInSandbox(dest);
      MakeDirsConfined(fs, Dirname(dest));
      if slot.op.value == Cut && MoveRefusal(ready, src, dest).Some? {
        assert r.fs == ready;
      } else if slot.op.value == Copy && CopyRefusal(ready, src, dest).Some? {
        assert r.fs == ready;
      } else if slot.op.value == Cut {
        assert r.fs == Move(ready, src, dest);
        MoveConfined(ready, src, dest);
      } else if ready[src].Dir? {
        assert r.fs == CopyTree(ready, src, dest);
        CopyTreeConfined(ready, src, dest);
      } else {
        assert r.fs == Store.CopyFile(ready, src, dest);
        CopyFileConfined(ready, src, dest);
      }
      SameOutsideTrans(fs, ready, r.fs);
    } else {
      assert r.fs == fs;
    }
  }

  // ---------------------------------------------------------------------
  // The class and its two fields

  class AgenticGemini {
    var clipboardSrc: Option<string>
    var clipboardOp: Option<Op>

    /** The two fields as a slot. */
    function Current(): Slot
      reads this
    {
      Slot(clipboardSrc, clipboardOp)
    }

    /** The class starts with both fields `None`. */
    constructor ()
      ensures Current() == Cleared
    {
      clipboardSrc := None;
      clipboardOp := None;
    }

    /** `_copy_file`: the fields change only once the copy is confirmed. */
    method CopyFile(fs: FileSystem, rel: string, answer: string) returns (reply: Reply)
      modifies this
      ensures Step(reply, Current(), fs) == CopyStep(old(Current()), fs, rel, answer)
    {
      var abs := Resolve(rel);
      if !InSandbox(abs) {
        return Refused(Traversal);
      }
      if IsHidden(abs) {
        return Refused(HiddenCopy);
      }
      if abs !in fs {
        return Refused(PathNotFound(abs));
      }
      if answer != Tools.Confirmation {
        return Refused(Denied);
      }
      clipboardSrc := Some(abs);
      clipboardOp := Some(Copy);
      reply := Done(CopiedToClipboard(abs));
    }

    /** `_cut_file`: the same gates as copying, with the `CUT` tag. */
    method CutFile(fs: FileSystem, rel: string, answer: string) returns (reply: Reply)
      modifies this
      ensures Step(reply, Current(), fs) == CutStep(old(Current()), fs, rel, answer)
    {
      var abs := Resolve(rel);
      if !InSandbox(abs) {
        return Refused(Traversal);
      }
      if IsHidden(abs) {
        return Refused(HiddenCut);
      }
      if abs !in fs {
        return Refused(PathNotFound(abs));
      }
      if answer != Tools.Confirmation {
        return Refused(Denied);
      }
      clipboardSrc := Some(abs);
      clipboardOp := Some(Cut);
      reply := Done(CutToClipboard(abs));
    }

    /** `_paste_file`: consumes the slot on a move, keeps it on a copy. */
    method PasteFile(fs: FileSystem, rel: string, answer: string, raised: Option<string>)
      returns (reply: Reply, fs': FileSystem)
      modifies this
      ensures Step(reply, Current(), fs') == PasteStep(old(Current()), fs, rel, answer, raised)
    {
      fs' := fs;
      if clipboardSrc.None? || clipboardSrc.value == "" || clipboardOp.None? {
        return Refused(ClipboardEmpty), fs;
      }
      var dest := Resolve(rel);
      if !InSandbox(dest) {
        return Refused(Traversal), fs;
      }
      if IsHidden(dest) {
        return Refused(HiddenPaste), fs;
      }
      var src := clipboardSrc.value;
      if src !in fs {
        clipboardSrc := None;
        clipboardOp := None;
        return Refused(SourceGone), fs;
      }
      if answer != Tools.Confirmation {
        return Refused(Denied), fs;
      }
      if raised.Some? {
        return Refused(PasteFailed(raised.value)), fs;
      }
      var ready := MakeDirs(fs, Dirname(dest));
      if clipboardOp.value == Copy {
        var refusal := CopyRefusal(ready, src, dest);
        if refusal.Some? {
          return Refused(PasteFailed(refusal.value)), ready;
        }
        if ready[src].Dir? {
          fs' := CopyTree(ready, src, dest);
        } else {
          fs' := Store.CopyFile(ready, src, dest);
        }
        reply := Done(PastedCopy(dest));
      } else {
        var refusal := MoveRefusal(ready, src, dest);
        if refusal.Some? {
          return Refused(PasteFailed(refusal.value)), ready;
        }
        fs' := Move(ready, src, dest);
        clipboardSrc := None;
        clipboardOp := None;
        reply := Done(PastedMove(dest));
      }
    }
  }
}
