/**
 * The file tools of `AgenticGemini` that do not touch the clipboard:
 * `_read_file_content`, `_write_file_content`, `_create_file`,
 * `_create_directory` and `_delete_item`, with the extension allow-lists
 * and the gates each tool runs before it acts. Every tool resolves its
 * argument with `Resolve`, runs its gates in a fixed order and returns the
 * first failing gate's error; the user's reply to the confirmation prompt
 * is a parameter, and so is the text of any exception the OS or a library
 * raises once the tool proceeds.
 */
module Tools {
  import opened Strings
  import opened Paths
  import opened Optional
  import opened Store
  import Notebook
  import Pdf
  import opened Replies

  // ---------------------------------------------------------------------
  // Extensions

  /** `_get_readable_extensions` */
  function ReadableExtensions(): set<string> {
    {".py", ".c", ".ipynb", ".txt", ".md", ".json", ".csv", ".html", ".css", ".js", ".docx", ".pdf"}
  }

  /** `_get_editable_extensions` */
  function EditableExtensions(): set<string> {
    {".py", ".c", ".ipynb"}
  }

  /** Every editable type is also readable; documents and plain text are read-only. */
  lemma EditableAreReadable()
    ensures EditableExtensions() <= ReadableExtensions()
    ensures ".docx" !in EditableExtensions() && ".pdf" !in EditableExtensions() && ".txt" !in EditableExtensions()
  {
  }

  /** The one answer to the confirmation prompt that lets a tool proceed. */
  const Confirmation: string := "YES"

  /** A reply and the file system after the tool ran. */
  datatype Outcome = Outcome(reply: Reply, fs: FileSystem)

  // ---------------------------------------------------------------------
  // Truncation

  const CharLimit: nat := 65536
  const TruncationWarning: string :=
    "\n\n[WARNING: Content truncated. Original size > 65536 characters (~8192 tokens).]"

  /** The cut applied to everything a read returns. */
  function Truncate(content: string): string {
    if |content| > CharLimit then content[..CharLimit] + TruncationWarning else content
  }

  /** Content within the limit comes back as it is. */
  lemma TruncateShort(content: string)
    requires |content| <= CharLimit
    ensures Truncate(content) == content
  {
  }

  /**
   * Longer content comes back as exactly its first 65536 characters and the
   * warning, so nothing longer than the limit plus the warning is returned.
   */
  lemma TruncateLong(content: string)
    requires |content| > CharLimit
    ensures |Truncate(content)| == CharLimit + |TruncationWarning|
    ensures Truncate(content)[..CharLimit] == content[..CharLimit]
    ensures Truncate(content)[CharLimit..] == TruncationWarning
  {
    var r := Truncate(content);
    assert r == content[..CharLimit] + TruncationWarning;
  }

  /** Truncating a truncated reply changes nothing. */
  lemma TruncateIdempotent(content: string)
    ensures Truncate(Truncate(content)) == Truncate(content)
  {
    if |content| > CharLimit {
      var r := Truncate(content);
      TruncateLong(content);
      assert r[..CharLimit] + TruncationWarning == r;
    }
  }

  // ---------------------------------------------------------------------
  // _read_file_content

  /**
   * What `open(p, 'r').read()` returns for a file holding `s`: universal
   * newlines turn each `\r\n` and each lone `\r` into `\n`.
   */
  function ReadNewlines(s: string): (r: string)
    ensures |r| <= |s|
    ensures forall i :: 0 <= i < |r| ==> r[i] != '\r'
    decreases |s|
  {
    if s == [] then []
    else if s[0] == '\r' then "\n" + ReadNewlines(if |s| > 1 && s[1] == '\n' then s[2..] else s[1..])
    else [s[0]] + ReadNewlines(s[1..])
  }

  /** Text without a carriage return reads back unchanged. */
  lemma {:induction false} ReadNewlinesPlain(s: string)
    requires forall i :: 0 <= i < |s| ==> s[i] != '\r'
    ensures ReadNewlines(s) == s
    decreases |s|
  {
    if s != [] {
      ReadNewlinesPlain(s[1..]);
      assert s == [s[0]] + s[1..];
    }
  }

  /** Reading translates once: text already read reads back unchanged. */
  lemma ReadNewlinesIdempotent(s: string)
    ensures ReadNewlines(ReadNewlines(s)) == ReadNewlines(s)
  {
    ReadNewlinesPlain(ReadNewlines(s));
  }

  /** A Windows line end and an old Mac line end each read as one `\n`. */
  lemma ReadNewlinesExample()
    ensures ReadNewlines("a\r\nb\rc") == "a\nb\nc"
  {
    var s := "a\r\nb\rc";
    assert s[1..][2..] == "b\rc";
    assert s[1..][2..][1..][1..] == "c";
    assert ReadNewlines("c") == "c";
    assert ReadNewlines("\rc") == "\n" + ReadNewlines("c");
    assert ReadNewlines("b\rc") == "b" + ReadNewlines("\rc");
    assert ReadNewlines("\r\nb\rc") == "\n" + ReadNewlines("b\rc");
  }

  /**
   * The reader chosen by the extension, applied to the node: `Content` for
   * text still to be truncated, or a reply returned as it is. A node the
   * reader cannot parse gives the library's error `failure`.
   */
  function Decode(ext: string, node: Node, chapter: Option<string>, failure: string): Reply {
    if ext == ".ipynb" then
      if node.File? && node.data.NotebookData? then
        var parts := Notebook.Blocks(node.data.cells, Notebook.Standard);
        if parts == [] then Done(NoCells) else Content(JoinWith(parts, "\n\n"))
      else Refused(ReadFailed(failure))
    else if ext == ".pdf" then
      if node.File? && node.data.PdfData? then
        match Pdf.ChapterSpan(chapter, node.data.outline, |node.data.pages|)
        case None => Refused(ChapterMissing(chapter.value))
        case Some(span) =>
          match Pdf.SpanText(node.data.pages, span)
          case Err(e) => Refused(PdfFailed(e))
          case Ok(text) => Content(text)
      else Refused(PdfFailed(failure))
    else if ext == ".docx" then
      if node.File? && node.data.DocxData? then Content(JoinWith(node.data.paragraphs, "\n"))
      else Refused(ReadFailed(failure))
    else
      if node.File? && node.data.Text? then Content(ReadNewlines(node.data.text))
      else Refused(ReadFailed(failure))
  }

  /** `_read_file_content` on the path `rel` resolves to. */
  function ReadReply(fs: FileSystem, rel: string, chapter: Option<string>, failure: string): Reply {
    ReadAt(fs, Resolve(rel), chapter, failure)
  }

  /** Extension, traversal and existence gates, then the reader and the cut. */
  function ReadAt(fs: FileSystem, abs: string, chapter: Option<string>, failure: string): Reply {
    var ext := Extension(abs);
    if ext !in ReadableExtensions() then Refused(NotAllowed(ext))
    else if !InSandbox(abs) then Refused(Traversal)
    else if abs !in fs then Refused(FileNotFound(abs))
    else
      var d := Decode(ext, fs[abs], chapter, failure);
      if d.Content? then Content(Truncate(d.text)) else d
  }

  /** The reader as the source runs it: the cell loop, the chapter search and the page loop. */
  method ReadFileContent(fs: FileSystem, rel: string, chapter: Option<string>, failure: string)
    returns (reply: Reply)
    ensures reply == ReadReply(fs, rel, chapter, failure)
  {
    var abs := Resolve(rel);
    var ext := Extension(abs);
    if ext !in ReadableExtensions() {
      return Refused(NotAllowed(ext));
    }
    if !InSandbox(abs) {
      return Refused(Traversal);
    }
    if abs !in fs {
      return Refused(FileNotFound(abs));
    }
    var node := fs[abs];
    var content: string;
    if ext == ".ipynb" {
      if !(node.File? && node.data.NotebookData?) {
        return Refused(ReadFailed(failure));
      }
      var parts := Notebook.RenderCells(node.data.cells);
      if parts == [] {
        return Done(NoCells);
      }
      content := JoinWith(parts, "\n\n");
    } else if ext == ".pdf" {
      if !(node.File? && node.data.PdfData?) {
        return Refused(PdfFailed(failure));
      }
      var span := Pdf.SelectChapter(chapter, node.data.outline, |node.data.pages|);
      if span.None? {
        return Refused(ChapterMissing(chapter.value));
      }
      var text := Pdf.ExtractPages(node.data.pages, span.value);
      if text.Err? {
        return Refused(PdfFailed(text.message));
      }
      content := text.value;
    } else if ext == ".docx" {
      if !(node.File? && node.data.DocxData?) {
        return Refused(ReadFailed(failure));
      }
      content := JoinWith(node.data.paragraphs, "\n");
    } else {
      if !(node.File? && node.data.Text?) {
        return Refused(ReadFailed(failure));
      }
      content := ReadNewlines(node.data.text);
    }
    reply := Content(Truncate(content));
  }

  // ---------------------------------------------------------------------
  // _write_file_content

  /**
   * `_write_file_content`: extension, traversal and hidden gates, the
   * confirmation, then the parent directories and the file. A notebook is
   * stored as the cells its text parses into.
   */
  function WriteOutcome(fs: FileSystem, rel: string, content: string, answer: string, raised: Option<string>): Outcome {
    WriteAt(fs, Resolve(rel), content, answer, raised)
  }

  /** The file a write that passed every gate stores. */
  function Written(abs: string, content: string): Node {
    File(if Extension(abs) == ".ipynb" then NotebookData(Notebook.Parsed(content)) else Text(content))
  }

  function WriteAt(fs: FileSystem, abs: string, content: string, answer: string, raised: Option<string>): Outcome {
    var ext := Extension(abs);
    if ext !in EditableExtensions() then Outcome(Refused(NotWritable(ext)), fs)
    else if !InSandbox(abs) then Outcome(Refused(Traversal), fs)
    else if IsHidden(abs) then Outcome(Refused(HiddenEdit), fs)
    else if answer != Confirmation then Outcome(Refused(Denied), fs)
    else if raised.Some? then Outcome(Refused(WriteFailed(raised.value)), fs)
    else Outcome(Done(Wrote(abs)), Put(fs, abs, Written(abs, content)))
  }

  /** The writer as the source runs it, with the notebook parse loop. */
  method WriteFileContent(fs: FileSystem, rel: string, content: string, answer: string, raised: Option<string>)
    returns (reply: Reply, fs': FileSystem)
    ensures Outcome(reply, fs') == WriteOutcome(fs, rel, content, answer, raised)
  {
    var abs := Resolve(rel);
    var ext := Extension(abs);
    fs' := fs;
    if ext !in EditableExtensions() {
      return Refused(NotWritable(ext)), fs;
    }
    if !InSandbox(abs) {
      return Refused(Traversal), fs;
    }
    if IsHidden(abs) {
      return Refused(HiddenEdit), fs;
    }
    if answer != Confirmation {
      return Refused(Denied), fs;
    }
    if raised.Some? {
      return Refused(WriteFailed(raised.value)), fs;
    }
    if ext == ".ipynb" {
      var cells := Notebook.ParseCells(content);
      fs' := Put(fs, abs, File(NotebookData(cells)));
    } else {
      fs' := Put(fs, abs, File(Text(content)));
    }
    reply := Done(Wrote(abs));
  }

  // ---------------------------------------------------------------------
  // _create_file, _create_directory, _delete_item

  /** `_create_file`: the same gates as writing, then an empty file. */
  function CreateOutcome(fs: FileSystem, rel: string, answer: string, raised: Option<string>): Outcome {
    CreateAt(fs, Resolve(rel), answer, raised)
  }

  function CreateAt(fs: FileSystem, abs: string, answer: string, raised: Option<string>): Outcome {
    var ext := Extension(abs);
    if ext !in EditableExtensions() then Outcome(Refused(CannotCreate(ext)), fs)
    else if !InSandbox(abs) then Outcome(Refused(Traversal), fs)
    else if IsHidden(abs) then Outcome(Refused(HiddenCreate), fs)
    else if answer != Confirmation then Outcome(Refused(Denied), fs)
    else if raised.Some? then Outcome(Refused(CreateFailed(raised.value)), fs)
    else Outcome(Done(Created(abs)), Put(fs, abs, File(Text(""))))
  }

  /** `_create_directory`: traversal and hidden gates, the confirmation, then `makedirs`. */
  function CreateDirectoryOutcome(fs: FileSystem, rel: string, answer: string, raised: Option<string>): Outcome {
    CreateDirectoryAt(fs, Resolve(rel), answer, raised)
  }

  function CreateDirectoryAt(fs: FileSystem, abs: string, answer: string, raised: Option<string>): Outcome {
    if !InSandbox(abs) then Outcome(Refused(Traversal), fs)
    else if IsHidden(abs) then Outcome(Refused(HiddenDirectory), fs)
    else if answer != Confirmation then Outcome(Refused(Denied), fs)
    else if raised.Some? then Outcome(Refused(DirectoryFailed(raised.value)), fs)
    else Outcome(Done(DirectoryCreated(abs)), MakeDirs(fs, abs))
  }

  /** `_delete_item`: traversal, hidden and existence gates, the confirmation, then removal. */
  function DeleteOutcome(fs: FileSystem, rel: string, answer: string, raised: Option<string>): Outcome {
    DeleteAt(fs, Resolve(rel), answer, raised)
  }

  function DeleteAt(fs: FileSystem, abs: string, answer: string, raised: Option<string>): Outcome {
    if !InSandbox(abs) then Outcome(Refused(Traversal), fs)
    else if IsHidden(abs) then Outcome(Refused(HiddenDelete), fs)
    else if abs !in fs then Outcome(Refused(PathNotFound(abs)), fs)
    else if answer != Confirmation then Outcome(Refused(Denied), fs)
    else if raised.Some? then Outcome(Refused(DeleteFailed(raised.value)), fs)
    else if fs[abs].Dir? then Outcome(Done(Deleted(abs)), RemoveTree(fs, abs))
    else Outcome(Done(Deleted(abs)), fs - {abs})
  }

  // ---------------------------------------------------------------------
  // Lemmas: the gates

  /**
   * A write succeeds exactly when every gate passes, the user typed `YES`
   * and nothing was raised; otherwise the reply is a refusal and nothing
   * changed.
   */
  lemma WriteSucceedsExactly(fs: FileSystem, abs: string, content: string, answer: string, raised: Option<string>)
    ensures WriteAt(fs, abs, content, answer, raised).reply == Done(Wrote(abs)) <==>
      Extension(abs) in EditableExtensions() && InSandbox(abs) && !IsHidden(abs) && answer == Confirmation && raised.None?
    ensures WriteAt(fs, abs, content, answer, raised).reply != Done(Wrote(abs)) ==>
      WriteAt(fs, abs, content, answer, raised).reply.Refused? && WriteAt(fs, abs, content, answer, raised).fs == fs
  {
  }

  /** Creating follows the same gates as writing, with its own messages. */
  lemma CreateSucceedsExactly(fs: FileSystem, abs: string, answer: string, raised: Option<string>)
    ensures CreateAt(fs, abs, answer, raised).reply == Done(Created(abs)) <==>
      Extension(abs) in EditableExtensions() && InSandbox(abs) && !IsHidden(abs) && answer == Confirmation && raised.None?
    ensures CreateAt(fs, abs, answer, raised).reply != Done(Created(abs)) ==>
      CreateAt(fs, abs, answer, raised).reply.Refused? && CreateAt(fs, abs, answer, raised).fs == fs
  {
  }

  /** Creating a directory has no extension gate. */
  lemma CreateDirectorySucceedsExactly(fs: FileSystem, abs: string, answer: string, raised: Option<string>)
    ensures CreateDirectoryAt(fs, abs, answer, raised).reply == Done(DirectoryCreated(abs)) <==>
      InSandbox(abs) && !IsHidden(abs) && answer == Confirmation && raised.None?
    ensures CreateDirectoryAt(fs, abs, answer, raised).reply != Done(DirectoryCreated(abs)) ==>
      CreateDirectoryAt(fs, abs, answer, raised).reply.Refused? && CreateDirectoryAt(fs, abs, answer, raised).fs == fs
  {
  }

  /** Deleting adds the existence gate after the hidden-name one. */
  lemma DeleteSucceedsExactly(fs: FileSystem, abs: string, answer: string, raised: Option<string>)
    ensures DeleteAt(fs, abs, answer, raised).reply == Done(Deleted(abs)) <==>
      InSandbox(abs) && !IsHidden(abs) && abs in fs && answer == Confirmation && raised.None?
    ensures DeleteAt(fs, abs, answer, raised).reply != Done(Deleted(abs)) ==>
      DeleteAt(fs, abs, answer, raised).reply.Refused? && DeleteAt(fs, abs, answer, raised).fs == fs
  {
  }

  /**
   * Reading checks the extension before traversal and traversal before
   * existence; the reply of each failing gate names that gate.
   */
  lemma ReadGateOrder(fs: FileSystem, abs: string, chapter: Option<string>, failure: string)
    ensures Extension(abs) !in ReadableExtensions() ==>
      ReadAt(fs, abs, chapter, failure) == Refused(NotAllowed(Extension(abs)))
    ensures Extension(abs) in ReadableExtensions() && !InSandbox(abs) ==>
      ReadAt(fs, abs, chapter, failure) == Refused(Traversal)
    ensures Extension(abs) in ReadableExtensions() && InSandbox(abs) && abs !in fs ==>
      ReadAt(fs, abs, chapter, failure) == Refused(FileNotFound(abs))
  {
  }

  /**
   * Writing and creating check the extension, then traversal, then the
   * hidden name, all before the confirmation is asked for.
   */
  lemma WriteGateOrder(fs: FileSystem, abs: string, content: string, answer: string, raised: Option<string>)
    ensures Extension(abs) !in EditableExtensions() ==>
      WriteAt(fs, abs, content, answer, raised).reply == Refused(NotWritable(Extension(abs)))
      && CreateAt(fs, abs, answer, raised).reply == Refused(CannotCreate(Extension(abs)))
    ensures Extension(abs) in EditableExtensions() && !InSandbox(abs) ==>
      WriteAt(fs, abs, content, answer, raised).reply == Refused(Traversal)
      && CreateAt(fs, abs, answer, raised).reply == Refused(Traversal)
    ensures Extension(abs) in EditableExtensions() && InSandbox(abs) && IsHidden(abs) ==>
      WriteAt(fs, abs, content, answer, raised).reply == Refused(HiddenEdit)
      && CreateAt(fs, abs, answer, raised).reply == Refused(HiddenCreate)
  {
  }

  /**
   * Creating a directory and deleting check traversal, then the hidden
   * name, then (deleting only) existence, all before the confirmation.
   */
  lemma DirectoryGateOrder(fs: FileSystem, abs: string, answer: string, raised: Option<string>)
    ensures !InSandbox(abs) ==>
      CreateDirectoryAt(fs, abs, answer, raised).reply == Refused(Traversal)
      && DeleteAt(fs, abs, answer, raised).reply == Refused(Traversal)
    ensures InSandbox(abs) && IsHidden(abs) ==>
      CreateDirectoryAt(fs, abs, answer, raised).reply == Refused(HiddenDirectory)
      && DeleteAt(fs, abs, answer, raised).reply == Refused(HiddenDelete)
    ensures InSandbox(abs) && !IsHidden(abs) && abs !in fs ==>
      DeleteAt(fs, abs, answer, raised).reply == Refused(PathNotFound(abs))
  {
  }

  /** Only the exact answer `YES` proceeds: any other answer is a denial with nothing changed. */
  lemma OnlyYesProceeds(fs: FileSystem, abs: string, content: string, answer: string, raised: Option<string>)
    requires answer != Confirmation
    ensures WriteAt(fs, abs, content, answer, raised).fs == fs
    ensures CreateAt(fs, abs, answer, raised).fs == fs
    ensures CreateDirectoryAt(fs, abs, answer, raised).fs == fs
    ensures DeleteAt(fs, abs, answer, raised).fs == fs
    ensures Extension(abs) in EditableExtensions() && InSandbox(abs) && !IsHidden(abs) ==>
      WriteAt(fs, abs, content, answer, raised).reply == Refused(Denied)
    ensures Extension(abs) in EditableExtensions() && InSandbox(abs) && !IsHidden(abs) ==>
      CreateAt(fs, abs, answer, raised).reply == Refused(Denied)
    ensures InSandbox(abs) && !IsHidden(abs) ==> CreateDirectoryAt(fs, abs, answer, raised).reply == Refused(Denied)
    ensures InSandbox(abs) && !IsHidden(abs) && abs in fs ==> DeleteAt(fs, abs, answer, raised).reply == Refused(Denied)
  {
  }

  // ---------------------------------------------------------------------
  // Lemmas: what the tools do to the file system

  lemma WriteProceeds(fs: FileSystem, abs: string, content: string)
    requires Extension(abs) in EditableExtensions() && InSandbox(abs) && !IsHidden(abs)
    ensures WriteAt(fs, abs, content, Confirmation, None) == Outcome(Done(Wrote(abs)), Put(fs, abs, Written(abs, content)))
  {
  }

  lemma CreateProceeds(fs: FileSystem, abs: string)
    requires Extension(abs) in EditableExtensions() && InSandbox(abs) && !IsHidden(abs)
    ensures CreateAt(fs, abs, Confirmation, None) == Outcome(Done(Created(abs)), Put(fs, abs, File(Text(""))))
  {
  }

  /** Writing and creating never touch a path that fails the prefix check. */
  lemma WriteConfined(fs: FileSystem, abs: string, content: string, answer: string, raised: Option<string>)
    ensures SameOutside(fs, WriteAt(fs, abs, content, answer, raised).fs)
    ensures SameOutside(fs, CreateAt(fs, abs, answer, raised).fs)
  {
    WriteSucceedsExactly(fs, abs, content, answer, raised);
    CreateSucceedsExactly(fs, abs, answer, raised);
    if Extension(abs) in EditableExtensions() && InSandbox(abs) && !IsHidden(abs) && answer == Confirmation && raised.None? {
      WriteProceeds(fs, abs, content);
      CreateProceeds(fs, abs);
      PutConfined(fs, abs, File(Text("")));
      PutConfined(fs, abs, Written(abs, content));
    }
  }

  /** Creating a directory never touches a path that fails the prefix check. */
  lemma CreateDirectoryConfined(fs: FileSystem, abs: string, answer: string, raised: Option<string>)
    ensures SameOutside(fs, CreateDirectoryAt(fs, abs, answer, raised).fs)
  {
    if InSandbox(abs) && !IsHidden(abs) && answer == Confirmation && raised.None? {
      assert CreateDirectoryAt(fs, abs, answer, raised).fs == MakeDirs(fs, abs);
      MakeDirsConfined(fs, abs);
    } else {
      assert CreateDirectoryAt(fs, abs, answer, raised).fs == fs;
    }
  }

  /** Deleting never touches a path that fails the prefix check. */
  lemma DeleteConfined(fs: FileSystem, abs: string, answer: string, raised: Option<string>)
    ensures SameOutside(fs, DeleteAt(fs, abs, answer, raised).fs)
  {
    if InSandbox(abs) && !IsHidden(abs) && abs in fs && answer == Confirmation && raised.None? {
      if fs[abs].Dir? {
        assert DeleteAt(fs, abs, answer, raised).fs == RemoveTree(fs, abs);
        RemoveTreeConfined(fs, abs);
      } else {
        assert DeleteAt(fs, abs, answer, raised).fs == fs - {abs};
      }
    } else {
      assert DeleteAt(fs, abs, answer, raised).fs == fs;
    }
  }

  /** A plain file under a readable code extension reads as its text, cut to the limit. */
  lemma ReadPlainFile(fs: FileSystem, abs: string, text: string, chapter: Option<string>, failure: string)
    requires Extension(abs) in {".py", ".c"} && InSandbox(abs)
    requires abs in fs && fs[abs] == File(Text(text))
    ensures ReadAt(fs, abs, chapter, failure) == Content(Truncate(ReadNewlines(text)))
  {
  }

  /** A stored notebook with at least one code or markdown cell reads as its rendering. */
  lemma ReadNotebookFile(fs: FileSystem, abs: string, cells: seq<Notebook.Cell>, chapter: Option<string>, failure: string)
    requires Extension(abs) == ".ipynb" && InSandbox(abs)
    requires abs in fs && fs[abs] == File(NotebookData(cells))
    requires Notebook.Blocks(cells, Notebook.Standard) != []
    ensures ReadAt(fs, abs, chapter, failure) == Content(Truncate(Notebook.Rendered(cells)))
  {
  }

  /** After a successful write of a plain file, reading it gives the content back (truncated). */
  lemma WriteThenRead(fs: FileSystem, abs: string, content: string, chapter: Option<string>, failure: string)
    requires Extension(abs) in {".py", ".c"} && InSandbox(abs) && !IsHidden(abs)
    ensures ReadAt(WriteAt(fs, abs, content, Confirmation, None).fs, abs, chapter, failure)
         == Content(Truncate(ReadNewlines(content)))
  {
    WriteProceeds(fs, abs, content);
    assert Written(abs, content) == File(Text(content));
    ReadPlainFile(Put(fs, abs, File(Text(content))), abs, content, chapter, failure);
  }

  /** Content without a carriage return reads back exactly as written (truncated). */
  lemma WriteThenReadPlain(fs: FileSystem, abs: string, content: string, chapter: Option<string>, failure: string)
    requires Extension(abs) in {".py", ".c"} && InSandbox(abs) && !IsHidden(abs)
    requires forall i :: 0 <= i < |content| ==> content[i] != '\r'
    ensures ReadAt(WriteAt(fs, abs, content, Confirmation, None).fs, abs, chapter, failure) == Content(Truncate(content))
  {
    WriteThenRead(fs, abs, content, chapter, failure);
    ReadNewlinesPlain(content);
  }

  /**
   * Writing a notebook in the text form the reader renders and reading it
   * back gives the same text: the cells survive the parse.
   */
  lemma WriteNotebookThenRead(fs: FileSystem, abs: string, cells: seq<Notebook.Cell>, chapter: Option<string>, failure: string)
    requires Extension(abs) == ".ipynb" && InSandbox(abs) && !IsHidden(abs)
    requires cells != [] && forall i :: 0 <= i < |cells| ==> Notebook.Renderable(cells[i], Notebook.Standard)
    ensures ReadAt(WriteAt(fs, abs, Notebook.Rendered(cells), Confirmation, None).fs, abs, chapter, failure)
         == Content(Truncate(Notebook.Rendered(cells)))
  {
    Notebook.RenderParseRoundTrip(cells);
    Notebook.BlocksOfPlainCells(cells, Notebook.Standard);
    WriteProceeds(fs, abs, Notebook.Rendered(cells));
    ReadNotebookFile(Put(fs, abs, File(NotebookData(cells))), abs, cells, chapter, failure);
  }

  /** A freshly created plain file reads as empty. */
  lemma CreateThenRead(fs: FileSystem, abs: string, chapter: Option<string>, failure: string)
    requires Extension(abs) in {".py", ".c"} && InSandbox(abs) && !IsHidden(abs)
    ensures ReadAt(CreateAt(fs, abs, Confirmation, None).fs, abs, chapter, failure) == Content("")
  {
    CreateProceeds(fs, abs);
    assert ReadNewlines("") == "";
    TruncateShort("");
    ReadPlainFile(Put(fs, abs, File(Text(""))), abs, "", chapter, failure);
  }

  /** A created directory exists afterwards, and nothing that existed is changed. */
  lemma CreateDirectoryKeeps(fs: FileSystem, abs: string)
    requires InSandbox(abs) && !IsHidden(abs)
    ensures abs in CreateDirectoryAt(fs, abs, Confirmation, None).fs
    ensures abs !in fs ==> CreateDirectoryAt(fs, abs, Confirmation, None).fs[abs] == Dir
    ensures forall q :: q in fs ==>
      q in CreateDirectoryAt(fs, abs, Confirmation, None).fs && CreateDirectoryAt(fs, abs, Confirmation, None).fs[q] == fs[q]
  {
    assert abs[1] == 'm';
  }

  /**
   * A successful delete removes the path and, for a directory, everything
   * below it; every other path is kept as it was.
   */
  lemma DeleteRemoves(fs: FileSystem, abs: string)
    requires InSandbox(abs) && !IsHidden(abs) && abs in fs
    ensures abs !in DeleteAt(fs, abs, Confirmation, None).fs
    ensures fs[abs].Dir? ==> forall q :: q in DeleteAt(fs, abs, Confirmation, None).fs ==> !Under(abs, q)
    ensures forall q :: q in fs && !Under(abs, q) ==>
      q in DeleteAt(fs, abs, Confirmation, None).fs && DeleteAt(fs, abs, Confirmation, None).fs[q] == fs[q]
  {
  }
}
