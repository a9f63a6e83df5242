# Sandboxed file tools of AgenticGemini, in Dafny

`AgenticGemini` (main.py) gives a language-model agent a set of file tools that
work inside the directory `/my_files`. This project models those tools and
proves what they promise. The modelled tools are:

- find a file by a fuzzy name;
- read a file: plain text, a notebook, a PDF (whole or one chapter) or a
  Word document;
- write a file;
- create a file or a directory;
- delete a file or a directory;
- copy or cut a file or directory to a one-item clipboard, and paste it.

Every tool except find resolves its path argument against `/my_files` with POSIX
`os.path.join` and `os.path.normpath`. What comes next depends on the tool.

- Find takes a name, not a path, and asks nothing: it walks the tree and
  matches names.
- Read runs its gates (the extension allow-list, the
  `startswith('/my_files')` check, existence) and then reads; it asks
  nothing either.
- Write, create, create-directory, delete, copy and cut run their gates in
  a fixed order: the extension allow-list where the tool has one, the
  prefix check, the hidden-name check, and existence where the tool needs
  it. Then they ask for the exact answer `YES`, and only then act.
- Paste first checks that the clipboard is not empty, before it resolves
  the destination. Then it runs the prefix check, the hidden-name check
  and the check that the clipboard's source still exists, asks for `YES`,
  and acts.

The modules follow that structure.

- `Strings`: string helpers. This covers `lower`, the separator removal of
  the fuzzy search, `strip`, `split` and `join`.
- `Paths`:
  - `os.path.join`, `os.path.normpath` (with POSIX's special case for
    exactly two leading slashes), `os.path.splitext` and `os.path.basename`;
  - the resolver `_get_absolute_path`;
  - the prefix check as written (`InSandbox`) and the check as evidently
    intended (`InSandboxStrict`).
- `Store`: the file system as a map from absolute path to a directory or a
  file. It models `makedirs`, `open(…, 'w')`, `rmtree`, `copy2`,
  `copytree(dirs_exist_ok=True)` and `move` on that map. It also defines
  `SameOutside`, the relation "nothing that fails the prefix check was
  added, removed or changed".
- `Search`: `_find_file_path`. It covers the `os.walk` order with dot-names
  pruned, the matching rule, and the search loop as a method. The module
  `Queries` holds worked queries and the general laws of the matching rule.
- `Pdf`:
  - `_flatten_pdf_outline`;
  - the chapter search with its early `break` and its skip-on-exception
    behaviour;
  - the page loop.
- `Notebook`:
  - the text form a notebook is read as (`# --- CELL: CODE ---` blocks
    joined by a blank line);
  - the `re.split`-and-iterator parser that turns such text back into cells;
  - the round trip between the two.
- `Replies`: every reply of the read, write, create, delete and clipboard
  tools, with its exact text. The two replies of find are defined in
  `Search`. The replies the model leaves out are listed under "Left out".
- `Tools`: `_read_file_content`, `_write_file_content`, `_create_file`,
  `_create_directory`, `_delete_item` and the truncation to 65536
  characters.
- `Clipboard`: `_copy_file`, `_cut_file` and `_paste_file`.
  - The two clipboard fields are the fields of the class
    `Clipboard.AgenticGemini`. Its methods update them in place.
  - Each method is proved equal to a step function on a value `Slot`.

Each tool is written twice:

- A function over a file-system value gives the reply and the new file
  system (`ReadAt`, `WriteAt`, `PasteAt`, …).
- Where the source loops or updates fields, a method runs the source's own
  loop or field updates. Its `ensures` ties it to that function
  (`ReadFileContent`, `WriteFileContent`, `FindFilePath`, `ParseCells`,
  `SelectChapter`, `ExtractPages`, and the class methods).

Input from outside the model is passed in as parameters:

- the user's reply to the confirmation prompt;
- the tree under `/my_files` as the search sees it;
- the text of an exception raised by the OS or a library.

The sibling-directory escape. The containment check every tool applies is
the string test `absolute_path.startswith('/my_files')`.

- `Paths.SiblingPassesPrefixCheck` proves that it admits a sibling of the
  root whose name begins with `my_files`. For example,
  `read_file_content('../my_files_backup/secret.py')` resolves to
  `/my_files_backup/secret.py` and passes the check.
- `Paths.StrictCheckConfines` proves that the evidently intended check
  (the root itself, or below `/my_files/`) keeps a normalised path inside
  the root's subtree.
- The tools keep the check as written, so every confinement lemma below is
  stated in terms of that check, the same string test the tools apply.

The program's own texts promise more of the fuzzy search than its code
delivers; the model follows the code.

- The tool description registered for `_find_file_path` (main.py:673) says
  it "Supports automatic fuzzy matching for separators and casing", and the
  agent's system prompt (main.py:634) says it "automatically searches for
  casing/separator variations".
- The code (main.py:203-222) first splits off the query's extension and
  compares only the two bases. A query without a dot, such as `MAINC` or
  `main-c`, is compared whole: `mainc` does not occur in the base `main`,
  so neither query finds `main.c`, although it differs from the name only
  in casing and separators.
- `Queries.QueryWithoutDot` proves this. `Queries.QueryWithoutExtension`
  proves that `Main` does find `main.c`.

## Model

| member | source | states |
|---|---|---|
| Tools.EditableAreReadable | main.py:182-189 | every editable extension is readable; `.docx`, `.pdf` and `.txt` are read-only |
| Paths.ResolveNormal | main.py:192-199 | whatever the agent passes, the resolved path is absolute and normalised: one leading slash (or POSIX's two), then components none of which is empty, `.` or `..` |
| Paths.ResolvePlain | main.py:192-199 | a relative path made of proper components resolves to `/my_files/` followed by that path |
| Paths.ParentOfRootEscapes | main.py:192-199 | `../x` resolves to `/x`, outside the root: the resolver itself does not confine |
| Paths.ExtraSlashReplacesRoot | main.py:196-199 | only one leading slash is dropped: `//x` joins as an absolute path and resolves to `/x` |
| Paths.NormPathNormal | main.py:199 | `normpath` of an absolute path is in normal form |
| Paths.NormPathOfNormal | main.py:199 | `normpath` leaves a path already in normal form unchanged |
| Paths.NormPathIdempotent | main.py:199 | `normpath` is idempotent on absolute paths |
| Paths.NormPathClimb | main.py:199 | `normpath('/my_files/../x')` is `/x` |
| Paths.SplitExt | main.py:205 | `splitext` gives a base and an extension that put back together give the name; the extension is empty or starts with a dot |
| Paths.SplitExtOfName | main.py:219 | a name `base.ext` with a plain base splits into `base` and `.ext` |
| Paths.SplitExtNoDot | main.py:205 | a name without a dot has an empty extension |
| Paths.Basename | main.py:364 | the base name holds no slash and is a suffix of the path |
| Paths.SiblingPassesPrefixCheck | main.py:260-262 | a sibling of the root whose name begins with `my_files`, reached through `..`, passes the prefix check but not the strict check |
| Paths.StrictCheckConfines | main.py:260-262 | a normalised path that passes the strict check has one leading slash and `my_files` as its first component |
| Search.Normalise | main.py:206 | normalisation never lengthens a name and leaves no `_`, `-` or space |
| Queries.SeparatorIgnored | main.py:206 | removing one `_`, `-` or space anywhere does not change the normalised name |
| Queries.CaseIgnored | main.py:220 | lower-casing a name first does not change the normalised name |
| Queries.NormaliseMain | main.py:206 | `main` and `Main` normalise to `main` |
| Queries.NormaliseUpper | main.py:206 | `MAINC` normalises to `mainc` |
| Queries.NormaliseUnderscore | main.py:206 | `Main_C` normalises to `mainc` |
| Queries.NormaliseHyphen | main.py:206 | `main-c` normalises to `mainc` |
| Queries.ExtensionsOfMain | main.py:219 | `main.c` splits into `main` and `.c`, and `main.py` into `main` and `.py` |
| Queries.ExtensionsDiffer | main.py:223-224 | a query with extension `.c` never matches a name with extension `.py` |
| Queries.QueryWithoutExtension | main.py:219-224 | the query `Main` matches `main.c` |
| Queries.QueryWithExtension | main.py:223-224 | the query `main.c` does not match `main.py` |
| Queries.QueryWithoutDot | main.py:205-222 | the queries `MAINC`, `Main_C` and `main-c` do not match `main.c` |
| Search.VisibleMember | main.py:216 | a name survives the file filter exactly when it is listed and does not start with a dot |
| Search.WalkSound | main.py:214-228 | every hit of a walk from a directory extends that directory's path, leads to a visible file and passes the test |
| Search.WalkComplete | main.py:214-228 | every visible file that passes the test is a hit of the walk |
| Search.WalkFindsExactly | main.py:214-228 | a walk from the root finds a path exactly when it leads to a visible file that passes the test |
| Search.FoundExactly | main.py:214-228 | the search finds a path exactly when it leads to a visible file (no dot-named component) whose name matches the query |
| Search.MatchNames | main.py:218-228 | the loop over one directory's files collects the relative paths of exactly the matching names, in listing order |
| Search.FindFilePath | main.py:202-234 | the search reports a missing root, reports "no files found" when nothing matches, and otherwise lists every hit in walk order, one per line |
| Pdf.FlattenPdfOutline | main.py:237-246 | the loop returns the outline flattened, nested lists spliced in place |
| Pdf.FlattenAppend | main.py:237-246 | flattening distributes over concatenation of outlines |
| Pdf.FlattenNested | main.py:240-242 | a nested list contributes its own flattening at its place |
| Pdf.FlattenFlat | main.py:243-244 | an outline with no nesting flattens to its own entries |
| Pdf.SelectChapter | main.py:292-312 | the chapter loop, with its early `break` and its skip on an entry whose page lookup raises, computes the page span, or "not found" |
| Pdf.ScanFinds | main.py:299-308 | the search finds a start page exactly when some entry from the current one on matches the chapter and resolves |
| Pdf.ScanSpan | main.py:299-306 | when the first matching entry is followed by one that resolves (or is last), the span runs from its page to the next entry's page (or to the end) |
| Pdf.ChapterSpanOfFirstStart | main.py:295-306 | when the first matching, resolving entry of the flattened outline is last or the entry after it resolves, the span read for the chapter runs from that entry's page to the next entry's page (or to the end); if the next entry's lookup raises, the scan goes on, which this lemma does not cover |
| Pdf.ChapterNotFoundExactly | main.py:310-312 | "chapter not found" is returned exactly when no flattened entry matches the chapter and resolves |
| Pdf.Texts | main.py:314-318 | at most one text per page of the span is collected |
| Pdf.TextsMember | main.py:314-318 | a text is collected exactly when it is non-empty and is the text of some page of the span |
| Pdf.ExtractPages | main.py:314-319 | the page loop joins the non-empty page texts of the span with newlines, and fails like pypdf on a page past the end |
| Notebook.StandardWellFormed | main.py:279-281 | the code and markdown labels hold no newline, differ, and `'MARKDOWN' in` tells them apart |
| Notebook.Blocks | main.py:277-281 | reading emits at most one block per cell |
| Notebook.BlocksAppend | main.py:277-281 | the blocks of two cell lists are the blocks of each, in order |
| Notebook.BlocksOfPlainCells | main.py:277-281 | each code or markdown cell gives exactly one block: its label, a newline and its source |
| Notebook.RenderCells | main.py:275-281 | the cell loop emits the block of each code or markdown cell, in order, and nothing for other cells |
| Notebook.ReSplitOddLength | main.py:380 | the split of any text has an odd number of pieces: text, label, text, …, text |
| Notebook.ReSplitLabels | main.py:380 | every odd-position piece of the split is one of the two labels |
| Notebook.ReSplitConcat | main.py:380 | the pieces of the split put back together give the text |
| Notebook.ReSplitTextsHoldNoLabel | main.py:380 | no label occurs inside any even-position (text) piece of the split: the split cuts at every label |
| Notebook.ReSplitRendered | main.py:380 | the rendered text of renderable cells splits into an empty lead and label, padded-source pairs |
| Notebook.PairCellsInterleaved | main.py:387-392 | pairing those label, padded-source pieces gives back the cells |
| Notebook.ParseCells | main.py:378-392 | the iterator loop yields a code cell for non-blank leading text, then one cell per label with the stripped text after it, or empty text at the end |
| Notebook.RenderParseRoundTrip | main.py:378-392 | parsing the text a notebook is read as gives back its cells, for non-empty lists of code and markdown cells that are stripped and hold no label |
| Notebook.SplitMarkdownThenCode | main.py:380 | a markdown label, its text, a code label and its text split into exactly those five pieces |
| Notebook.ParseMarkdownThenCode | main.py:378-392 | such text parses into one markdown cell and one code cell with the given sources |
| Tools.TruncateShort | main.py:339-343 | content within 65536 characters is returned unchanged |
| Tools.TruncateLong | main.py:339-341 | longer content is returned as exactly its first 65536 characters followed by the warning |
| Tools.TruncateIdempotent | main.py:339-343 | truncating an already truncated reply changes nothing |
| Tools.ReadFileContent | main.py:249-347 | the reader, with its cell, chapter and page loops, returns exactly the reply of the gates, the reader for the extension and the truncation |
| Tools.ReadGateOrder | main.py:256-266 | reading checks the extension, then traversal, then existence, and each failing gate returns its own error |
| Tools.ReadNewlines | main.py:336-337 | text-mode reading (universal newlines) turns each `\r\n` and each lone `\r` into `\n`: the result holds no `\r` and is no longer than the file |
| Tools.ReadNewlinesPlain | main.py:336-337 | text without a `\r` reads back unchanged |
| Tools.ReadNewlinesIdempotent | main.py:336-337 | reading translated text again changes nothing |
| Tools.ReadNewlinesExample | main.py:336-337 | `a\r\nb\rc` reads as `a\nb\nc` |
| Tools.ReadPlainFile | main.py:335-343 | a `.py` or `.c` file reads as its text with line ends translated, truncated |
| Tools.ReadNotebookFile | main.py:271-287 | a notebook with a code or markdown cell reads as its rendering, truncated |
| Tools.WriteFileContent | main.py:350-405 | the writer, with its notebook parse loop, returns the reply and file system of the gates, confirmation and write |
| Tools.WriteSucceedsExactly | main.py:350-405 | a write succeeds exactly when the extension is editable, the path passes the prefix check, the name is not hidden, the answer is `YES` and nothing is raised; otherwise it is refused and nothing changes |
| Tools.WriteGateOrder | main.py:356-366 | writing and creating check the extension, then traversal, then the hidden name, with each tool's own message |
| Tools.WriteProceeds | main.py:375-401 | a confirmed write stores the file (a notebook as its parsed cells) after creating the parent directories |
| Tools.WriteThenRead | main.py:394-401 | after writing a `.py` or `.c` file, reading it gives the content back with its line ends translated, truncated: the write stores the text as given (POSIX text mode writes `\n` as is), the read translates `\r\n` and `\r` |
| Tools.WriteThenReadPlain | main.py:394-401 | content without a `\r` reads back exactly as written, truncated |
| Tools.WriteNotebookThenRead | main.py:378-395 | writing a notebook in the text form it is read as, then reading it, gives the same text |
| Tools.CreateSucceedsExactly | main.py:408-442 | creating follows the writer's gates with its own messages; otherwise it is refused and nothing changes |
| Tools.CreateProceeds | main.py:432-438 | a confirmed create stores an empty file |
| Tools.CreateThenRead | main.py:432-438 | a freshly created `.py` or `.c` file reads as empty |
| Tools.CreateDirectorySucceedsExactly | main.py:445-471 | creating a directory has no extension gate and succeeds exactly when the path passes the prefix check, is not hidden, is confirmed and nothing is raised |
| Tools.CreateDirectoryKeeps | main.py:464-467 | a created directory exists afterwards and every existing path keeps its contents |
| Tools.DeleteSucceedsExactly | main.py:474-507 | deleting succeeds exactly when the path passes the prefix check, is not hidden, exists, is confirmed and nothing is raised |
| Tools.DirectoryGateOrder | main.py:449-488 | creating a directory and deleting check traversal, then the hidden name, then (deleting only) existence |
| Tools.DeleteRemoves | main.py:497-503 | a delete removes the path and, for a directory, everything below it, and keeps every other path |
| Tools.OnlyYesProceeds | main.py:350-496 | any answer other than `YES` changes nothing for write, create, create-directory and delete; once each tool's earlier gates pass (extension, prefix check, hidden name, and for delete existence) the reply is exactly the `Denied` refusal |
| Tools.WriteConfined | main.py:350-442 | writing and creating never add, remove or change a path that fails the prefix check |
| Tools.CreateDirectoryConfined | main.py:445-471 | creating a directory never touches a path that fails the prefix check |
| Tools.DeleteConfined | main.py:474-507 | deleting never touches a path that fails the prefix check |
| Store.StripTrailingSlashes | main.py:376 | stripping trailing slashes keeps a prefix and removes only slashes |
| Store.Dirname | main.py:376 | the parent of a path that is not all slashes is shorter than the path |
| Store.DirnameInSandbox | main.py:376 | the parent of a path that passes the prefix check passes it too, or is `/` |
| Store.MakeDirs | main.py:376 | `makedirs` keeps every existing path and adds only directories, and the requested one exists afterwards |
| Store.MakeDirsInSandbox | main.py:376 | every directory `makedirs` adds below a sandboxed path passes the prefix check |
| Store.Put | main.py:398-399 | after a write the path holds the new file and every other path is kept |
| Store.RemoveTree | main.py:498-499 | `rmtree` removes exactly the path and everything below it, and keeps the rest unchanged |
| Store.RebaseInjective | main.py:602 | distinct paths below the source are copied or moved to distinct paths |
| Store.RelocatedUnder | main.py:602 | a copied or moved tree lies at or below its destination |
| Store.RelocatedAt | main.py:602 | each copied or moved path holds what its origin held |
| Store.MoveRelocates | main.py:609 | a move to a destination other than the source removes the source and puts its contents at the target, unless the source is the target or below it |
| Store.MoveOntoItself | main.py:609 | `move` accepts a directory moved onto its own path and leaves the file system unchanged |
| Store.MoveIntoOwnSubtree | main.py:609 | `move` refuses a directory moved anywhere into its own subtree |
| Store.TargetInSandbox | main.py:609 | the target of a move into a sandboxed destination passes the prefix check |
| Store.MakeDirsConfined | main.py:376 | `makedirs` below a sandboxed path touches nothing outside |
| Store.PutConfined | main.py:398-399 | writing a sandboxed path touches nothing outside |
| Store.RemoveTreeConfined | main.py:498-499 | removing a sandboxed tree touches nothing outside |
| Store.CopyFileConfined | main.py:604 | copying a file to a sandboxed destination touches nothing outside |
| Store.CopyTreeConfined | main.py:602 | copying a tree to a sandboxed destination touches nothing outside |
| Store.CopyTreeOntoItself | main.py:602 | merging a tree into its own path adds and changes nothing |
| Store.MoveConfined | main.py:609 | moving between sandboxed paths touches nothing outside |
| Replies.FailuresSayError | main.py:256-619 | every refusal and failure text starts with `Error` |
| Replies.SuccessesDoNotSayError | main.py:285-613 | no success text starts with `Error` |
| Clipboard.MarkGateOrder | main.py:510-531 | copy and cut check traversal, then the hidden name, then existence, then the answer, and a refusal changes nothing |
| Clipboard.LastWriterWins | main.py:533-536 | a confirmed copy or cut overwrites the slot with its own path and tag, whatever the slot held |
| Clipboard.PasteGateOrder | main.py:570-588 | paste checks the slot first, then traversal, then the hidden name, then the source's existence, which clears the slot |
| Clipboard.OnlyYesProceeds | main.py:510-595 | without `YES` neither copy, cut nor paste changes the file system, copy and cut keep the slot, paste keeps it unless the source is gone, and paste never succeeds; once the earlier gates pass (prefix check, hidden name, and existence of the path or of the clipboard source, with a non-empty slot for paste) the reply is exactly the `Denied` refusal |
| Clipboard.CopyReachesDest | main.py:600-604 | the copy a confirmed paste performs, when it does not refuse, creates the destination and keeps every existing path |
| Clipboard.CopyThenPaste | main.py:600-606 | after copy then paste, when the copy does not land on itself, the paste succeeds, the source is still there, the destination exists and the slot still holds the copy |
| Clipboard.CopyFileOntoItself | main.py:598-619 | a copied file pasted where it would land on itself (its own path or its own directory) is refused with `copy2`'s same-file error, only the destination's parents are made and the slot keeps the copy |
| Clipboard.CopyDirectoryOntoItself | main.py:598-619 | a copied directory pasted onto its own path fails with the same-file error exactly when its tree holds a file, and otherwise succeeds; either way nothing changes beyond the destination's parents and the slot keeps the copy |
| Clipboard.MoveRelocates | main.py:608-609 | a confirmed paste of a cut to another path removes the source and puts its contents where it lands |
| Clipboard.CutThenPaste | main.py:608-613 | after cut then paste elsewhere, when `move` does not refuse, the source is gone, its contents are where they land, and the slot is cleared |
| Clipboard.CutPasteOntoItself | main.py:598-613 | cutting a directory and pasting it onto its own path reports success, clears the slot and leaves the tree where it was |
| Clipboard.CutIntoOwnSubtree | main.py:598-619 | cutting a directory and pasting it into its own subtree is refused with a paste error, leaves the tree and the slot as they were, and only the destination's parents are made |
| Clipboard.CutPastesOnce | main.py:610-611 | after a cut and a paste that `move` accepts, a second paste finds the clipboard empty |
| Clipboard.StepsKeepSound | main.py:533-611 | the slot only ever holds a path that passed the prefix check |
| Clipboard.PasteConfined | main.py:568-619 | a paste never touches a path that fails the prefix check |
| Clipboard.AgenticGemini.constructor | main.py:23-24 | both clipboard fields start as `None` |
| Clipboard.AgenticGemini.CopyFile | main.py:510-536 | the method updates the two fields exactly as the copy step says |
| Clipboard.AgenticGemini.CutFile | main.py:539-565 | the method updates the two fields exactly as the cut step says |
| Clipboard.AgenticGemini.PasteFile | main.py:568-619 | the method updates the fields and returns the file system exactly as the paste step says |

## Left out

- The agent-running methods of `AgenticGemini` (`run_basic_code_agent`,
  `run_tool_use_chat` and the others) are not part of this model. Neither
  are `web_app.py` and the browser script. They drive a language model and
  a web page.
- Files are values. A notebook is its list of cells, a PDF its outline and
  per-page texts, and a Word document its list of paragraphs. The parsers
  of nbformat, pypdf and python-docx are not modelled.
- A parser that fails is represented by the parameter `failure`, which the
  tool reports as its error text.
- An exception the OS raises once a tool proceeds is a parameter. The
  model assumes the raise comes before any effect. A failure part-way
  through (for example `makedirs` succeeding and the copy then failing)
  leaves partial changes in the source but none in the model.
- Which OS conditions raise is not modelled. Examples are
  `makedirs(exist_ok=True)` on a path that is a file, and `open(…, 'w')`
  on a directory.
- Store.CopyTree: the merge is a map union. `copytree(dirs_exist_ok=True)`
  details are not modelled: file metadata, symlink handling, and errors
  when a file meets a directory. A directory copied into its own subtree
  makes `copytree` walk the copies it is making; the model merges one
  copy of the tree there and reports success.
- Store.CopyRefusal: for a directory copied onto itself, `copytree`'s
  error text is assembled from `copy2`'s message for every file of the
  tree, in directory-listing order. The model's text is that message for
  the directory alone. Python's `repr` quotes a path that holds `'` with `"`,
  which `Store.SameFile` does not reproduce.
- Store.Move: the model computes two of the errors `shutil.move` raises
  (`Store.MoveRefusal`): a destination directory that already holds an
  entry of the source's name, and a directory moved into its own subtree.
  A third is not computed: moving a directory onto an existing file fails
  in the source, and the model replaces the file. An exception passed in
  as `raised` still stands for it.
- Store.MoveRelocates and Clipboard.MoveRelocates require that the source
  is not at or below where it lands. When every path's parent exists,
  `move` refuses such a move anyway, since the landing place then exists
  already. The map does not enforce that parents exist.
- Tools.Decode: a file whose stored value is a notebook, a PDF or a Word
  document, read under a plain-text extension (`.txt`, `.py`, …), is a
  read failure in the model. The source reads the raw file text there
  (the notebook's JSON, for instance), which the model's file values do
  not hold. The converse, a plain-text file read under `.ipynb`, `.pdf` or
  `.docx`, is a parser failure in both.
- The reply `Error: python-docx library not installed. Cannot read .docx
  files.` is not modelled. The model assumes python-docx is installed; its
  absence is part of the environment, not of the file system.
- Symbolic links are not modelled. `os.path.exists` is membership in the
  map.
- Strings.Lower folds only `A`-`Z`. Python's `str.lower` also folds other
  Unicode letters, so the fuzzy search and the chapter search are exact
  only for ASCII names and titles.
- The error text `NotAllowed` shows the readable set in the order it is
  written in the source. Python prints a set in hash order, which the
  model does not reproduce.
- `_paste_file`'s last branch, "Unknown clipboard operation", cannot be
  reached: the tag is always `COPY` or `CUT` once the source is set. The
  model's tag type has only those two values.
- The two clipboard fields are class-level in the source, so they are
  shared by every instance. The model keeps them on one object of the
  class; there is only one agent in a run.
- The confirmation prompt and its `print` are not modelled. The user's
  answer is a parameter.
- Notebook.RenderParseRoundTrip: stated for non-empty lists of code and
  markdown cells whose sources are already stripped and hold no label. A
  raw cell is dropped on reading. A cell with surrounding whitespace loses
  it on writing. A source holding a label splits into several cells.
- Search: the search root's listing is a parameter (`None` for a missing
  root). The walk order is the order of that listing, which `os.walk`
  takes from the OS.
- Pdf: page numbers come from the outline as given (`None` when the page
  lookup raises, which the loop skips). A lookup that returns `None`
  instead of raising (pypdf's answer for a destination it cannot resolve)
  is not modelled: the source then takes that entry as the start and
  fails on `range(None, …)` with "Error reading PDF". The exception pypdf raises for a page
  past the end is represented by its message.
