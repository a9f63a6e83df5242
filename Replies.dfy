/**
 * Every reply the file tools return, one constructor per message, and the
 * exact text each one is shown as. The tools are stated in terms of the
 * constructors; `Message` is the one place that spells the texts out.
 */
module Replies {
  import opened Strings

  /** What a tool answers: file content, a success report, or a refusal or failure. */
  datatype Reply = Content(text: string) | Done(success: Success) | Refused(failure: Failure)

  datatype Success =
    | NoCells                         // a notebook with no cells, when read
    | Wrote(path: string)             // _write_file_content
    | Created(path: string)           // _create_file
    | DirectoryCreated(path: string)  // _create_directory
    | Deleted(path: string)           // _delete_item
    | CopiedToClipboard(path: string) // _copy_file
    | CutToClipboard(path: string)    // _cut_file
    | PastedCopy(path: string)        // _paste_file
    | PastedMove(path: string)

  datatype Failure =
    // _read_file_content
    | NotAllowed(ext: string)
    | Traversal
    | FileNotFound(path: string)
    | ChapterMissing(chapter: string)
    | ReadFailed(error: string)
    | PdfFailed(error: string)
    // _write_file_content
    | NotWritable(ext: string)
    | HiddenEdit
    | Denied
    | WriteFailed(error: string)
    // _create_file
    | CannotCreate(ext: string)
    | HiddenCreate
    | CreateFailed(error: string)
    // _create_directory
    | HiddenDirectory
    | DirectoryFailed(error: string)
    // _delete_item
    | HiddenDelete
    | PathNotFound(path: string)
    | DeleteFailed(error: string)
    // _copy_file, _cut_file, _paste_file
    | HiddenCopy
    | HiddenCut
    | ClipboardEmpty
    | HiddenPaste
    | SourceGone
    | PasteFailed(error: string)

  /** The readable set as the error message shows it (see README). */
  const ReadableShown: string :=
    "{'.py', '.c', '.ipynb', '.txt', '.md', '.json', '.csv', '.html', '.css', '.js', '.docx', '.pdf'}"

  /** The text of a success report. */
  function SuccessText(s: Success): string {
    match s
    case NoCells => "Notebook contains no cells."
    case Wrote(path) => "Successfully wrote to " + path
    case Created(path) => "Successfully created file " + path
    case DirectoryCreated(path) => "Successfully created directory " + path
    case Deleted(path) => "Successfully deleted " + path
    case CopiedToClipboard(path) => "Item copied to clipboard: " + path + ". Use paste_file to complete operation."
    case CutToClipboard(path) => "Item cut to clipboard: " + path + ". Use paste_file to complete operation."
    case PastedCopy(path) => "Successfully copied to " + path
    case PastedMove(path) => "Successfully moved to " + path
  }

  /** What a failure's text says after its first word, `Error`. */
  function Detail(e: Failure): string {
    match e
    case NotAllowed(ext) => ": File type " + ext + " is not allowed. Supported types: " + ReadableShown
    case Traversal => ": Path traversal detected. Access denied."
    case FileNotFound(path) => ": File not found at path: " + path
    case ChapterMissing(chapter) => ": Chapter \"" + chapter + "\" not found in PDF outline."
    case ReadFailed(error) => " reading file: " + error
    case PdfFailed(error) => " reading PDF: " + error
    case NotWritable(ext) => ": File type " + ext + " is not writable. Only .py, .c, and .ipynb are editable."
    case HiddenEdit => ": Cannot edit hidden files."
    case Denied => ": User denied the operation."
    case WriteFailed(error) => " writing file: " + error
    case CannotCreate(ext) => ": Cannot create file type " + ext + ". Only .py, .c, and .ipynb are supported for creation."
    case HiddenCreate => ": Cannot create hidden files."
    case CreateFailed(error) => " creating file: " + error
    case HiddenDirectory => ": Cannot create hidden directories."
    case DirectoryFailed(error) => " creating directory: " + error
    case HiddenDelete => ": Cannot delete hidden files or directories."
    case PathNotFound(path) => ": Path not found: " + path
    case DeleteFailed(error) => " deleting item: " + error
    case HiddenCopy => ": Cannot copy hidden files or directories."
    case HiddenCut => ": Cannot cut hidden files or directories."
    case ClipboardEmpty => ": Clipboard is empty. Use copy_file or cut_file first."
    case HiddenPaste => ": Cannot paste to hidden files or directories."
    case SourceGone => ": Source item no longer exists."
    case PasteFailed(error) => " pasting item: " + error
  }

  /** The text of a reply, exactly as the tool returns it. */
  function Message(r: Reply): string {
    match r
    case Content(text) => text
    case Done(s) => SuccessText(s)
    case Refused(e) => "Error" + Detail(e)
  }

  /** Every refusal and failure is shown as a text starting with `Error`. */
  lemma FailuresSayError(e: Failure)
    ensures StartsWith(Message(Refused(e)), "Error")
  {
    assert ("Error" + Detail(e))[..5] == "Error";
  }

  lemma NotErrorThen(a: string, b: string)
    requires a != [] && a[0] != 'E'
    ensures !StartsWith(a + b, "Error")
  {
    assert (a + b)[0] == a[0];
  }

  /** No success report starts with `Error`. */
  lemma SuccessesDoNotSayError(s: Success)
    ensures !StartsWith(Message(Done(s)), "Error")
  {
    match s
    case NoCells => NotErrorThen("Notebook contains no cells.", "");
    case Wrote(p) => NotErrorThen("Successfully wrote to ", p);
    case Created(p) => NotErrorThen("Successfully created file ", p);
    case DirectoryCreated(p) => NotErrorThen("Successfully created directory ", p);
    case Deleted(p) => NotErrorThen("Successfully deleted ", p);
    case CopiedToClipboard(p) =>
      NotErrorThen("Item copied to clipboard: " + p, ". Use paste_file to complete operation.");
    case CutToClipboard(p) =>
      NotErrorThen("Item cut to clipboard: " + p, ". Use paste_file to complete operation.");
    case PastedCopy(p) => NotErrorThen("Successfully copied to ", p);
    case PastedMove(p) => NotErrorThen("Successfully moved to ", p);
  }
}
