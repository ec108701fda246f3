/**
 * The file system as the executor sees it through `File.ReadAllText`, `File.WriteAllText`
 * and `File.AppendAllText`: a map from paths to contents, plus the paths at which the host
 * raises an error on reading and those at which it raises one on writing (with the error's
 * message). A read-only file is readable but in `writeFaults`. Encoding and directories are
 * not modelled.
 */
module Files {
  import opened Wrappers

  datatype FileStore = FileStore(contents: map<string, string>, readFaults: map<string, string>,
                                 writeFaults: map<string, string>)

  /** The message of `FileNotFoundException` for a missing file. */
  function MissingFile(path: string): string {
    "Could not find file '" + path + "'."
  }

  /** `File.ReadAllText`. */
  function ReadText(fs: FileStore, path: string): Result<string, string> {
    if path in fs.readFaults then Err(fs.readFaults[path])
    else if path in fs.contents then Ok(fs.contents[path])
    else Err(MissingFile(path))
  }

  /** `File.WriteAllText`: creates or replaces the file. */
  function WriteText(fs: FileStore, path: string, text: string): Result<FileStore, string> {
    if path in fs.writeFaults then Err(fs.writeFaults[path])
    else Ok(fs.(contents := fs.contents[path := text]))
  }

  /** The text of a file, empty when it does not exist. */
  function ContentsOrEmpty(fs: FileStore, path: string): string {
    if path in fs.contents then fs.contents[path] else ""
  }

  /** `File.AppendAllText`: the old text (empty for a new file) followed by `text`, with
      nothing in between. */
  function AppendText(fs: FileStore, path: string, text: string): Result<FileStore, string> {
    if path in fs.writeFaults then Err(fs.writeFaults[path])
    else Ok(fs.(contents := fs.contents[path := ContentsOrEmpty(fs, path) + text]))
  }

  /** A successful write is read back as written unless the host refuses to read the file,
      and no other file changes. */
  lemma WriteThenRead(fs: FileStore, path: string, text: string, other: string)
    requires WriteText(fs, path, text).Ok?
    ensures ReadText(WriteText(fs, path, text).value, path)
            == if path in fs.readFaults then Err(fs.readFaults[path]) else Ok(text)
    ensures other != path ==> ReadText(WriteText(fs, path, text).value, other) == ReadText(fs, other)
  {
  }

  /** A successful append is read back as the old text followed by the new text unless the
      host refuses to read the file, and no other file changes. */
  lemma AppendThenRead(fs: FileStore, path: string, text: string, other: string)
    requires AppendText(fs, path, text).Ok?
    ensures ReadText(AppendText(fs, path, text).value, path)
            == if path in fs.readFaults then Err(fs.readFaults[path]) else Ok(ContentsOrEmpty(fs, path) + text)
    ensures other != path ==> ReadText(AppendText(fs, path, text).value, other) == ReadText(fs, other)
  {
  }

  /** Writing and appending fail at the same paths: where the host raises a write error.
      Reading fails where it raises a read error and at missing files. */
  lemma WriteFailures(fs: FileStore, path: string, text: string)
    ensures WriteText(fs, path, text).Err? <==> path in fs.writeFaults
    ensures AppendText(fs, path, text).Err? <==> path in fs.writeFaults
    ensures ReadText(fs, path).Err? <==> path in fs.readFaults || path !in fs.contents
  {
  }

  /** The host's file system, which the executor changes in place. */
  class FileSystem {
    var store: FileStore

    constructor(store: FileStore)
      ensures this.store == store
    {
      this.store := store;
    }

    method ReadAllText(path: string) returns (r: Result<string, string>)
      ensures r == ReadText(store, path)
    {
      r := ReadText(store, path);
    }

    /** Writes the file; the error message when the host raises one. */
    method WriteAllText(path: string, text: string) returns (error: Option<string>)
      modifies this
      ensures var w := WriteText(old(store), path, text);
        if w.Ok? then store == w.value && error == None else store == old(store) && error == Some(w.error)
    {
      var w := WriteText(store, path, text);
      if w.Ok? {
        store := w.value;
        error := None;
      } else {
        error := Some(w.error);
      }
    }

    /** Appends to the file; the error message when the host raises one. */
    method AppendAllText(path: string, text: string) returns (error: Option<string>)
      modifies this
      ensures var w := AppendText(old(store), path, text);
        if w.Ok? then store == w.value && error == None else store == old(store) && error == Some(w.error)
    {
      var w := AppendText(store, path, text);
      if w.Ok? {
        store := w.value;
        error := None;
      } else {
        error := Some(w.error);
      }
    }
  }
}
