/**
 * The exceptions the library raises, as values.  `Runtime` is the library's own
 * RuntimeException, which carries a message and the path it concerns; the other
 * kinds are the exception classes that carry no data the callers read.
 */
module Errors {
  datatype Failure =
    | Runtime(message: string, path: string)  // Stalxed\FileSystem\Exception\RuntimeException
    | PathNotFound                            // a path that is neither a file nor a directory
    | DirectoryNotFound
    | FileNotFound
    | PermissionDenied
    | Logic                                   // a file handled as a directory, or the reverse
    | UnexpectedValue                         // the iterator over a directory could not open it
    | SplRuntime                              // SPL's RuntimeException: a file it cannot open, an empty directory name
  {
    /** The text of the exception.  Only the library's own RuntimeException composes it. */
    function Text(): string
    {
      if Runtime? then GenerateMessage(message, path) else ""
    }
  }

  datatype Result<T> = Ok(value: T) | Err(error: Failure)

  const PathLabel: string := " Path: "

  /** The message of a RuntimeException: the given text, followed by the path when there is one. */
  function GenerateMessage(message: string, path: string): (r: string)
    ensures |r| >= |message| && r[..|message|] == message
    ensures path == "" ==> r == message
    ensures path != "" ==> |r| == |message| + |PathLabel| + |path| + 1 && r[|r| - 1] == '.'
  {
    if path != "" then message + PathLabel + path + "." else message
  }

  /** Reads the path back out of a generated message whose leading text is known. */
  function PathOfMessage(message: string, text: string): string
  {
    if |text| >= |message| + |PathLabel| + 1 then text[|message| + |PathLabel|..|text| - 1] else ""
  }

  /** The path the exception was given is read back from its message: getMessage() names exactly that path. */
  lemma {:induction false} MessageKeepsPath(message: string, path: string)
    ensures PathOfMessage(message, GenerateMessage(message, path)) == path
  {
    var text := GenerateMessage(message, path);
    if path != "" {
      assert text == message + PathLabel + path + ".";
      assert text[|message| + |PathLabel|..|text| - 1] == path;
    }
  }

  /** No two paths give the same message for the same text. */
  lemma MessagesDiffer(message: string, p1: string, p2: string)
    requires p1 != p2
    ensures GenerateMessage(message, p1) != GenerateMessage(message, p2)
  {
    MessageKeepsPath(message, p1);
    MessageKeepsPath(message, p2);
  }
}
