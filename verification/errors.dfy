/** Failure values shared by the resource scanner and the archive packer.

    The scanner and packer report two kinds of failure: a content hash that
    no longer matches the one recorded at scan time (`FileChanged`), and every
    generic open, stat or read failure of the host (`IoErr`), which is passed
    through unchanged and therefore carries nothing the model can inspect.
 */
module Errors {

  datatype Error = FileChanged(filename: string) | IoErr

  datatype Result<T> = Ok(value: T) | Err(error: Error)

  /** The result of an operation that returns only an error (Go's `error`). */
  datatype Outcome = Pass | Fail(error: Error)

  datatype Option<T> = None | Some(value: T)

  /** Text before the filename in the message of a `FileChanged` error. */
  const FileChangedPrefix: string := "SHA1 mismatch for:"

  /** The message of a `FileChanged` error: the prefix immediately followed
      by the filename, with no separating space (both operands of the
      formatting call are strings). The message names its file: parsing it
      gives the filename back. */
  function FileChangedMessage(filename: string): (m: string)
    ensures ParseFileChangedMessage(m) == Some(filename)
  {
    FileChangedPrefix + filename
  }

  /** Recovers the filename from a `FileChanged` message, if it is one. */
  function ParseFileChangedMessage(m: string): (r: Option<string>)
    ensures r.Some? <==> |FileChangedPrefix| <= |m| && m[..|FileChangedPrefix|] == FileChangedPrefix
  {
    if |FileChangedPrefix| <= |m| && m[..|FileChangedPrefix|] == FileChangedPrefix
    then Some(m[|FileChangedPrefix|..])
    else None
  }

  /** Conversely, every message that parses is the message of the file it names,
      so two different files never share a message. */
  lemma ParsedMessageIsFileChangedMessage(m: string, filename: string)
    requires ParseFileChangedMessage(m) == Some(filename)
    ensures FileChangedMessage(filename) == m
  {
  }
}
