/**
 * The seekable byte source of freader.go, reduced to its contents and the
 * running count of bytes read; the operating-system file, its size query and
 * the progress log are not modelled.
 */
module FileReading {

  class FileReader {
    /** The bytes of the file; its length is the file's `Size`. */
    const content: string
    /** `bytesRead`: how far into the file the next read starts. */
    var bytesRead: nat

    ghost predicate Valid()
      reads this
    {
      bytesRead <= |content|
    }

    /** freader.go:20-34, a freshly opened file. */
    constructor (content: string)
      ensures Valid() && this.content == content && bytesRead == 0
    {
      this.content := content;
      bytesRead := 0;
    }

    /**
     * freader.go:39-49: fill the buffer from the current position. End of file
     * is reported together with the read that reaches it (and with every read
     * after it).
     */
    method Read(buffer: array<char>) returns (n: nat, eof: bool)
      requires Valid()
      modifies this, buffer
      ensures Valid()
      ensures n == if buffer.Length <= |content| - old(bytesRead) then buffer.Length else |content| - old(bytesRead)
      ensures bytesRead == old(bytesRead) + n
      ensures buffer[..n] == content[old(bytesRead)..bytesRead]
      ensures eof <==> bytesRead == |content|
    {
      n := if buffer.Length <= |content| - bytesRead then buffer.Length else |content| - bytesRead;
      forall i | 0 <= i < n {
        buffer[i] := content[bytesRead + i];
      }
      bytesRead := bytesRead + n;
      eof := bytesRead == |content|;
    }

    /** freader.go:51-56 with `whence == io.SeekCurrent`: move by `offset` bytes. */
    method Seek(offset: int)
      requires Valid() && 0 <= bytesRead + offset <= |content|
      modifies this
      ensures Valid() && bytesRead == old(bytesRead) + offset
    {
      bytesRead := bytesRead + offset;
    }
  }
}
