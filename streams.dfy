/** The two file objects the fix script works on: the input keyring opened for
    reading and the output keyring opened for writing, both in binary mode.
    Only the calls the script makes are modelled: `read(n)` and `tell()` on the
    input, `write(b)` and `tell()` on the output.  The file contents are given
    up front; opening, closing and the operating system are not modelled.
 */
module Streams {
  import opened Bytes
  import opened KeyFormat

  /** An input file: its contents, the current position, and the largest
      count a `read` can serve (see `KeyFormat.READ_LIMIT`). */
  class Reader {
    const data: seq<byte>
    const limit: nat
    var pos: nat

    ghost predicate Valid()
      reads this
    {
      pos <= |data| && ValidLimit(limit)
    }

    /** A freshly opened file, positioned at its first byte. */
    constructor (contents: seq<byte>, limit: nat)
      requires ValidLimit(limit)
      ensures Valid()
      ensures data == contents && this.limit == limit && pos == 0
    {
      data := contents;
      this.limit := limit;
      pos := 0;
    }

    /** `read(n)`: up to `n` bytes from the position on, fewer when the file
        ends first (none at the end), with the position moved past them.  A
        count beyond `limit` raises before anything is read: `ok` is false,
        and the position does not move. */
    method Read(n: nat) returns (b: seq<byte>, ok: bool)
      requires Valid()
      modifies this
      ensures Valid()
      ensures ok <==> n <= limit
      ensures ok ==> pos == ReadEnd(data, old(pos), n) && b == data[old(pos)..pos]
      ensures !ok ==> pos == old(pos) && b == []
    {
      if n > limit {
        return [], false;
      }
      var end := if pos + n <= |data| then pos + n else |data|;
      b := data[pos..end];
      pos := end;
      ok := true;
    }

  /** `tell()`: the current position. */
    method Tell() returns (t: nat)
      ensures t == pos
    {
      t := pos;
    }
  }

  /** An output file opened empty: everything written so far. */
  class Writer {
    var out: seq<byte>

    constructor ()
      ensures out == []
    {
      out := [];
    }

    /** `write(b)`: appends `b`. */
    method Write(b: seq<byte>)
      modifies this
      ensures out == old(out) + b
    {
      out := out + b;
    }

    /** `tell()`: the offset the next write goes to. */
    method Tell() returns (t: nat)
      ensures t == |out|
    {
      t := |out|;
    }
  }
}
