/** An open binary file as the store drives it: its bytes and a cursor,
    moved by `seek` and `tell`, advanced by `read` and `write`. */
module ByteFiles {
  import opened Bytes

  class ByteFile {
    var content: seq<byte>
    var cursor: nat

    /** A file opened on `initial`, with the cursor at its start. */
    constructor (initial: seq<byte>)
      ensures content == initial && cursor == 0
    {
      content := initial;
      cursor := 0;
    }

    /** `seek(pos, :SET)` */
    method Seek(pos: nat)
      modifies this`cursor
      ensures cursor == pos
    {
      cursor := pos;
    }

    /** `seek(delta, :CUR)` */
    method SeekForward(delta: nat)
      modifies this`cursor
      ensures cursor == old(cursor) + delta
    {
      cursor := cursor + delta;
    }

    /** `seek(0, :END)` */
    method SeekEnd()
      modifies this`cursor
      ensures cursor == |content|
    {
      cursor := |content|;
    }

    method Tell() returns (pos: nat)
      ensures pos == cursor
    {
      pos := cursor;
    }

    /** `write(bytes)`: replaces the bytes under the cursor, extending the
        file past its end, and leaves the cursor after them. */
    method Write(bytes: seq<byte>)
      modifies this
      ensures content == Overwrite(old(content), old(cursor), bytes)
      ensures cursor == old(cursor) + |bytes|
    {
      content := Overwrite(content, cursor, bytes);
      cursor := cursor + |bytes|;
    }

    /** `read(n)`: at most `n` bytes from the cursor on; fewer when the file
        ends first, none when the cursor is at or past the end. */
    method Read(n: nat) returns (bytes: seq<byte>)
      modifies this`cursor
      ensures old(cursor) + n <= |content| ==>
        bytes == content[old(cursor)..old(cursor) + n] && cursor == old(cursor) + n
      ensures old(cursor) + n > |content| ==> |bytes| < n || n == 0
      ensures |bytes| <= n
    {
      if cursor + n <= |content| {
        bytes := content[cursor..cursor + n];
        cursor := cursor + n;
      } else if cursor <= |content| {
        bytes := content[cursor..];
        cursor := |content|;
      } else {
        bytes := [];
      }
    }
  }
}
