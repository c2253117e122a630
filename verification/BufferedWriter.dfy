/** The buffered file writer (t_file_bufwrite). */
module BufferedWriter {
  import opened Bytes
  import opened Sequences

  const BUFFER_SIZE := 1024

  /** The file behind the handle. A write may fail or store only a beginning of the data. */
  class File {
    var contents: seq<byte>
    var incomplete: nat       // how many writes did not store everything

    constructor ()
      ensures contents == [] && incomplete == 0
    {
      contents, incomplete := [], 0;
    }

    /** `WriteFile`: any outcome is possible. */
    method WriteFile(data: seq<byte>) returns (ok: bool, written: nat)
      modifies this
      ensures written <= |data| && contents == old(contents) + data[..written]
      ensures incomplete == old(incomplete) + if ok && written == |data| then 0 else 1
    {
      ok := *;
      written :| 0 <= written <= |data|;
      contents := contents + data[..written];
      if !ok || written != |data| { incomplete := incomplete + 1; }
    }
  }

  class FileBufWrite {
    var file: File?
    const buf: array<byte>
    var bufcont: nat
    var error: bool
    ghost var stream: seq<byte>     // the file at the start and everything written since
    ghost var incompleteAtStart: nat

    /** The buffer is never full. The error flag tells whether a write to the file was not complete; as long as there is
        no error, the file and the buffer together hold everything that was written. */
    ghost predicate Started()
      reads this, file, buf
    {
      && file != null && buf.Length == BUFFER_SIZE && bufcont < BUFFER_SIZE
      && incompleteAtStart <= file.incomplete && (error <==> incompleteAtStart < file.incomplete)
      && (!error ==> file.contents + buf[..bufcont] == stream)
    }

    constructor ()
      ensures buf.Length == BUFFER_SIZE && fresh(buf) && file == null
    {
      file := null;
      buf := new byte[BUFFER_SIZE];
    }

    method Start(f: File)
      requires buf.Length == BUFFER_SIZE
      modifies this
      ensures Started() && file == f && !error && stream == f.contents
    {
      file, bufcont, error := f, 0, false;
      stream, incompleteAtStart := f.contents, f.incomplete;
    }

    predicate IsError()
      reads this
    {
      error
    }

    /** Sends data to the file and remembers a failure. */
    method Send(data: seq<byte>)
      requires Started()
      modifies this`error, file
      ensures file.incomplete >= old(file.incomplete)
      ensures error <==> old(error) || file.incomplete > old(file.incomplete)
      ensures !error ==> file.contents == old(file.contents) + data
    {
      var ok, written := file.WriteFile(data);
      if !ok || written != |data| { error := true; }
      assert written == |data| ==> data[..written] == data;
    }

    /** Empties the buffer. Without an error the file then holds everything. */
    method Flush()
      requires Started()
      modifies this`error, this`bufcont, file
      ensures Started() && bufcont == 0
      ensures old(error) ==> error
      ensures !error ==> file.contents == stream
    {
      Send(buf[..bufcont]);
      bufcont := 0;
      assert buf[..0] == [];
    }

    /** Appends to the buffer; the caller has made sure that it fits. */
    method Store(data: seq<byte>)
      requires Started() && bufcont + |data| < BUFFER_SIZE
      modifies this`bufcont, this`stream, buf
      ensures Started() && stream == old(stream) + data && error == old(error)
    {
      forall i | 0 <= i < |data| { buf[bufcont + i] := data[i]; }
      assert buf[..bufcont + |data|] == old(buf[..bufcont]) + data;
      bufcont := bufcont + |data|;
      stream := stream + data;
    }

    method Write(data: seq<byte>)
      requires Started()
      modifies this`error, this`bufcont, this`stream, buf, file
      ensures Started() && stream == old(stream) + data
      ensures old(error) ==> error
    {
      if |data| < BUFFER_SIZE - bufcont {
        Store(data);
      } else {
        Flush();
        if |data| < BUFFER_SIZE {
          Store(data);
        } else {
          Send(data);
          stream := stream + data;
          assert buf[..0] == [];
        }
      }
    }
  }

  /** Whatever way a stream of bytes is cut into writes, without an error the file finally holds the stream, as if it had
      been written at once. */
  method WriteAll(writer: FileBufWrite, f: File, pieces: seq<seq<byte>>)
    requires writer.buf.Length == BUFFER_SIZE
    modifies writer, writer.buf, f
    ensures writer.IsError() <==> f.incomplete > old(f.incomplete)
    ensures !writer.IsError() ==> f.contents == old(f.contents) + Flatten(pieces)
  {
    writer.Start(f);
    assert pieces[..0] == [];
    for i := 0 to |pieces|
      invariant writer.Started() && writer.file == f
      invariant writer.incompleteAtStart == old(f.incomplete)
      invariant writer.stream == old(f.contents) + Flatten(pieces[..i])
    {
      assert pieces[..i + 1] == pieces[..i] + [pieces[i]];
      FlattenSnoc(pieces[..i], pieces[i]);
      writer.Write(pieces[i]);
    }
    assert pieces[..|pieces|] == pieces;
    writer.Flush();
  }
}
