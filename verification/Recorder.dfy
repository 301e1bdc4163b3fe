/**
 The buffered recorder of cinst/native/recorder.hpp: a fixed array of records in
 front of a binary file that is opened on the first flush.  A record is its bytes.
 */
module Recorder {
  import opened Machine
  import opened Layout
  import opened Sequences

  class BufferedRecorder {
    const size: nat
    const limit: nat
    const buffer: array<Bytes>
    var pos: nat
    var fout: Option<Bytes>
    ghost var added: seq<Bytes>
    ghost var flushed: seq<Bytes>

    /** The file's records followed by the live part of the buffer are everything added so far. */
    ghost predicate Valid()
      reads this, buffer
    {
      && 1 <= limit == buffer.Length && pos <= limit
      && Sized(added, size)
      && added == flushed + buffer[..pos]
      && (match fout case None => flushed == [] case Some(bytes) => bytes == Concat(flushed))
    }

    constructor (limit: nat, size: nat)
      requires limit >= 1
      ensures Valid() && this.size == size && this.limit == limit && fresh(buffer)
      ensures added == [] && fout == None
    {
      this.size := size;
      this.limit := limit;
      buffer := new Bytes[limit](_ => []);
      pos := 0;
      fout := None;
      added, flushed := [], [];
    }

    method SyncBin()
      requires Valid()
      modifies this
      ensures Valid() && pos == 0 && added == old(added)
      ensures fout == Some(Concat(added))
    {
      if fout == None {
        fout := Some([]);
      }
      ConcatSplit(flushed, buffer[..pos]);
      fout := Some(fout.value + Concat(buffer[..pos]));
      flushed := added;
      pos := 0;
    }

    method Add(r: Bytes)
      requires Valid() && |r| == size
      modifies this, buffer
      ensures Valid() && added == old(added) + [r]
      ensures old(pos) < limit ==> fout == old(fout) && pos == old(pos) + 1
      ensures old(pos) >= limit ==> fout == Some(Concat(old(added))) && pos == 1
    {
      if pos >= limit {
        SyncBin();
      }
      buffer[pos] := r;
      pos := pos + 1;
      added := added + [r];
      assert buffer[..pos - 1] == old(buffer[..])[..pos - 1];
    }

    /** The destructor; a file is left behind exactly if something was flushed or is left to flush. */
    method Destroy()
      requires Valid()
      modifies this
      ensures Valid() && added == old(added)
      ensures fout == if old(fout) == None && added == [] then None else Some(Concat(added))
    {
      if pos != 0 {
        SyncBin();
      } else {
        assert added == flushed;
      }
    }
  }
}
