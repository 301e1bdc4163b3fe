/** The in-place file transformer of record_reader.hpp. */
module StdioTransform {
  import opened Machine
  import opened Layout
  import opened Sequences

  // Read a bufferful of records, rewrite them, seek back by what was read, write them
  // out.  Files are bytes, so that a file ending inside a record is covered too.

  // ---------------------------------------- counting bytes record by record

  /** The bytes of `n` records. */
  function Span(n: nat, size: nat): nat { if n == 0 then 0 else Span(n - 1, size) + size }

  /** The complete records in `len` bytes, and the bytes after them. */
  function Whole(len: nat, size: nat): nat
    requires 1 <= size
  {
    if len < size then 0 else 1 + Whole(len - size, size)
  }

  function Rest(len: nat, size: nat): nat
    requires 1 <= size
  {
    if len < size then len else Rest(len - size, size)
  }

  lemma {:induction false} SpanIsProduct(n: nat, size: nat)
    ensures Span(n, size) == n * size
  {
    if n > 0 {
      SpanIsProduct(n - 1, size);
      assert n * size == (n - 1) * size + size;
    }
  }

  lemma {:induction false} WholeAndRest(len: nat, size: nat)
    requires 1 <= size
    ensures Rest(len, size) < size && len == Span(Whole(len, size), size) + Rest(len, size)
    decreases len
  {
    if len >= size { WholeAndRest(len - size, size); }
  }

  lemma {:induction false} WholeOf(n: nat, r: nat, size: nat)
    requires 1 <= size && r < size
    ensures Whole(Span(n, size) + r, size) == n && Rest(Span(n, size) + r, size) == r
  {
    if n > 0 { WholeOf(n - 1, r, size); }
  }

  lemma {:induction false} SpanMonotone(m: nat, n: nat, size: nat)
    requires m <= n
    ensures Span(m, size) <= Span(n, size) && (m < n ==> Span(m, size) + size <= Span(n, size))
  {
    if m < n { SpanMonotone(m, n - 1, size); }
  }

  /** They are quotient and remainder. */
  lemma {:induction false} WholeIsQuotient(len: nat, size: nat)
    requires 1 <= size
    ensures Whole(len, size) == len / size && Rest(len, size) == len % size
  {
    WholeAndRest(len, size);
    SpanIsProduct(Whole(len, size), size);
    DivOf(Whole(len, size), Rest(len, size), size);
  }

  // ---------------------------------------------------------------- stdio

  /** `bs` written over `content` from `pos` on. */
  function Overwritten(content: Bytes, pos: nat, bs: Bytes): Bytes
    requires pos <= |content|
  {
    content[..pos] + bs + if pos + |bs| < |content| then content[pos + |bs|..] else []
  }

  /** The complete records at the front of `bs`. */
  function Records(bs: Bytes, size: nat): (images: seq<Bytes>)
    requires 1 <= size
    ensures |images| == Whole(|bs|, size)
  {
    if |bs| < size then [] else [bs[..size]] + Records(bs[size..], size)
  }

  lemma {:induction false} RecordsConcat(bs: Bytes, size: nat)
    requires 1 <= size
    ensures Rest(|bs|, size) <= |bs|
    ensures Sized(Records(bs, size), size) && Concat(Records(bs, size)) == bs[..|bs| - Rest(|bs|, size)]
    decreases |bs|
  {
    if |bs| >= size {
      var tail := bs[size..];
      RecordsConcat(tail, size);
      ConcatFirst(bs[..size], Records(tail, size));
      assert bs[..size] + tail[..|tail| - Rest(|tail|, size)] == bs[..|bs| - Rest(|bs|, size)];
    }
  }

  function AtMost(x: nat, max: nat): nat { if x < max then x else max }

  class StdioFile {
    var content: Bytes
    var pos: nat
    var eof: bool

    ghost predicate Valid()
      reads this
    {
      pos <= |content|
    }

    function Unread(): Bytes
      requires Valid()
      reads this
    {
      content[pos..]
    }

    /** Whole records are counted; the bytes of a partial last one are consumed all the same. */
    method Fread(buffer: array<Bytes>, size: nat, n: nat) returns (count: nat)
      requires Valid() && 1 <= size && n <= buffer.Length
      modifies this, buffer
      ensures Valid() && content == old(content)
      ensures var bytes := AtMost(|old(Unread())|, Span(n, size));
              && pos == old(pos) + bytes && count == Whole(bytes, size) <= n
              && eof == (old(eof) || bytes < Span(n, size))
              && Rest(bytes, size) <= bytes
              && Sized(buffer[..count], size)
              && Concat(buffer[..count]) == old(Unread())[..bytes - Rest(bytes, size)]
    {
      var bytes := AtMost(|Unread()|, Span(n, size));
      var taken := Unread()[..bytes];
      var images := Records(taken, size);
      RecordsConcat(taken, size);
      CountFits(bytes, n, size);
      count := |images|;
      forall i | 0 <= i < count {
        buffer[i] := images[i];
      }
      assert buffer[..count] == images;
      pos := pos + bytes;
      eof := eof || bytes < Span(n, size);
    }

    method Fseek(delta: int)
      requires Valid() && 0 <= pos + delta <= |content|
      modifies this
      ensures Valid() && content == old(content) && pos == old(pos) + delta && !eof
    {
      pos := pos + delta;
      eof := false;
    }

    method Fwrite(buffer: array<Bytes>, count: nat)
      requires Valid() && count <= buffer.Length
      modifies this
      ensures Valid() && eof == old(eof)
      ensures content == Overwritten(old(content), old(pos), Concat(buffer[..count]))
      ensures pos == old(pos) + |Concat(buffer[..count])|
    {
      var bs := Concat(buffer[..count]);
      content := Overwritten(content, pos, bs);
      pos := pos + |bs|;
    }
  }

  lemma {:induction false} CountFits(bytes: nat, n: nat, size: nat)
    requires 1 <= size && bytes <= Span(n, size)
    ensures Whole(bytes, size) <= n
  {
    WholeAndRest(bytes, size);
    if n < Whole(bytes, size) { SpanMonotone(n, Whole(bytes, size), size); }
  }

  /** The offset handed to fseek: `-count * sizeof(T)`, where the int turns into a 64-bit unsigned before the product. */
  function SeekOffset(count: nat, size: nat): int {
    var wrapped := ((TWO_64 - count) * size) % TWO_64;
    if wrapped < TWO_64 / 2 then wrapped else wrapped - TWO_64
  }

  /** The wrap-around cancels out: it is minus the bytes read, for any count and size whose product fits. */
  lemma {:induction false} SeekOffsetIsMinus(count: nat, size: nat)
    requires Span(count, size) <= TWO_64 / 2
    ensures SeekOffset(count, size) == 0 - Span(count, size)
  {
    SpanIsProduct(count, size);
    var x := count * size;
    assert (TWO_64 - count) * size == TWO_64 * size - x;
    if x == 0 {
      DivOf(size, 0, TWO_64);
    } else if size > 0 {
      assert TWO_64 * size - x == (size - 1) * TWO_64 + (TWO_64 - x);
      DivOf(size - 1, TWO_64 - x, TWO_64);
    }
  }

  // ---------------------------------------------------------- transformers

  type Transformer = Bytes -> Bytes

  ghost predicate Keeps(f: Transformer, size: nat) {
    forall b: Bytes :: |b| == size ==> |f(b)| == size
  }

  ghost predicate AllKeep(fs: seq<Transformer>, size: nat) {
    forall i :: 0 <= i < |fs| ==> Keeps(fs[i], size)
  }

  /** Every transformer in registration order. */
  function Compose(fs: seq<Transformer>, b: Bytes): Bytes {
    if fs == [] then b else fs[|fs| - 1](Compose(fs[..|fs| - 1], b))
  }

  lemma {:induction false} ComposeKeeps(fs: seq<Transformer>, size: nat, b: Bytes)
    requires AllKeep(fs, size) && |b| == size
    ensures |Compose(fs, b)| == size
  {
    if fs != [] {
      ComposeKeeps(fs[..|fs| - 1], size, b);
      assert Keeps(fs[|fs| - 1], size);
    }
  }

  /** `b` taken through every transformer, one after the other, in the order they were registered. */
  ghost predicate Chain(fs: seq<Transformer>, b: Bytes, states: seq<Bytes>) {
    && |states| == |fs| + 1 && states[0] == b
    && forall i :: 0 <= i < |fs| ==> states[i + 1] == fs[i](states[i])
  }

  /** `c` is where that ends. */
  ghost predicate Applied(fs: seq<Transformer>, b: Bytes, c: Bytes) {
    exists states :: Chain(fs, b, states) && states[|fs|] == c
  }

  /** Every registered transformer is applied, exactly once, and in order. */
  lemma {:induction false} ComposeApplies(fs: seq<Transformer>, b: Bytes) returns (states: seq<Bytes>)
    ensures Chain(fs, b, states) && states[|fs|] == Compose(fs, b)
  {
    if fs == [] {
      states := [b];
    } else {
      var k := |fs| - 1;
      var before := ComposeApplies(fs[..k], b);
      states := before + [Compose(fs, b)];
      assert forall i :: 0 <= i < k ==> before[i + 1] == fs[..k][i](before[i]);
    }
  }

  /** Record by record. */
  ghost predicate AllApplied(fs: seq<Transformer>, was: seq<Bytes>, now: seq<Bytes>) {
    |now| == |was| && forall i :: 0 <= i < |was| ==> Applied(fs, was[i], now[i])
  }

  /** The specification: each complete record of `bs` rewritten. */
  function Mapped(fs: seq<Transformer>, size: nat, bs: Bytes): Bytes {
    if size == 0 || |bs| < size then [] else Compose(fs, bs[..size]) + Mapped(fs, size, bs[size..])
  }

  /** Rewriting is record-wise: of each complete record, every transformer in turn. */
  lemma {:induction false} MappedApplies(fs: seq<Transformer>, size: nat, bs: Bytes) returns (now: seq<Bytes>)
    requires 1 <= size
    ensures AllApplied(fs, Records(bs, size), now) && Mapped(fs, size, bs) == Concat(now)
    decreases |bs|
  {
    if |bs| < size {
      now := [];
    } else {
      var x := Compose(fs, bs[..size]);
      var states := ComposeApplies(fs, bs[..size]);
      var later := MappedApplies(fs, size, bs[size..]);
      ConcatFirst(x, later);
      now := [x] + later;
      var was := Records(bs, size);
      assert was[0] == bs[..size] && was[1..] == Records(bs[size..], size);
      forall i | 0 <= i < |was| ensures Applied(fs, was[i], now[i]) {
        if i > 0 { assert was[i] == was[1..][i - 1] && now[i] == later[i - 1]; }
      }
    }
  }

  /**
   What the program leaves behind when it works in blocks of that many bytes:
   full blocks rewritten, then, of the last one, the bytes that make no record
   left where the block began and the rewritten records after them.
   */
  function Rewritten(fs: seq<Transformer>, size: nat, block: nat, content: Bytes): Bytes
    requires 1 <= size <= block
    decreases |content|
  {
    if |content| >= block then Mapped(fs, size, content[..block]) + Rewritten(fs, size, block, content[block..])
    else
      WholeAndRest(|content|, size);
      var r := Rest(|content|, size);
      content[..r] + Mapped(fs, size, content[..|content| - r])
  }

  lemma {:induction false} MappedLength(fs: seq<Transformer>, size: nat, bs: Bytes)
    requires AllKeep(fs, size) && 1 <= size && Rest(|bs|, size) == 0
    ensures |Mapped(fs, size, bs)| == |bs|
    decreases |bs|
  {
    if |bs| >= size {
      ComposeKeeps(fs, size, bs[..size]);
      MappedLength(fs, size, bs[size..]);
    }
  }

  lemma {:induction false} MappedConcat(fs: seq<Transformer>, size: nat, a: Bytes, b: Bytes)
    requires 1 <= size && Rest(|a|, size) == 0
    ensures Mapped(fs, size, a + b) == Mapped(fs, size, a) + Mapped(fs, size, b)
    decreases |a|
  {
    if |a| < size {
      assert a + b == b;
    } else {
      var x, y := a[..size], a[size..];
      MappedConcat(fs, size, y, b);
      assert (a + b)[..size] == x && (a + b)[size..] == y + b;
      assert Mapped(fs, size, a + b) == Compose(fs, x) + (Mapped(fs, size, y) + Mapped(fs, size, b));
    }
  }

  lemma {:induction false} MappedRecords(fs: seq<Transformer>, size: nat, was: seq<Bytes>, now: seq<Bytes>)
    requires 1 <= size && AllKeep(fs, size) && Sized(was, size) && |now| == |was|
    requires forall i :: 0 <= i < |was| ==> now[i] == Compose(fs, was[i])
    ensures Concat(now) == Mapped(fs, size, Concat(was)) && Sized(now, size)
  {
    forall i | 0 <= i < |now| ensures |now[i]| == size { ComposeKeeps(fs, size, was[i]); }
    if was != [] {
      assert was == [was[0]] + was[1..] && now == [now[0]] + now[1..];
      MappedRecords(fs, size, was[1..], now[1..]);
      ConcatFirst(was[0], was[1..]);
      ConcatFirst(now[0], now[1..]);
      assert (was[0] + Concat(was[1..]))[..size] == was[0] && (was[0] + Concat(was[1..]))[size..] == Concat(was[1..]);
    }
  }

  lemma {:induction false} ComposedApplied(fs: seq<Transformer>, was: seq<Bytes>, now: seq<Bytes>)
    requires |now| == |was| && forall i :: 0 <= i < |was| ==> now[i] == Compose(fs, was[i])
    ensures AllApplied(fs, was, now)
  {
    forall i | 0 <= i < |was| ensures Applied(fs, was[i], now[i]) {
      var states := ComposeApplies(fs, was[i]);
    }
  }

  // ------------------------------------------------------------- the reader

  class RecordReader {
    const file: StdioFile
    const buffer: array<Bytes>
    const size: nat
    var transformers: seq<Transformer>

    /** The buffer is no longer than an int can count and an offset can span. */
    ghost predicate Valid()
      reads this, file
    {
      && 1 <= size && 1 <= buffer.Length < TWO_31
      && size <= Span(buffer.Length, size) <= TWO_64 / 2
      && file.Valid() && AllKeep(transformers, size)
    }

    constructor (content: Bytes, size: nat, bufferSize: nat)
      requires 1 <= size && 1 <= bufferSize < TWO_31 && Span(bufferSize, size) <= TWO_64 / 2
      ensures Valid() && fresh(file) && fresh(buffer) && buffer.Length == bufferSize && this.size == size
      ensures file.content == content && file.pos == 0 && !file.eof && transformers == []
    {
      this.size := size;
      buffer := new Bytes[bufferSize](_ => []);
      var f := new StdioFile;
      f.content, f.pos, f.eof := content, 0, false;
      file := f;
      transformers := [];
      SpanMonotone(1, bufferSize, size);
      assert Span(1, size) == size;
    }

    method RegisterTransformer(f: Transformer)
      requires Valid() && Keeps(f, size)
      modifies this
      ensures Valid() && transformers == old(transformers) + [f]
    {
      transformers := transformers + [f];
    }

    /** The two inner loops: every transformer on every record of the buffer. */
    method TransformBuffer(count: nat)
      requires Valid() && count <= buffer.Length && Sized(buffer[..count], size)
      modifies buffer
      ensures Concat(buffer[..count]) == Mapped(transformers, size, old(Concat(buffer[..count])))
      ensures AllApplied(transformers, old(buffer[..count]), buffer[..count])
    {
      ghost var was := buffer[..count];
      for i := 0 to count
        invariant forall j :: 0 <= j < i ==> buffer[j] == Compose(transformers, was[j])
        invariant forall j :: i <= j < count ==> buffer[j] == was[j]
      {
        for t := 0 to |transformers|
          invariant buffer[i] == Compose(transformers[..t], was[i])
          invariant forall j :: 0 <= j < i ==> buffer[j] == Compose(transformers, was[j])
          invariant forall j :: i < j < count ==> buffer[j] == was[j]
        {
          assert transformers[..t + 1][..t] == transformers[..t];
          buffer[i] := transformers[t](buffer[i]);
        }
        assert transformers[..|transformers|] == transformers;
      }
      MappedRecords(transformers, size, was, buffer[..count]);
      ComposedApplied(transformers, was, buffer[..count]);
    }

    /** One round: read, rewrite, seek back, write. */
    method TransformChunk(ghost done: Bytes, ghost rest: Bytes) returns (eof: bool)
      requires Valid() && !file.eof && file.content == done + rest && file.pos == |done|
      modifies file, buffer
      ensures Valid()
      ensures var block := Span(buffer.Length, size);
              && eof == (|rest| < block)
              && (eof ==> file.content == done + Rewritten(transformers, size, block, rest))
              && (!eof ==>
                    var m := Mapped(transformers, size, rest[..block]);
                    && !file.eof && file.content == (done + m) + rest[block..] && file.pos == |done + m|
                    && done + Rewritten(transformers, size, block, rest) ==
                       (done + m) + Rewritten(transformers, size, block, rest[block..]))
    {
      DropAll(done, rest);
      ghost var block := Span(buffer.Length, size);
      var count := ReadAndRewrite();
      eof := file.eof;
      ghost var m := Mapped(transformers, size, rest[..Span(count, size)]);
      RoundWritten(transformers, size, block, done, rest, Span(count, size));
      assert file.pos == |done| + AtMost(|rest|, block);
      WriteBack(count);
      assert file.content == Overwritten(done + rest, |done| + AtMost(|rest|, block) - Span(count, size), m);
    }

    method ReadAndRewrite() returns (count: nat)
      requires Valid() && !file.eof
      modifies file, buffer
      ensures Valid() && file.content == old(file.content) && count <= buffer.Length
      ensures var rest, block := old(file.Unread()), Span(buffer.Length, size);
              && Round(rest, size, block, Span(count, size))
              && file.eof == (|rest| < block) && file.pos == old(file.pos) + AtMost(|rest|, block)
              && Concat(buffer[..count]) == Mapped(transformers, size, rest[..Span(count, size)])
    {
      RoundRead(file.Unread(), size, buffer.Length);
      count := file.Fread(buffer, size, buffer.Length);
      TransformBuffer(count);
    }

    method WriteBack(count: nat)
      requires Valid() && count <= buffer.Length && Span(count, size) <= file.pos
      requires |Concat(buffer[..count])| == Span(count, size) <= TWO_64 / 2
      modifies file
      ensures Valid() && !file.eof && file.pos == old(file.pos)
      ensures file.content ==
              Overwritten(old(file.content), old(file.pos) - Span(count, size), Concat(buffer[..count]))
    {
      SeekOffsetIsMinus(count, size);
      file.Fseek(SeekOffset(count, size));
      file.Fwrite(buffer, count);
    }

    method TransformLocal()
      requires Valid() && file.pos == 0 && !file.eof
      modifies file, buffer
      ensures Valid()
      ensures file.content == Rewritten(transformers, size, Span(buffer.Length, size), old(file.content))
    {
      ghost var original, block := file.content, Span(buffer.Length, size);
      ghost var done, rest: Bytes := [], original;
      var eof := false;
      while !eof
        invariant Valid()
        invariant eof ==> file.content == Rewritten(transformers, size, block, original)
        invariant !eof ==> !file.eof && file.content == done + rest && file.pos == |done|
        invariant !eof ==> Rewritten(transformers, size, block, original) == done + Rewritten(transformers, size, block, rest)
        decreases !eof, |rest|
      {
        eof := TransformChunk(done, rest);
        if !eof {
          done := done + Mapped(transformers, size, rest[..block]);
          rest := rest[block..];
        }
      }
    }
  }

  lemma {:induction false} DropAll(done: Bytes, rest: Bytes)
    ensures (done + rest)[|done|..] == rest
  {
  }

  /** One round takes a full block of the unread part, or all its complete records. */
  ghost predicate Round(rest: Bytes, size: nat, block: nat, taken: nat) {
    && 1 <= size <= block && taken <= |rest| && taken <= block && Rest(taken, size) == 0
    && taken == if |rest| < block then |rest| - Rest(|rest|, size) else block
  }

  lemma {:induction false} RoundRead(rest: Bytes, size: nat, n: nat)
    requires 1 <= size && 1 <= n && size <= Span(n, size)
    ensures var bytes := AtMost(|rest|, Span(n, size));
            && Round(rest, size, Span(n, size), Span(Whole(bytes, size), size))
            && bytes - Rest(bytes, size) == Span(Whole(bytes, size), size)
  {
    var bytes := AtMost(|rest|, Span(n, size));
    WholeAndRest(bytes, size);
    WholeOf(Whole(bytes, size), 0, size);
    WholeOf(n, 0, size);
  }

  /** What one round leaves: the chunk rewritten in place, or the last one behind the bytes that make no record. */
  lemma {:induction false} RoundWritten(fs: seq<Transformer>, size: nat, block: nat, done: Bytes, rest: Bytes, taken: nat)
    requires AllKeep(fs, size) && Round(rest, size, block, taken)
    ensures var m := Mapped(fs, size, rest[..taken]);
            && |m| == taken
            && (|rest| < block ==>
                  Overwritten(done + rest, |done| + |rest| - taken, m) == done + Rewritten(fs, size, block, rest))
            && (|rest| >= block ==>
                  && Overwritten(done + rest, |done|, m) == (done + m) + rest[taken..]
                  && done + Rewritten(fs, size, block, rest) == (done + m) + Rewritten(fs, size, block, rest[taken..]))
  {
    MappedLength(fs, size, rest[..taken]);
    var m := Mapped(fs, size, rest[..taken]);
    if |rest| < block {
      assert Overwritten(done + rest, |done| + |rest| - taken, m) == done + (rest[..|rest| - taken] + m);
    } else {
      assert done + Rewritten(fs, size, block, rest) == done + (m + Rewritten(fs, size, block, rest[taken..]));
    }
  }

  // ------------------------------------------------ against the whole-file map

  /** What the program is for: every complete record rewritten, bytes after the last one kept. */
  function WholeFile(fs: seq<Transformer>, size: nat, content: Bytes): Bytes
    requires 1 <= size
  {
    WholeAndRest(|content|, size);
    var n := |content| - Rest(|content|, size);
    Mapped(fs, size, content[..n]) + content[n..]
  }

  /** The bytes of the last, unfilled block. */
  function LastBlock(len: nat, block: nat): nat
    requires 1 <= block
  {
    if len < block then len else LastBlock(len - block, block)
  }

  lemma {:induction false} RestOfBlocks(len: nat, size: nat, n: nat)
    requires 1 <= size && size <= Span(n, size) <= len
    ensures Rest(len, size) == Rest(len - Span(n, size), size)
  {
    WholeAndRest(len - Span(n, size), size);
    var k, r := Whole(len - Span(n, size), size), Rest(len - Span(n, size), size);
    SpanSum(n, k, size);
    WholeOf(n + k, r, size);
  }

  lemma {:induction false} SpanSum(m: nat, n: nat, size: nat)
    ensures Span(m + n, size) == Span(m, size) + Span(n, size)
  {
    if n > 0 { SpanSum(m, n - 1, size); }
  }

  /**
   In blocks of `n` records the file becomes its whole-file map if it ends with a
   complete record, or if its last block holds no complete record at all.
   */
  lemma {:induction false} RewrittenIsWholeFile(fs: seq<Transformer>, size: nat, n: nat, content: Bytes)
    requires 1 <= size <= Span(n, size)
    requires Rest(|content|, size) == 0 || LastBlock(|content|, Span(n, size)) < size
    ensures Rewritten(fs, size, Span(n, size), content) == WholeFile(fs, size, content)
    decreases |content|
  {
    var block := Span(n, size);
    if |content| < block {
      WholeAndRest(|content|, size);
      assert Rest(|content|, size) == 0 ==> content[..|content|] == content;
    } else {
      RestOfBlocks(|content|, size, n);
      RewrittenIsWholeFile(fs, size, n, content[block..]);
      WholeOf(n, 0, size);
      WholeFileSplit(fs, size, block, content);
    }
  }

  lemma {:induction false} WholeFileSplit(fs: seq<Transformer>, size: nat, block: nat, content: Bytes)
    requires 1 <= size && block <= |content|
    requires Rest(block, size) == 0 && Rest(|content|, size) == Rest(|content| - block, size)
    ensures WholeFile(fs, size, content) == Mapped(fs, size, content[..block]) + WholeFile(fs, size, content[block..])
  {
    WholeAndRest(|content| - block, size);
    SplitAt(fs, size, content, block, |content| - Rest(|content|, size));
  }

  lemma {:induction false} SplitAt(fs: seq<Transformer>, size: nat, content: Bytes, block: nat, k: nat)
    requires 1 <= size && block <= k <= |content| && Rest(block, size) == 0
    ensures Mapped(fs, size, content[..k]) + content[k..] ==
            Mapped(fs, size, content[..block]) +
            (Mapped(fs, size, content[block..][..k - block]) + content[block..][k - block..])
  {
    var head, mid := content[..block], content[block..][..k - block];
    assert content[..k] == head + mid;
    MappedConcat(fs, size, head, mid);
    assert content[block..][k - block..] == content[k..];
  }

  /** In particular for every whole number of records, an exact multiple of the buffer included. */
  lemma {:induction false} WholeRecordsMapped(fs: seq<Transformer>, size: nat, n: nat, content: Bytes)
    requires 1 <= size <= Span(n, size) && |content| % size == 0
    ensures Rewritten(fs, size, Span(n, size), content) == Mapped(fs, size, content)
  {
    WholeIsQuotient(|content|, size);
    RewrittenIsWholeFile(fs, size, n, content);
    assert content[..|content|] == content;
  }

  // ------------------------------------------------- when it is not the map

  function Filled(len: nat, x: Byte): Bytes { seq(len, _ => x) }

  /** The transformer that sets every byte. */
  const SET_ALL: Transformer := (b: Bytes) => Filled(|b|, 1)

  lemma {:induction false} MappedSetAll(size: nat, bs: Bytes)
    requires 1 <= size && Rest(|bs|, size) == 0
    ensures Mapped([SET_ALL], size, bs) == Filled(|bs|, 1)
    decreases |bs|
  {
    if |bs| >= size {
      MappedSetAll(size, bs[size..]);
      assert [SET_ALL][..0] == [];
      assert Compose([SET_ALL], bs[..size]) == Filled(size, 1);
    }
  }

  /** Zeros set to ones: the last block starts with a zero that the whole-file map would have set. */
  lemma {:induction false} TailDisplaces(size: nat, n: nat, len: nat)
    requires 1 <= size <= Span(n, size)
    requires Rest(len, size) != 0 && LastBlock(len, Span(n, size)) >= size
    ensures Rewritten([SET_ALL], size, Span(n, size), Filled(len, 0)) !=
            WholeFile([SET_ALL], size, Filled(len, 0))
    decreases len
  {
    var block := Span(n, size);
    if len < block {
      FirstByteDisplaced(size, block, len);
    } else {
      RestOfBlocks(len, size, n);
      TailDisplaces(size, n, len - block);
      LaterBlockDisplaced(size, n, len);
    }
  }

  lemma {:induction false} LaterBlockDisplaced(size: nat, n: nat, len: nat)
    requires 1 <= size <= Span(n, size) <= len && Rest(len, size) == Rest(len - Span(n, size), size)
    requires var less := Filled(len - Span(n, size), 0);
             Rewritten([SET_ALL], size, Span(n, size), less) != WholeFile([SET_ALL], size, less)
    ensures Rewritten([SET_ALL], size, Span(n, size), Filled(len, 0)) != WholeFile([SET_ALL], size, Filled(len, 0))
  {
    var block, content := Span(n, size), Filled(len, 0);
    var less := content[block..];
    assert less == Filled(len - block, 0);
    WholeOf(n, 0, size);
    WholeFileSplit([SET_ALL], size, block, content);
    ConcatInjective(Mapped([SET_ALL], size, content[..block]),
                    Rewritten([SET_ALL], size, block, less), WholeFile([SET_ALL], size, less));
  }

  lemma {:induction false} ConcatInjective(a: Bytes, x: Bytes, y: Bytes)
    requires x != y
    ensures a + x != a + y
  {
    assert (a + x)[|a|..] == x && (a + y)[|a|..] == y;
  }

  lemma {:induction false} FirstByteDisplaced(size: nat, block: nat, len: nat)
    requires 1 <= size <= len < block && Rest(len, size) != 0
    ensures Rewritten([SET_ALL], size, block, Filled(len, 0)) != WholeFile([SET_ALL], size, Filled(len, 0))
  {
    WholeAndRest(len, size);
    WholeOf(Whole(len, size), 0, size);
    var content, k := Filled(len, 0), len - Rest(len, size);
    assert |content[..k]| == k;
    MappedSetAll(size, content[..k]);
    assert k >= 1 by { SpanMonotone(0, Whole(len, size), size); }
    assert Rewritten([SET_ALL], size, block, content)[0] == 0;
    assert WholeFile([SET_ALL], size, content)[0] == 1;
  }

  /** Whatever the contents and the transformers, a file of this length becomes its whole-file map. */
  ghost predicate Faithful(size: nat, n: nat, len: nat)
    requires 1 <= size <= Span(n, size)
  {
    forall fs: seq<Transformer>, content: Bytes :: |content| == len ==>
      Rewritten(fs, size, Span(n, size), content) == WholeFile(fs, size, content)
  }

  /**
   The lengths the program is faithful on, exactly: those that end with a complete
   record, and those whose last block is shorter than one.
   */
  lemma {:induction false} FaithfulIff(size: nat, n: nat, len: nat)
    requires 1 <= size <= Span(n, size)
    ensures Faithful(size, n, len) <==> len % size == 0 || LastBlock(len, Span(n, size)) < size
  {
    WholeIsQuotient(len, size);
    if len % size == 0 || LastBlock(len, Span(n, size)) < size {
      forall fs: seq<Transformer>, content: Bytes | |content| == len
        ensures Rewritten(fs, size, Span(n, size), content) == WholeFile(fs, size, content)
      {
        RewrittenIsWholeFile(fs, size, n, content);
      }
    } else {
      TailDisplaces(size, n, len);
      assert |Filled(len, 0)| == len;
    }
  }
}
