/** Record images. */
module Layout {
  import opened Machine
  import opened Sequences

  // The native side fills C structures and writes their bytes; the scripts read the
  // bytes back through ctypes structures declared on their own.  Both follow the
  // platform's rule: a field starts at the next multiple of its alignment, a structure
  // is padded to a multiple of its own.  Padding bytes hold whatever the memory held.

  type Bytes = seq<Byte>

  // ----------------------------------------------------- little-endian integers

  function Pow256(w: nat): nat { if w == 0 then 1 else 256 * Pow256(w - 1) }

  function Encode(n: nat, w: nat): (bs: Bytes)
    ensures |bs| == w
  {
    if w == 0 then [] else [n % 256] + Encode(n / 256, w - 1)
  }

  function Decode(bs: Bytes): (n: nat)
    ensures n < Pow256(|bs|)
  {
    if bs == [] then 0 else bs[0] + 256 * Decode(bs[1..])
  }

  lemma {:induction false} DecodeEncode(n: nat, w: nat)
    requires n < Pow256(w)
    ensures Decode(Encode(n, w)) == n
  {
    if w > 0 {
      DecodeEncode(n / 256, w - 1);
      assert Encode(n, w)[1..] == Encode(n / 256, w - 1);
    }
  }

  // ------------------------------------------------------------- structures

  datatype CType = Scalar(width: nat) | Struct(fields: Fields)
  datatype Fields = End | Field(ctype: CType, rest: Fields)

  function RoundUp(n: nat, a: nat): (r: nat)
    ensures n <= r
  {
    if a == 0 || n % a == 0 then n else n + (a - n % a)
  }

  function Max(a: nat, b: nat): nat { if a < b then b else a }

  function Align(t: CType): nat {
    match t case Scalar(w) => w case Struct(fs) => AlignAll(fs)
  }

  function AlignAll(fs: Fields): nat {
    match fs case End => 1 case Field(t, rest) => Max(Align(t), AlignAll(rest))
  }

  function Size(t: CType): nat {
    match t case Scalar(w) => w case Struct(fs) => RoundUp(EndOf(fs, 0), AlignAll(fs))
  }

  /** Where the fields end when the first may start at `at`. */
  function EndOf(fs: Fields, at: nat): nat {
    match fs case End => at case Field(t, rest) => EndOf(rest, RoundUp(at, Align(t)) + Size(t))
  }

  datatype Leaf = Leaf(offset: nat, width: nat)

  /** The scalar members, in declaration order, of a structure placed at `base`. */
  function Leaves(t: CType, base: nat): seq<Leaf> {
    match t case Scalar(w) => [Leaf(base, w)] case Struct(fs) => FieldLeaves(fs, base, 0)
  }

  function FieldLeaves(fs: Fields, base: nat, at: nat): seq<Leaf> {
    match fs
    case End => []
    case Field(t, rest) =>
      var start := RoundUp(at, Align(t));
      Leaves(t, base + start) + FieldLeaves(rest, base, start + Size(t))
  }

  /** Members between `lo` and `hi` that follow one another without overlap. */
  ghost predicate Apart(ls: seq<Leaf>, lo: nat, hi: nat) {
    && (forall i :: 0 <= i < |ls| ==> lo <= ls[i].offset && ls[i].offset + ls[i].width <= hi)
    && (forall i, j :: 0 <= i < j < |ls| ==> ls[i].offset + ls[i].width <= ls[j].offset)
  }

  /** The rule never lets two members overlap or one stick out, however structures nest. */
  lemma {:induction false} LeavesApart(t: CType, base: nat)
    ensures Apart(Leaves(t, base), base, base + Size(t))
  {
    if t.Struct? { FieldLeavesApart(t.fields, base, 0); }
  }

  lemma {:induction false} FieldLeavesApart(fs: Fields, base: nat, at: nat)
    ensures at <= EndOf(fs, at)
    ensures Apart(FieldLeaves(fs, base, at), base + at, base + EndOf(fs, at))
  {
    match fs
    case End =>
    case Field(t, rest) =>
      var start := RoundUp(at, Align(t));
      var next := start + Size(t);
      LeavesApart(t, base + start);
      FieldLeavesApart(rest, base, next);
      FieldSplits(t, rest, base, at);
      ApartConcat(Leaves(t, base + start), FieldLeaves(rest, base, next), base + at, base + next, base + EndOf(rest, next));
  }

  lemma {:induction false} FieldSplits(t: CType, rest: Fields, base: nat, at: nat)
    ensures var next := RoundUp(at, Align(t)) + Size(t);
            && FieldLeaves(Field(t, rest), base, at) == Leaves(t, base + RoundUp(at, Align(t))) + FieldLeaves(rest, base, next)
            && EndOf(Field(t, rest), at) == EndOf(rest, next)
  {
  }

  lemma {:induction false} ApartConcat(ls: seq<Leaf>, ms: seq<Leaf>, lo: nat, mid: nat, hi: nat)
    requires lo <= mid <= hi && Apart(ls, lo, mid) && Apart(ms, mid, hi)
    ensures Apart(ls + ms, lo, hi)
  {
  }

  // ------------------------------------------------------ storing and loading

  function Splice(b: Bytes, offset: nat, bs: Bytes): (r: Bytes)
    requires offset + |bs| <= |b|
    ensures |r| == |b|
  {
    b[..offset] + bs + b[offset + |bs|..]
  }

  function ReadAt(b: Bytes, l: Leaf): (n: nat)
    requires l.offset + l.width <= |b|
    ensures n < Pow256(l.width)
  {
    Decode(b[l.offset..l.offset + l.width])
  }

  /** Member assignments, one by one, into memory that held `b`. */
  function Store(b: Bytes, ls: seq<Leaf>, vals: seq<nat>): (r: Bytes)
    requires |ls| == |vals| && Apart(ls, 0, |b|)
    ensures |r| == |b|
  {
    if ls == [] then b
    else
      var k := |ls| - 1;
      Splice(Store(b, ls[..k], vals[..k]), ls[k].offset, Encode(vals[k], ls[k].width))
  }

  lemma {:induction false} SpliceElsewhere(b: Bytes, offset: nat, bs: Bytes, l: Leaf)
    requires offset + |bs| <= |b| && l.offset + l.width <= |b|
    requires l.offset + l.width <= offset || offset + |bs| <= l.offset
    ensures ReadAt(Splice(b, offset, bs), l) == ReadAt(b, l)
  {
    assert Splice(b, offset, bs)[l.offset..l.offset + l.width] == b[l.offset..l.offset + l.width];
  }

  lemma {:induction false} SpliceHere(b: Bytes, offset: nat, bs: Bytes)
    requires offset + |bs| <= |b|
    ensures ReadAt(Splice(b, offset, bs), Leaf(offset, |bs|)) == Decode(bs)
  {
    assert Splice(b, offset, bs)[offset..offset + |bs|] == bs;
  }

  /** What was assigned is what is read, whatever the padding. */
  lemma {:induction false} LoadStore(b: Bytes, ls: seq<Leaf>, vals: seq<nat>, i: nat)
    requires |ls| == |vals| && Apart(ls, 0, |b|) && i < |ls|
    requires forall j :: 0 <= j < |ls| ==> vals[j] < Pow256(ls[j].width)
    ensures ReadAt(Store(b, ls, vals), ls[i]) == vals[i]
  {
    var k := |ls| - 1;
    var before := Store(b, ls[..k], vals[..k]);
    if i < k {
      LoadStore(b, ls[..k], vals[..k], i);
      SpliceElsewhere(before, ls[k].offset, Encode(vals[k], ls[k].width), ls[i]);
    } else {
      SpliceHere(before, ls[k].offset, Encode(vals[k], ls[k].width));
      DecodeEncode(vals[k], ls[k].width);
    }
  }

  // -------------------------------------------------------- files of images

  ghost predicate Sized(images: seq<Bytes>, size: nat) {
    forall i :: 0 <= i < |images| ==> |images[i]| == size
  }

  /** The `i`-th image of a file. */
  function Chunk(buf: Bytes, size: nat, i: nat): Bytes
    requires i * size + size <= |buf|
  {
    buf[i * size..i * size + size]
  }

  lemma {:induction false} ConcatLength(images: seq<Bytes>, size: nat)
    requires Sized(images, size)
    ensures |Concat(images)| == |images| * size
  {
    if images != [] {
      var k := |images| - 1;
      ConcatLength(images[..k], size);
      assert |images[k]| == size;
      assert (k + 1) * size == k * size + size;
    }
  }

  lemma {:induction false} ChunkFits(i: nat, n: nat, size: nat)
    requires i < n
    ensures i * size + size <= n * size
  {
    assert (i + 1) * size <= n * size;
  }

  lemma {:induction false} ConcatChunk(images: seq<Bytes>, tail: Bytes, size: nat, i: nat)
    requires Sized(images, size) && i < |images|
    ensures i * size + size <= |Concat(images) + tail|
    ensures Chunk(Concat(images) + tail, size, i) == images[i]
  {
    var k := |images| - 1;
    ConcatLength(images, size);
    ConcatLength(images[..k], size);
    ChunkFits(i, |images|, size);
    if i < k {
      ConcatChunk(images[..k], images[k] + tail, size, i);
      assert Concat(images[..k]) + (images[k] + tail) == Concat(images) + tail;
    }
  }

  lemma {:induction false} ConcatWhole(images: seq<Bytes>, size: nat)
    requires Sized(images, size) && size > 0
    ensures |Concat(images)| % size == 0
  {
    ConcatLength(images, size);
    DivOf(|images|, 0, size);
  }

  /** A file of images with less than one image after them holds exactly those. */
  lemma {:induction false} ConcatCount(images: seq<Bytes>, tail: Bytes, size: nat)
    requires Sized(images, size) && |tail| < size
    ensures |Concat(images) + tail| / size == |images|
  {
    ConcatLength(images, size);
    DivOf(|images|, |tail|, size);
  }

  lemma {:induction false} DivOf(n: nat, r: nat, size: nat)
    requires r < size
    ensures (n * size + r) / size == n && (n * size + r) % size == r
  {
    var x := n * size + r;
    assert x == (x / size) * size + x % size;
    if x / size < n { ChunkFits(x / size, n, size); }
    if n < x / size { ChunkFits(n, x / size, size); }
  }
}
