/**
 * The image builder: the sector packer (append_file), the directory walk
 * (walk_dirs) and the finaliser (wrap).
 *
 * The functions first describe, as values, what the packer writes for a
 * sequence of files; the class ImageBuilder then holds the state the
 * source keeps in globals and in the output descriptor (the file contents,
 * the file offset and total_bytes), and its methods are proved to change
 * that state exactly as the functions say.
 */
module Swrap {
  import opened Sector
  import opened Bytes
  import opened FileTree

  datatype Option<T> = None | Some(value: T)

  /**
   * The number of zero bytes written after a file when the running total
   * has become `total`: none when the total is a sector multiple, otherwise
   * SECTOR_SIZE minus the remainder.
   */
  function Pad(total: u64): (pad: nat)
    ensures pad < SECTOR_SIZE
    ensures (total + pad) % SECTOR_SIZE == 0
    ensures pad == 0 <==> total % SECTOR_SIZE == 0
  {
    if total % SECTOR_SIZE != 0 then SECTOR_SIZE - total % SECTOR_SIZE else 0
  }

  /** total_bytes after append_file of `c`: only a mapped file's length is added. */
  function NextTotal(total: u64, c: Content): u64
  {
    match c
    case Unreadable => total
    case Mapped(bytes) => Add64(total, |bytes|)
  }

  /** The bytes append_file of `c` writes when total_bytes is `total` beforehand. */
  function Chunk(total: u64, c: Content): seq<byte>
  {
    match c
    case Unreadable => []
    case Mapped(bytes) => bytes + Zeros(Pad(NextTotal(total, c)))
  }

  /** total_bytes after appending the files `cs` in order. */
  function TotalAfter(total: u64, cs: seq<Content>): u64
    decreases cs
  {
    if cs == [] then total else TotalAfter(NextTotal(total, cs[0]), cs[1..])
  }

  /** The bytes written when appending the files `cs` in order. */
  function Stream(total: u64, cs: seq<Content>): seq<byte>
    decreases cs
  {
    if cs == [] then [] else Chunk(total, cs[0]) + Stream(NextTotal(total, cs[0]), cs[1..])
  }

  /** The combined length of the files of `cs` that could be read. */
  function FileBytes(cs: seq<Content>): nat
  {
    if cs == [] then 0
    else (if cs[0].Mapped? then |cs[0].bytes| else 0) + FileBytes(cs[1..])
  }

  /** Appending two runs of files one after the other is appending their concatenation. */
  lemma {:induction false} StreamConcat(total: u64, xs: seq<Content>, ys: seq<Content>)
    ensures TotalAfter(total, xs + ys) == TotalAfter(TotalAfter(total, xs), ys)
    ensures Stream(total, xs + ys) == Stream(total, xs) + Stream(TotalAfter(total, xs), ys)
    decreases xs
  {
    if xs != [] {
      assert (xs + ys)[0] == xs[0] && (xs + ys)[1..] == xs[1..] + ys;
      StreamConcat(NextTotal(total, xs[0]), xs[1..], ys);
    } else {
      assert xs + ys == ys;
    }
  }

  lemma StreamSingle(total: u64, c: Content)
    ensures TotalAfter(total, [c]) == NextTotal(total, c)
    ensures Stream(total, [c]) == Chunk(total, c)
  {
    assert [c][1..] == [];
  }

  /**
   * total_bytes counts file bytes only, never padding: after any run of
   * files it is the starting total plus their combined length, modulo 2^64.
   */
  lemma {:induction false} TotalCountsFileBytes(total: u64, cs: seq<Content>)
    ensures TotalAfter(total, cs) == (total + FileBytes(cs)) % TWO_64
    decreases cs
  {
    if cs != [] {
      var next := NextTotal(total, cs[0]);
      var len := if cs[0].Mapped? then |cs[0].bytes| else 0;
      TotalCountsFileBytes(next, cs[1..]);
      assert next == (total + len) % TWO_64;
      AddModulo(total + len, FileBytes(cs[1..]));
    }
  }

  lemma AddModulo(a: nat, b: nat)
    ensures (a % TWO_64 + b) % TWO_64 == (a + b) % TWO_64
  {
    var q := a / TWO_64;
    assert a + b == (a % TWO_64 + b) + q * TWO_64;
    ModAddMultiple(a % TWO_64 + b, q);
  }

  lemma {:induction false} ModAddMultiple(x: nat, q: nat)
    ensures (x + q * TWO_64) % TWO_64 == x % TWO_64
  {
    if q > 0 {
      ModAddMultiple(x, q - 1);
      assert x + q * TWO_64 == (x + (q - 1) * TWO_64) + TWO_64;
    }
  }

  /**
   * Padding follows the running total, not the write position: a 3-byte
   * file then a 600-byte file are padded with 509 and 421 zeros, so the
   * second file's padding ends 1533 bytes into the payload, which is not a
   * sector boundary.
   */
  lemma PaddingFollowsTotal(x: seq<byte>, y: seq<byte>)
    requires |x| == 3 && |y| == 600
    ensures Stream(0, [Mapped(x), Mapped(y)]) == x + Zeros(509) + y + Zeros(421)
    ensures |Stream(0, [Mapped(x), Mapped(y)])| == 1533
  {
    TwoFiles(0, Mapped(x), Mapped(y));
    ChunkOf(0, x, 3, 509);
    ChunkOf(NextTotal(0, Mapped(x)), y, 603, 421);
  }

  /**
   * An empty regular file maps to no bytes and leaves total_bytes as it was,
   * so when the total is not a sector multiple its padding is written again.
   */
  lemma EmptyFilePadsAgain(total: u64)
    requires total % SECTOR_SIZE != 0
    ensures NextTotal(total, Mapped([])) == total
    ensures Chunk(total, Mapped([])) == Zeros(SECTOR_SIZE - total % SECTOR_SIZE)
  {
    assert [] + Zeros(SECTOR_SIZE - total % SECTOR_SIZE) == Zeros(SECTOR_SIZE - total % SECTOR_SIZE);
  }

  /**
   * For the same two files total_bytes ends at 603 and the header holds
   * ALIGN_UP(603) = 1024, not the 1533 payload bytes written.
   */
  lemma HeaderCountsFileBytes(x: seq<byte>, y: seq<byte>)
    requires |x| == 3 && |y| == 600
    ensures TotalAfter(0, [Mapped(x), Mapped(y)]) == 603
    ensures AlignUp(TotalAfter(0, [Mapped(x), Mapped(y)]), SECTOR_SIZE) == 1024
  {
    TwoFiles(0, Mapped(x), Mapped(y));
    assert NextTotal(0, Mapped(x)) == 3;
    AlignUpOf603(TotalAfter(0, [Mapped(x), Mapped(y)]));
  }

  /** Appending two files is appending one chunk after the other. */
  lemma TwoFiles(total: u64, a: Content, b: Content)
    ensures TotalAfter(total, [a, b]) == NextTotal(NextTotal(total, a), b)
    ensures Stream(total, [a, b]) == Chunk(total, a) + Chunk(NextTotal(total, a), b)
  {
    assert [a, b][1..] == [b];
    StreamSingle(NextTotal(total, a), b);
  }

  /** The chunk of a file that brings the total to `after`, with `pad` zero bytes. */
  lemma ChunkOf(total: u64, x: seq<byte>, after: nat, pad: nat)
    requires total + |x| == after < TWO_64
    requires pad == (if after % SECTOR_SIZE == 0 then 0 else SECTOR_SIZE - after % SECTOR_SIZE)
    ensures NextTotal(total, Mapped(x)) == after
    ensures Chunk(total, Mapped(x)) == x + Zeros(pad)
  {
  }

  lemma AlignUpOf603(total: u64)
    requires total == 603
    ensures AlignUp(total, SECTOR_SIZE) == 1024
  {
    AlignUpBounds(total);
    OnlySectorMultiple(AlignUp(total, SECTOR_SIZE), 2);
  }

  lemma OnlySectorMultiple(r: int, q: int)
    requires SECTOR_SIZE * q - SECTOR_SIZE < r < SECTOR_SIZE * q + SECTOR_SIZE && r % SECTOR_SIZE == 0
    ensures r == SECTOR_SIZE * q
  {
    DivModUnique(r, SECTOR_SIZE, r / SECTOR_SIZE, 0);
    MulSign(SECTOR_SIZE, q - r / SECTOR_SIZE);
  }

  /** The header value: ALIGN_UP of the final total_bytes. */
  function Header(root: Listing): u64
  {
    AlignUp(TotalAfter(0, WalkFiles(root)), SECTOR_SIZE)
  }

  /** The payload: what the walk wrote from offset SECTOR_SIZE on. */
  function Payload(root: Listing): seq<byte>
  {
    Stream(0, WalkFiles(root))
  }

  /**
   * The output file as wrap leaves it when the input directory opens: the
   * prior contents of the file, overwritten from offset SECTOR_SIZE by the
   * payload and then at offset 0 by the 8-byte header.
   */
  function Image(prior: seq<byte>, root: Listing): seq<byte>
    requires root.Listed?
  {
    Overwrite(Overwrite(prior, SECTOR_SIZE, Payload(root)), 0, U64Bytes(Header(root)))
  }

  /** Bytes 0-7 of the image hold the header, a sector multiple, in little-endian order. */
  lemma ImageHeader(prior: seq<byte>, root: Listing)
    requires root.Listed?
    ensures |Image(prior, root)| >= 8
    ensures Image(prior, root)[..8] == U64Bytes(Header(root))
    ensures FromLittleEndian(Image(prior, root)[..8]) == Header(root)
    ensures Header(root) % SECTOR_SIZE == 0
  {
    HeaderWritten(prior, Payload(root), U64Bytes(Header(root)), Image(prior, root));
    AlignUpBounds(TotalAfter(0, WalkFiles(root)));
  }

  /** The payload starts at offset SECTOR_SIZE and is followed by whatever the file held before. */
  lemma ImagePayload(prior: seq<byte>, root: Listing)
    requires root.Listed?
    ensures Payload(root) != [] ==>
      |Image(prior, root)| >= SECTOR_SIZE + |Payload(root)| &&
      Image(prior, root)[SECTOR_SIZE..SECTOR_SIZE + |Payload(root)|] == Payload(root)
    ensures forall i :: SECTOR_SIZE + |Payload(root)| <= i < |prior| ==> Image(prior, root)[i] == prior[i]
  {
    PayloadWritten(prior, Payload(root), U64Bytes(Header(root)), Image(prior, root));
  }

  /**
   * Header bytes 8 to SECTOR_SIZE - 1 are never written: they keep the prior
   * contents of the file, or read as zeros where the file was shorter and
   * the payload was written beyond its end.
   */
  lemma ImageReserved(prior: seq<byte>, root: Listing)
    requires root.Listed?
    ensures forall i :: 8 <= i < SECTOR_SIZE && i < |prior| ==> Image(prior, root)[i] == prior[i]
    ensures Payload(root) != [] ==>
      forall i :: |prior| <= i < SECTOR_SIZE && 8 <= i ==> Image(prior, root)[i] == 0
  {
    ReservedKept(prior, Payload(root), U64Bytes(Header(root)), Image(prior, root));
  }

  // The three lemmas above, for any payload p and 8-byte header h written as wrap writes them.

  lemma HeaderWritten(prior: seq<byte>, p: seq<byte>, h: seq<byte>, img: seq<byte>)
    requires |h| == 8 && img == Overwrite(Overwrite(prior, SECTOR_SIZE, p), 0, h)
    ensures |img| >= 8 && img[..8] == h
  {
    OverwriteBytes(Overwrite(prior, SECTOR_SIZE, p), 0, h);
    assert forall i :: 0 <= i < 8 ==> img[i] == h[i];
  }

  lemma PayloadWritten(prior: seq<byte>, p: seq<byte>, h: seq<byte>, img: seq<byte>)
    requires |h| == 8 && img == Overwrite(Overwrite(prior, SECTOR_SIZE, p), 0, h)
    ensures p != [] ==> |img| >= SECTOR_SIZE + |p| && img[SECTOR_SIZE..SECTOR_SIZE + |p|] == p
    ensures forall i :: SECTOR_SIZE + |p| <= i < |prior| ==> img[i] == prior[i]
  {
    var walked := Overwrite(prior, SECTOR_SIZE, p);
    if p != [] {
      PayloadSlice(walked, p, h, img);
    }
    StaleKept(prior, p, walked, h, img);
  }

  lemma PayloadSlice(walked: seq<byte>, p: seq<byte>, h: seq<byte>, img: seq<byte>)
    requires |h| == 8 && p != [] && img == Overwrite(walked, 0, h)
    requires |walked| >= SECTOR_SIZE + |p|
    requires forall i :: 0 <= i < |p| ==> walked[SECTOR_SIZE + i] == p[i]
    ensures |img| >= SECTOR_SIZE + |p| && img[SECTOR_SIZE..SECTOR_SIZE + |p|] == p
  {
    OverwriteBytes(walked, 0, h);
    forall i | 0 <= i < |p|
      ensures img[SECTOR_SIZE..SECTOR_SIZE + |p|][i] == p[i]
    {
      assert img[SECTOR_SIZE + i] == walked[SECTOR_SIZE + i];
    }
  }

  lemma StaleKept(prior: seq<byte>, p: seq<byte>, walked: seq<byte>, h: seq<byte>, img: seq<byte>)
    requires |h| == 8 && walked == Overwrite(prior, SECTOR_SIZE, p) && img == Overwrite(walked, 0, h)
    ensures forall i :: SECTOR_SIZE + |p| <= i < |prior| ==> img[i] == prior[i]
  {
    OverwriteBytes(prior, SECTOR_SIZE, p);
    OverwriteBytes(walked, 0, h);
  }

  lemma ReservedKept(prior: seq<byte>, p: seq<byte>, h: seq<byte>, img: seq<byte>)
    requires |h| == 8 && img == Overwrite(Overwrite(prior, SECTOR_SIZE, p), 0, h)
    ensures forall i :: 8 <= i < SECTOR_SIZE && i < |prior| ==> img[i] == prior[i]
    ensures p != [] ==> forall i :: |prior| <= i < SECTOR_SIZE && 8 <= i ==> img[i] == 0
  {
    var walked := Overwrite(prior, SECTOR_SIZE, p);
    OverwriteBytes(prior, SECTOR_SIZE, p);
    OverwriteBytes(walked, 0, h);
  }

  /**
   * When the files hold at most 2^64 - SECTOR_SIZE bytes in all, the header
   * is their combined length rounded up to the next sector multiple; it is
   * not in general the length of the payload (see PaddingFollowsTotal).
   */
  lemma HeaderRoundsFileBytes(root: Listing)
    requires FileBytes(WalkFiles(root)) <= TWO_64 - SECTOR_SIZE
    ensures Header(root) % SECTOR_SIZE == 0
    ensures FileBytes(WalkFiles(root)) <= Header(root) < FileBytes(WalkFiles(root)) + SECTOR_SIZE
  {
    var files := WalkFiles(root);
    TotalCountsFileBytes(0, files);
    SmallRemainder(FileBytes(files), TWO_64);
    assert TotalAfter(0, files) == FileBytes(files);
    AlignUpBounds(TotalAfter(0, files));
  }

  /**
   * The builder state (f, o, t) is what appending the files cs to the state
   * (f0, o0, t0) produces: the counter advanced over cs and the stream of cs
   * written at o0, with the offset just past it.
   */
  ghost predicate Appended(f: seq<byte>, o: nat, t: u64, f0: seq<byte>, o0: nat, t0: u64, cs: seq<Content>)
  {
    t == TotalAfter(t0, cs) && f == Overwrite(f0, o0, Stream(t0, cs)) && o == o0 + |Stream(t0, cs)|
  }

  /** Appending one run of files and then another leaves the state of appending both at once. */
  lemma AppendRuns(f0: seq<byte>, o0: nat, t0: u64, xs: seq<Content>, ys: seq<Content>,
                   f1: seq<byte>, o1: nat, t1: u64, f2: seq<byte>, o2: nat, t2: u64)
    requires Appended(f1, o1, t1, f0, o0, t0, xs)
    requires Appended(f2, o2, t2, f1, o1, t1, ys)
    ensures Appended(f2, o2, t2, f0, o0, t0, xs + ys)
  {
    var a, b := Stream(t0, xs), Stream(t1, ys);
    StreamJoin(t0, xs, ys, t1, a, b);
    WritesJoin(f0, o0, a, b, f1, o1, f2);
  }

  lemma StreamJoin(t0: u64, xs: seq<Content>, ys: seq<Content>, t1: u64, a: seq<byte>, b: seq<byte>)
    requires t1 == TotalAfter(t0, xs) && a == Stream(t0, xs) && b == Stream(t1, ys)
    ensures a + b == Stream(t0, xs + ys) && TotalAfter(t1, ys) == TotalAfter(t0, xs + ys)
  {
    StreamConcat(t0, xs, ys);
  }

  lemma WritesJoin(f0: seq<byte>, o0: nat, a: seq<byte>, b: seq<byte>, f1: seq<byte>, o1: nat, f2: seq<byte>)
    requires f1 == Overwrite(f0, o0, a) && o1 == o0 + |a| && f2 == Overwrite(f1, o1, b)
    ensures f2 == Overwrite(f0, o0, a + b)
  {
    OverwriteSequential(f0, o0, a, b);
  }

  /** The state the source keeps globally and in the output descriptor while it builds an image. */
  class ImageBuilder {
    /** The contents of the output file. */
    var file: seq<byte>
    /** The file offset of the output descriptor. */
    var offset: nat
    /** total_bytes: the number of file bytes appended so far, padding not included. */
    var total: u64

    /** The output file opened read-write without truncation, holding `prior`. */
    constructor (prior: seq<byte>)
      ensures file == prior && offset == 0 && total == 0
    {
      file := prior;
      offset := 0;
      total := 0;
    }

    /** lseek(fd, off, SEEK_SET). */
    method Seek(off: nat)
      modifies this
      ensures offset == off && file == old(file) && total == old(total)
    {
      offset := off;
    }

    /** write(fd, buf, |buf|): writes at the file offset and advances it. */
    method Write(buf: seq<byte>)
      modifies this
      ensures file == Overwrite(old(file), old(offset), buf)
      ensures offset == old(offset) + |buf| && total == old(total)
    {
      file := Overwrite(file, offset, buf);
      offset := offset + |buf|;
    }

    /**
     * append_file: a file that cannot be opened or mapped changes nothing;
     * otherwise its length is added to total_bytes and its bytes are written,
     * followed by Pad(total_bytes) zero bytes.
     */
    method AppendFile(c: Content)
      modifies this
      ensures c.Unreadable? ==> file == old(file) && offset == old(offset) && total == old(total)
      ensures c.Mapped? ==> total == Add64(old(total), |c.bytes|)
      ensures c.Mapped? ==> file == Overwrite(old(file), old(offset), c.bytes + Zeros(Pad(total)))
      ensures c.Mapped? ==> offset == old(offset) + |c.bytes| + Pad(total)
      ensures total == NextTotal(old(total), c)
      ensures file == Overwrite(old(file), old(offset), Chunk(old(total), c))
      ensures offset == old(offset) + |Chunk(old(total), c)|
    {
      match c
      case Unreadable =>
      case Mapped(data) =>
        total := Add64(total, |data|);
        Write(data);
        ghost var file1, offset1 := file, offset;
        var misalign := BitAnd(total, SECTOR_SIZE - 1);
        MisalignIsRemainder(total);
        if misalign != 0 {
          var padLen := SECTOR_SIZE - misalign;
          Write(Zeros(padLen));
          WritesJoin(old(file), old(offset), data, Zeros(padLen), file1, offset1, file);
          assert Pad(total) == padLen;
        } else {
          assert data + Zeros(0) == data;
          assert Pad(total) == 0;
        }
        assert Chunk(old(total), c) == data + Zeros(Pad(total));
    }

    /**
     * walk_dirs: returns -1 when the directory cannot be opened; otherwise
     * hands every visible regular file to AppendFile and walks every visible
     * subdirectory, in listing order, ignoring the subdirectory's status,
     * and returns 0.
     */
    method WalkDirs(dir: Listing) returns (status: int)
      modifies this
      decreases dir
      ensures status == (if dir.CannotOpen? then -1 else 0)
      ensures total == TotalAfter(old(total), WalkFiles(dir))
      ensures file == Overwrite(old(file), old(offset), Stream(old(total), WalkFiles(dir)))
      ensures offset == old(offset) + |Stream(old(total), WalkFiles(dir))|
    {
      if dir.CannotOpen? {
        return -1;
      }
      var entries := dir.entries;
      var i := 0;
      while i < |entries|
        invariant 0 <= i <= |entries|
        invariant Appended(file, offset, total, old(file), old(offset), old(total), WalkPrefix(dir, i))
      {
        var e := entries[i];
        ghost var done := WalkPrefix(dir, i);
        ghost var file0, offset0, total0 := file, offset, total;
        if Hidden(e.name) {
          // a name starting with '.' is skipped
          assert Appended(file, offset, total, file0, offset0, total0, EntryFiles(e));
        } else if e.Dir? {
          var _ := WalkDirs(e.listing);
          assert Appended(file, offset, total, file0, offset0, total0, EntryFiles(e));
        } else if e.Reg? {
          AppendFile(e.content);
          StreamSingle(total0, e.content);
          assert Appended(file, offset, total, file0, offset0, total0, EntryFiles(e));
        } else {
          assert Appended(file, offset, total, file0, offset0, total0, EntryFiles(e));
        }
        AppendRuns(old(file), old(offset), old(total), done, EntryFiles(e),
                   file0, offset0, total0, file, offset, total);
        assert WalkPrefix(dir, i + 1) == done + EntryFiles(e);
        i := i + 1;
      }
      return 0;
    }
  }

  /** The output file as given to wrap: its current contents, or a failure to open or create it. */
  datatype Output = Opened(prior: seq<byte>) | CannotCreate

  /**
   * wrap: reserve sector 0, walk the input directory from offset
   * SECTOR_SIZE, then overwrite bytes 0-7 with ALIGN_UP(total_bytes).
   * Returns -1, with no header written, when the output or the input
   * directory cannot be opened; returns the final file contents otherwise.
   */
  method Wrap(output: Output, input: Listing) returns (status: int, image: Option<seq<byte>>)
    ensures status == (if output.Opened? && input.Listed? then 0 else -1)
    ensures output.CannotCreate? ==> image == None
    ensures output.Opened? && input.CannotOpen? ==> image == Some(output.prior)
    ensures output.Opened? && input.Listed? ==> image == Some(Image(output.prior, input))
  {
    if output.CannotCreate? {
      return -1, None;
    }
    var builder := new ImageBuilder(output.prior);
    builder.Seek(SECTOR_SIZE);
    var error := builder.WalkDirs(input);
    if error < 0 {
      return error, Some(builder.file);
    }
    builder.total := AlignUp(builder.total, SECTOR_SIZE);
    builder.Seek(0);
    builder.Write(U64Bytes(builder.total));
    return 0, Some(builder.file);
  }
}
