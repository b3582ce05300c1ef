/**
 * The directory tree the image is built from, and the order in which the
 * walk hands regular files to the sector packer.
 *
 * The tree stands in for opendir/readdir, open and mmap: a directory
 * either opens and yields its entries in the order readdir returns them,
 * or fails to open; a regular file either opens and maps to its bytes,
 * or does not.
 */
module FileTree {
  import opened Bytes

  /** What opening and mapping a regular file yields. */
  datatype Content = Mapped(bytes: seq<byte>) | Unreadable

  /** What opening a directory yields: its entries in listing order, or failure. */
  datatype Listing = Listed(entries: seq<Entry>) | CannotOpen

  /** A directory entry, classified by its d_type. */
  datatype Entry =
    | Dir(name: string, listing: Listing)  // DT_DIR
    | Reg(name: string, content: Content)  // DT_REG
    | Other(name: string)                  // symlinks, devices, fifos, sockets, unknown

  /** A name whose first character is a dot: `.`, `..` and hidden entries. */
  predicate Hidden(name: string)
  {
    |name| > 0 && name[0] == '.'
  }

  /** The files the walk of a directory hands to the packer, in order. */
  function WalkFiles(l: Listing): seq<Content>
    decreases l, 1
  {
    match l
    case CannotOpen => []
    case Listed(entries) => WalkPrefix(l, |entries|)
  }

  /** The files handed over while the walk processes the first `n` entries. */
  function WalkPrefix(l: Listing, n: nat): seq<Content>
    requires l.Listed? && n <= |l.entries|
    decreases l, 0, n
  {
    if n == 0 then [] else WalkPrefix(l, n - 1) + EntryFiles(l.entries[n - 1])
  }

  /** The files handed over for one entry of a listing. */
  function EntryFiles(e: Entry): seq<Content>
    decreases e
  {
    if Hidden(e.name) then []
    else match e
      case Dir(_, sub) => WalkFiles(sub)
      case Reg(_, content) => [content]
      case Other(_) => []
  }

  lemma {:induction false} WalkPrefixOfPrefix(es: seq<Entry>, ys: seq<Entry>, n: nat)
    requires n <= |es| && n <= |ys| && es[..n] == ys[..n]
    ensures WalkPrefix(Listed(es), n) == WalkPrefix(Listed(ys), n)
  {
    if n > 0 {
      assert es[n - 1] == es[..n][n - 1] == ys[n - 1];
      assert es[..n - 1] == es[..n][..n - 1];
      assert ys[..n - 1] == ys[..n][..n - 1];
      WalkPrefixOfPrefix(es, ys, n - 1);
    }
  }

  lemma {:induction false} WalkPrefixConcat(a: seq<Entry>, b: seq<Entry>, k: nat)
    requires k <= |b|
    ensures WalkPrefix(Listed(a + b), |a| + k) == WalkFiles(Listed(a)) + WalkPrefix(Listed(b), k)
  {
    if k == 0 {
      assert (a + b)[..|a|] == a[..|a|];
      WalkPrefixOfPrefix(a + b, a, |a|);
    } else {
      WalkPrefixConcat(a, b, k - 1);
      assert (a + b)[|a| + k - 1] == b[k - 1];
    }
  }

  /** The walk of a listing is the walk of its first part followed by that of the rest. */
  lemma WalkConcat(a: seq<Entry>, b: seq<Entry>)
    ensures WalkFiles(Listed(a + b)) == WalkFiles(Listed(a)) + WalkFiles(Listed(b))
  {
    WalkPrefixConcat(a, b, |b|);
  }

  lemma WalkSingle(e: Entry)
    ensures WalkFiles(Listed([e])) == EntryFiles(e)
  {
    assert WalkPrefix(Listed([e]), 1) == WalkPrefix(Listed([e]), 0) + EntryFiles(e);
  }

  /** The files handed over for the entry at position |a| sit between those of its siblings. */
  lemma WalkAround(a: seq<Entry>, e: Entry, b: seq<Entry>)
    ensures WalkFiles(Listed(a + [e] + b))
         == WalkFiles(Listed(a)) + EntryFiles(e) + WalkFiles(Listed(b))
  {
    WalkConcat(a + [e], b);
    WalkConcat(a, [e]);
    WalkSingle(e);
  }

  /** An entry whose name starts with a dot is neither appended nor entered, whatever it is. */
  lemma HiddenEntrySkipped(a: seq<Entry>, e: Entry, b: seq<Entry>)
    requires Hidden(e.name)
    ensures WalkFiles(Listed(a + [e] + b)) == WalkFiles(Listed(a + b))
  {
    WalkAround(a, e, b);
    WalkConcat(a, b);
  }

  /** An entry that is neither a directory nor a regular file is ignored. */
  lemma OtherEntryIgnored(a: seq<Entry>, e: Entry, b: seq<Entry>)
    requires e.Other?
    ensures WalkFiles(Listed(a + [e] + b)) == WalkFiles(Listed(a + b))
  {
    WalkAround(a, e, b);
    WalkConcat(a, b);
  }

  /** A visible regular file is appended after its earlier siblings and before its later ones. */
  lemma RegularFileInPlace(a: seq<Entry>, e: Entry, b: seq<Entry>)
    requires e.Reg? && !Hidden(e.name)
    ensures WalkFiles(Listed(a + [e] + b))
         == WalkFiles(Listed(a)) + [e.content] + WalkFiles(Listed(b))
  {
    WalkAround(a, e, b);
  }

  /**
   * Depth first, pre-order: all files below a visible subdirectory are
   * appended before any later sibling of that subdirectory.
   */
  lemma SubdirectoryInPlace(a: seq<Entry>, e: Entry, b: seq<Entry>)
    requires e.Dir? && !Hidden(e.name)
    ensures WalkFiles(Listed(a + [e] + b))
         == WalkFiles(Listed(a)) + WalkFiles(e.listing) + WalkFiles(Listed(b))
  {
    WalkAround(a, e, b);
  }

  /** A subdirectory that cannot be opened contributes nothing, and the walk goes on with its siblings. */
  lemma UnopenableSubdirectorySkipped(a: seq<Entry>, name: string, b: seq<Entry>)
    ensures WalkFiles(Listed(a + [Dir(name, CannotOpen)] + b)) == WalkFiles(Listed(a + b))
  {
    WalkAround(a, Dir(name, CannotOpen), b);
    WalkConcat(a, b);
  }

  /** In a directory of visible regular files, the files are appended in listing order. */
  lemma {:induction false} FlatDirectoryInOrder(es: seq<Entry>)
    requires forall i :: 0 <= i < |es| ==> es[i].Reg? && !Hidden(es[i].name)
    ensures WalkFiles(Listed(es)) == seq(|es|, i requires 0 <= i < |es| => es[i].content)
  {
    if es != [] {
      var init := es[..|es| - 1];
      FlatDirectoryInOrder(init);
      assert init + [es[|es| - 1]] == es;
      WalkConcat(init, [es[|es| - 1]]);
      WalkSingle(es[|es| - 1]);
    }
  }
}
