# swrap: a verified model of the sector image packer

`swrap` wraps a directory tree into a single "sector friendly" image file.
It reserves the first 512-byte sector of the output for a header. It walks
the input directory depth first and appends every visible regular file
from offset 512 on. It adds each file's length to the running byte count
`total_bytes` and, when `total_bytes` is then not a sector multiple, writes
`512 - total_bytes % 512` zero bytes after the file. At the end it stores
`ALIGN_UP(total_bytes, SECTOR_SIZE)` as a 64-bit word at offset 0.

The model has four modules, one per layer of `swrap.c`:

- `Sector` (`sector.dfy`) covers the sector size and `uint64_t` arithmetic.
  - `Add64` is the wrapping `+`.
  - `BitAnd` is the C `&`, modelled on naturals one binary digit at a time.
  - `BitNot` is the bitwise complement of an n-bit word. `IntNot` is `~` on a C `int`, and `ToU64` converts an `int` to `uint64_t`.
  - `AlignUp` is the `ALIGN_UP` macro written out as it appears in the source. `SECTOR_SIZE` is an `int` literal, so `~` acts on the `int` 511 and yields -512. The `&` with the `uint64_t` sum then converts -512 to `uint64_t` by sign extension, giving 2^64 - 512. With an unsigned `512u`, the upper 32 bits of the mask would be cleared instead.
  - Lemmas prove what the masks compute: remainders, rounding down to a sector multiple, and wrap-around to 0 near 2^64.
- `Bytes` (`bytes.dfy`) covers the bytes of the output file.
  - `Zeros` is zero fill.
  - `U64Bytes` is the little-endian header word.
  - `Overwrite` is what a positioned `write` does to a file's contents. It overwrites in place, extends the file, and fills any gap past the old end with zeros. It never truncates: the output is opened without `O_TRUNC`.
- `FileTree` (`filetree.dfy`) covers the input tree.
  - A directory opens and yields its entries in `readdir` order, or it fails to open.
  - A regular file opens and maps to its bytes, or it does not.
  - `WalkFiles` is the sequence of regular files the walk hands to the packer, in order.
- `Swrap` (`swrap.dfy`) covers the packer.
  - It first gives value-level specifications: `Pad`, `Chunk`, `TotalAfter`, `Stream`, `Header`, `Payload` and `Image`.
  - The class `ImageBuilder` then holds the state the C program keeps in a global and in the output descriptor: the file contents, the file offset and `total_bytes`.
  - Its methods `AppendFile` (`append_file`) and `WalkDirs` (`walk_dirs`) are proved to change that state exactly as the specifications say.
  - The method `Wrap` (`wrap`) is proved to leave the output file equal to `Image`.

The model follows the code in one place where a natural reading of the
format says otherwise. `total_bytes` counts file bytes only, never padding,
and padding is chosen from `total_bytes`, not from the write position. So
file data does not in general start on a sector boundary. The header is not
the number of payload bytes either. Example: a 3-byte file followed by a
600-byte file gets 509 and then 421 zero bytes. The payload is then 1533
bytes long, but the header holds 1024 (`PaddingFollowsTotal`,
`HeaderCountsFileBytes`). What does hold is proved:

- the header is a sector multiple;
- the header is `ALIGN_UP` of the combined file length, when that length does not overflow (`HeaderRoundsFileBytes`).

## Model

| member | source | states |
|---|---|---|
| Sector.Add64 | swrap.c:89 | `total_bytes += file_len` on `uint64_t`: the exact sum when it is below 2^64, the sum minus 2^64 when it overflows once |
| Sector.BitAnd | swrap.c:44 | `x & y` is at most each operand |
| Sector.BitNotIsComplement | swrap.c:44 | complementing every binary digit of an n-bit value `x` gives `2^n - 1 - x` |
| Sector.IntNotIsBitwise | swrap.c:44 | `~x` on a non-negative `int` is negative and is the bitwise complement of `x` as a 32-bit pattern. Converted to `uint64_t` for the `&`, it is the 64-bit complement of `x`, by sign extension |
| Sector.LowMask | swrap.c:93 | masking with `2^k - 1` yields the remainder by `2^k` |
| Sector.HighMask | swrap.c:44 | for a value below `2^n`, masking with `2^n - 2^k` rounds it down to a multiple of `2^k` |
| Sector.MisalignIsRemainder | swrap.c:93 | `total_bytes & (SECTOR_SIZE - 1)` is `total_bytes % 512` |
| Sector.AlignUpSector | swrap.c:44 | `ALIGN_UP(v, 512)` is the wrapped sum `v + 511` rounded down to a multiple of 512 |
| Sector.AlignUpBounds | swrap.c:44 | `ALIGN_UP(v, 512)` is a multiple of 512. It is the least such value not below `v` when `v <= 2^64 - 512`, and 0 (wrap-around) above that |
| Sector.AlignUpIdempotent | swrap.c:44 | `ALIGN_UP` is idempotent and leaves a sector multiple unchanged |
| Bytes.Zeros | swrap.c:65-67 | the static `.bss` sector buffer: `n` bytes, all zero |
| Bytes.DecodeEncode | swrap.c:166 | reading back the `n` little-endian bytes of `v < 256^n` gives `v` |
| Bytes.EncodeDecode | swrap.c:166 | encoding the value of a byte string gives the same byte string back |
| Bytes.U64Bytes | swrap.c:166 | the 8 bytes `write(outfd, &total_bytes, 8)` stores, which read back as the value |
| Bytes.Overwrite | swrap.c:90 | a write of an empty buffer leaves the file as it was. Otherwise the file's new length is the larger of its old length and the write's end |
| Bytes.OverwriteBytes | swrap.c:97 | after a write: the buffer's bytes are at the offset, all other existing bytes are kept, and a gap past the old end reads as zeros |
| Bytes.OverwriteSequential | swrap.c:90-97 | two writes back to back, the second at the offset the first left, equal one write of both buffers |
| FileTree.WalkConcat | swrap.c:116-140 | the walk of a listing is the walk of its first part followed by the walk of the rest |
| FileTree.WalkAround | swrap.c:116-140 | an entry's files sit between those of its earlier and its later siblings |
| FileTree.HiddenEntrySkipped | swrap.c:117-119 | an entry whose name starts with `.` contributes nothing, whatever its type |
| FileTree.OtherEntryIgnored | swrap.c:133-139 | an entry that is neither `DT_DIR` nor `DT_REG` contributes nothing |
| FileTree.RegularFileInPlace | swrap.c:136-138 | a visible regular file is appended exactly once, between its siblings' files |
| FileTree.SubdirectoryInPlace | swrap.c:133-135 | depth first: all files below a visible subdirectory come before those of its later siblings |
| FileTree.UnopenableSubdirectorySkipped | swrap.c:110-114 | a subdirectory that fails `opendir` contributes nothing, and the walk goes on with its siblings (its -1 is ignored) |
| FileTree.FlatDirectoryInOrder | swrap.c:116-140 | in a directory of visible regular files, the files are appended in listing order |
| Swrap.Pad | swrap.c:93-98 | the padding after a file is below 512 (the `assert` of the source), brings the total to a sector multiple, and is zero exactly when the total already is one |
| Swrap.StreamSingle | swrap.c:63-101 | appending one file advances `total_bytes` and writes that file's chunk |
| Swrap.StreamConcat | swrap.c:116-140 | appending two runs of files one after the other is appending their concatenation, for both the counter and the bytes written |
| Swrap.TotalCountsFileBytes | swrap.c:89 | after any run of files `total_bytes` is its start plus the files' combined length, modulo 2^64. Padding is never counted |
| Swrap.PaddingFollowsTotal | swrap.c:89-98 | for files of 3 and 600 bytes the packer writes `x`, 509 zeros, `y`, 421 zeros: 1533 bytes, not a sector multiple |
| Swrap.EmptyFilePadsAgain | swrap.c:80-98 | an empty file adds nothing to `total_bytes`, so when the total is not a sector multiple its padding is written once more |
| Swrap.HeaderCountsFileBytes | swrap.c:164 | for the same two files `total_bytes` ends at 603 and the header is 1024 |
| Swrap.ImageHeader | swrap.c:164-166 | bytes 0-7 of the image are the header in little-endian order and read back as it; the header is a sector multiple |
| Swrap.ImagePayload | swrap.c:157-158 | the bytes written by the walk sit at offsets 512 onward; prior contents beyond them survive |
| Swrap.ImageReserved | swrap.c:156-166 | bytes 8-511 are never written: they keep the prior contents, or read as zeros where a non-empty payload extended a shorter file |
| Swrap.HeaderRoundsFileBytes | swrap.c:164 | without overflow, the header is the combined file length rounded up to a sector multiple |
| Swrap.AppendRuns | swrap.c:116-140 | the builder state after two successive runs of appends is the state after appending both runs at once |
| Swrap.ImageBuilder.constructor | swrap.c:150 | the output opened read-write without truncation: prior contents, offset 0, `total_bytes` 0 |
| Swrap.ImageBuilder.Seek | swrap.c:157 | `lseek(SEEK_SET)` sets the offset and changes nothing else |
| Swrap.ImageBuilder.Write | swrap.c:90 | `write` overwrites at the offset and advances the offset by the length |
| Swrap.ImageBuilder.AppendFile | swrap.c:63-101 | an unopenable file changes nothing. Otherwise `total_bytes` grows by the file length, and the file's bytes followed by `Pad(total_bytes)` zeros are written at the offset |
| Swrap.ImageBuilder.WalkDirs | swrap.c:104-143 | returns -1 exactly when the directory cannot be opened. The counter, the file and the offset become those of appending `WalkFiles(dir)` from the old state |
| Swrap.Wrap | swrap.c:146-169 | -1 with no image when the output cannot be opened. -1 with the file unchanged when the input directory cannot be opened. Otherwise 0, with the file equal to `Image(prior, input)` |

## Left out

- `main`, `getopt` option handling and `help`: command-line parsing and printing, outside the packer.
- `printf` and `perror` diagnostics: output only. They do not affect the image.
- The system calls themselves. `opendir`/`readdir`, `open`, `lseek(SEEK_END)` and `mmap` are replaced by the `FileTree` values: a listing in `readdir` order, and a file's bytes or its failure to open. `write` and `lseek(SEEK_SET)` are replaced by `Bytes.Overwrite` and the builder's offset. The order in which `readdir` returns entries is an input.
- Swrap.ImageBuilder.AppendFile: `Content.Unreadable` stands for `open` failing and for the `NULL` test at line 84. A non-empty file whose `mmap` fails returns `MAP_FAILED`, which is not `NULL`. The code would then add its length to `total_bytes` while the `write` fails. That case is not modelled. An empty file, whose `mmap` also returns `MAP_FAILED`, is modelled as `Mapped([])`, since writing zero bytes from it has no effect.
- Short or failed writes: every `write` is taken to write its whole buffer.
- `close` and the descriptor leaked when `mmap` fails: they hold no bytes of the image.
- `walk_dirs` never calls `closedir`. A large tree can therefore exhaust the process's descriptors and make later `open` or `opendir` calls fail. The model does not derive these failures. They can only be given as `Content.Unreadable` or `Listing.CannotOpen` entries of the input tree.
- The input tree is taken to be fixed before the walk and separate from the output file. If the output file lies inside the input directory, the code reaches it as a regular entry. It then maps the image's own partial contents, re-appends them and counts them in `total_bytes`. The model does not derive this contents from the output. A caller could only give it by hand as that entry's `Content`.
- `snprintf` truncation of paths longer than 255 bytes. An entry whose truncated path does not open corresponds to `Content.Unreadable` or `Listing.CannotOpen` in the tree given as input.
- Host byte order: the header word is written in little-endian order, as on the usual hosts of this tool.
- `misalign` is a `uint16_t`. The value it receives is below 512, so the narrowing never changes it, and the model uses the remainder directly.
- File lengths are unbounded naturals. Only `total_bytes` wraps at 2^64.
