# Windows setup de-prompt patcher: a Dafny model

The patcher takes a Windows installation ISO image. It reads two boot loaders
from the image's UDF file system: `/efi/microsoft/boot/cdboot.efi` (asks for a
key press) and `/efi/microsoft/boot/cdboot_noprompt.efi` (does not ask). Then it
memory-maps the image and searches its first 0x1_000_000 bytes for the variant
that should not be active. If it finds it, it overwrites the first copy in place
with the wanted variant. If it finds only the wanted variant, there is nothing
to do. If it finds neither, the image is not recognised.

The model has five modules:

- `Wrappers` (`wrappers.dfy`): `Option` and `Result`, usable with `:-`.
- `Bytes` (`bytes.dfy`): the `byte` type.
- `Search` (`search.dfy`): the exact-match, lowest-offset contract of the
  `TwoWaySearcher::search_in` call (`FindFrom`, `FirstMatch`). It also holds a
  shift-by-one search, `SearchIn`, over the prefix of a byte array, proved
  against that contract.
- `UdfFs` (`udf.dfy`): the wrappers `Udf::open`, `Udf::root_directory`,
  `UdfDirent::open_file`, `UdfDirent::length` and `UdfDirent::read`. The C
  driver is a `Driver` record holding the answers of its entry points
  (`udf_open`, `udf_get_root`, `udf_fopen`, `udf_get_file_length`,
  `udf_read_block`) and the block size `UDF_BLOCKSIZE`. The block size is only
  known to be positive. `udf_read_block` is given one promise: a non-negative
  return value counts exactly the bytes it wrote (`DriverReply`).
- `Patcher` (`patcher.dfy`): `grab_blobs` (`Blobs` and the method `GrabBlobs`)
  and `patch`. `patch` is split into the method `Patch`, which covers steps in
  source order, and the in-place part `PatchMap` on an `array<byte>`. The
  memory map is that array. The search decision is the function `Decide`, and
  the bytes it leaves are given by `Applied` / `Overwritten`.

`PatchMap` and `Patch` are stated against the pure functions `Decide`,
`Applied` and `Reported`. The lemmas in `Patcher` then prove what the patcher
promises about those functions.

`UdfFs.ReadOutcome` and `UdfFs.Read`, and `Patcher.Blobs` and
`Patcher.GrabBlobs`, are each one operation written twice. The method performs
the function's steps and is proved equal to it, and the lemmas use the function.

The operating system is represented by parameters of `Patch`:

- `mapping` is what opening and mapping the image gave: the bytes as an
  array, or an `IoError`.
- `flushed` is the error the flush reported, if any.

`src/lib.rs` and `src/main.rs` contain the same logic. The table cites
`src/lib.rs`.

Some things the code does that a reader might not expect:

- The search covers `0x1_000_000` bytes, which is 16 MiB, not the "first
  megabyte" named in the source comment at `src/lib.rs:144`.
- Patching twice in the same direction does not always report "nothing to do"
  the second time. A second copy of `from` can still be there.
  `RepatchNotIdempotent` gives such an image, and `RepatchNothingToDo` states
  the condition under which the claim holds, provided the second call
  extracts the same two blobs.
- Patching there and back does not always restore the image. `RoundTrip`
  proves that it does when the second search first meets the copy that the
  first call wrote, provided the second call extracts the same two blobs.
- Both of these lemmas keep the blobs of the first call. A real second call
  runs `grab_blobs` again on the file it has just changed (`src/lib.rs:129`
  and `src/lib.rs:140` both use `path`). If the overwritten window lies inside
  either file's data, the blobs it extracts can differ. With both equal to
  `to`, for example, it finds `to`, overwrites it with itself and reports a
  patch.
- A flush failure is reported as an error after the bytes are already
  overwritten. So a failed run does not always leave the image unchanged.
- `patch` panics on an image shorter than 0x1_000_000 bytes, but only when
  extraction succeeded and the blob lengths agree. That is when the slice is
  taken. This is the precondition of `Patch`.

## Model

| member | source | states |
|---|---|---|
| `Search.FindFrom` | src/lib.rs:145 | the result is the lowest offset at or after `k` where the pattern lies wholly inside the haystack; `None` means no such offset exists |
| `Search.FirstMatch` | src/lib.rs:145 | `search_in` returns the lowest offset of an exact match; `None` exactly when the pattern does not occur |
| `Search.SearchIn` | src/lib.rs:145-148 | searching the slice `a[..limit]` of the array returns exactly the first match in that slice |
| `UdfFs.Open` | src/lib.rs:28-36 | opening fails exactly when the driver returns a null volume; otherwise the handle is the driver's |
| `UdfFs.RootDirectory` | src/lib.rs:38-45 | with no partition the driver is asked for any partition with index 0, otherwise for the given one; fails exactly on a null root |
| `UdfFs.OpenFile` | src/lib.rs:75-83 | lookup fails exactly when the driver returns no entry for the name; otherwise gives that entry |
| `UdfFs.Length` | src/lib.rs:66-73 | an error exactly when the driver reports 0x7fffffff; otherwise the reported length |
| `UdfFs.BlockCount` | src/lib.rs:92 | the block count is the ceiling of `len / UDF_BLOCKSIZE`: the blocks cover `len` and one block fewer would not |
| `UdfFs.ReadOutcome` | src/lib.rs:91-100 | a read succeeds exactly when the length is known and the driver reports exactly `len` bytes for the ceiling block count; the result then has `len` bytes, the ones the driver wrote |
| `UdfFs.Read` | src/lib.rs:85-101 | yields exactly `ReadOutcome`; keeping `len` bytes of the buffer of whole blocks stays within its capacity |
| `Patcher.GrabBlobs` | src/lib.rs:113-119 | the two reads are chained with `?`, yielding exactly `Blobs` |
| `Patcher.BlobsAllOrNothing` | src/lib.rs:113-119 | extraction succeeds exactly when every driver call succeeds; each blob is then the content of its file, as long as the driver says the file is |
| `Patcher.Select` | src/lib.rs:134-138 | `to` is the variant the caller wants and `from` is the other one of the two blobs |
| `Patcher.SelectSwaps` | src/lib.rs:134-138 | asking for the other variant swaps `from` and `to` |
| `Patcher.Decide` | src/lib.rs:145-155 | overwrite exactly when `from` occurs in the prefix, at its lowest occurrence; "nothing to do" exactly when only `to` occurs; "unrecognised" exactly when neither does |
| `Patcher.Overwritten` | src/lib.rs:157 | the length is kept, the window holds `to`, and every byte outside the window is unchanged |
| `Patcher.PatchMap` | src/lib.rs:145-159 | the result and the new bytes of the mapped image are those of the decision on the old prefix; the flush error, if any, is reported after the overwrite |
| `Patcher.Patch` | src/lib.rs:128-159 | extraction errors propagate as `Udf`; unequal blob lengths give `InvalidIsoFormat` with the image untouched; a mapping error gives `Io`; otherwise the in-place patch with `(from, to)` chosen by `wantPrompt` |
| `Patcher.PrefixOccurrence` | src/lib.rs:145-148 | the search sees an occurrence exactly when it lies wholly inside the first 0x1_000_000 bytes |
| `Patcher.OnlyPrefixSearched` | src/lib.rs:145-153 | copies of either blob that start at or beyond the limit, or run past it, leave the image unrecognised |
| `Patcher.OverwriteStaysInPrefix` | src/lib.rs:145-157 | the patched window is inside the prefix; afterwards it holds `to`, so `to` occurs there; nothing else, and nothing past the limit, changes |
| `Patcher.OnlyOverwriteChanges` | src/lib.rs:145-159 | only an overwrite changes the image, and it is reported as a patch (`Ok(true)`) when the flush succeeds; "nothing to do" leaves the image as it was |
| `Patcher.RepatchNothingToDo` | src/lib.rs:145-159 | if the first patch removed the last copy of `from` from the prefix, a second call that extracts the same two blobs has nothing to do and changes nothing |
| `Patcher.RepatchNotIdempotent` | src/lib.rs:145-157 | an image on which two calls in the same direction both patch, at offsets 0 and 1 |
| `Patcher.OverwriteUndone` | src/lib.rs:157 | writing the window's old bytes back undoes an overwrite |
| `Patcher.RoundTrip` | src/lib.rs:134-157 | patching one way and then the other restores the image, provided the second call extracts the same two blobs and its search first meets the copy the first call wrote |

## Left out

- The C driver's own work (volume descriptors, partitions, file entries, block reads). Its calls are the oracle functions of `UdfFs.Driver`.
- The link between the driver's answers and the mapped bytes. Both come from the file at `path`, but in the model a `UdfFs.Driver` does not depend on the mapped array. So an overwrite does not change what a later extraction reads.
- The value of `UDF_BLOCKSIZE`, which the generated bindings hold. The model only uses the fact that it is positive.
- `UdfDirent::filename` and its `CStr` conversion. It is a pointer wrapper with no logic.
- The empty-path `udf_fopen` call at the start of `read`, and its `assert!`. The call resets the driver's file cursor. `Driver.readBlock` answers as if every read starts at the beginning of the file, which is what the reset achieves. The `assert!` panics if the driver returns an entry for the empty name; the model does not represent that panic.
- `Drop` for `Udf` and `UdfDirent` (`udf_close`, `udf_dirent_free` and their asserts), and the `PhantomData` lifetimes. These are about resource lifetimes, not results.
- `CString::new(..).unwrap()` and `to_str().unwrap()` panics on paths with NUL bytes or invalid UTF-8. Paths are Dafny strings.
- UdfFs.Read: does not model 64-bit `usize` overflow of `len + UDF_BLOCKSIZE - 1`, the capacity check of `Vec::with_capacity`, or the cast `len as isize`. Lengths are unbounded integers. In a release build a length above 2^64 - `UDF_BLOCKSIZE` would wrap `len + UDF_BLOCKSIZE - 1` to a small value, giving a block count of 0 and a negative `len as isize`; file lengths that large do not occur on a disc image.
- Opening the file (`OpenOptions`), `MmapMut::map_mut` and `flush` are OS I/O. They are the parameters `mapping` (the mapped bytes, or an `IoError`) and `flushed` of `Patcher.Patch`.
- The internals of the Two-Way algorithm, which come from an external crate. `Search.FirstMatch` states its contract, the lowest offset of an exact match. Two empty blobs are modelled as a match at offset 0, so `patch` writes nothing and reports `Ok(true)`. What the `memmem` crate does with an empty needle is assumed to agree.
- `main` (argument count check, usage and result messages, `unwrap`) and the commented-out `UdfFileReader` in `src/main.rs`.
- Concurrent access to the mapped file by other processes.
