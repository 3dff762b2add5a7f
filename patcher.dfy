/**
 * The patcher: extract the two boot loaders from the image's UDF file system,
 * then find one of them in the image's first 0x1_000_000 bytes and overwrite
 * it, in place, with the other.
 */
module Patcher {
  import opened Wrappers
  import opened Bytes
  import opened Search
  import UdfFs

  const CDBOOT_PATH := "/efi/microsoft/boot/cdboot.efi"
  const CDBOOT_NOPROMPT_PATH := "/efi/microsoft/boot/cdboot_noprompt.efi"

  /** Only this many leading bytes of the image are searched (16 MiB). */
  const SEARCH_LIMIT: nat := 0x1_000_000

  /** An operating-system error, carrying its diagnostic code. */
  datatype IoError = IoError(code: int)

  datatype PatchError = Udf(UdfFs.UdfError) | Io(IoError) | InvalidIsoFormat

  // ---------------------------------------------------------------------------
  // Extracting the two boot loaders
  // ---------------------------------------------------------------------------

  /**
   * What `grab_blobs` yields: both files read through the root of the default
   * partition. The method `GrabBlobs` performs the same steps and is proved
   * equal to this function; the lemmas use the function.
   */
  function Blobs(drv: UdfFs.Driver, path: string): Result<(seq<byte>, seq<byte>), UdfFs.UdfError> {
    var udf :- UdfFs.Open(drv, path);
    var root :- UdfFs.RootDirectory(drv, udf, None);
    var cdbootEntry :- UdfFs.OpenFile(drv, root, CDBOOT_PATH);
    var cdboot :- UdfFs.ReadOutcome(drv, cdbootEntry);
    var noPromptEntry :- UdfFs.OpenFile(drv, root, CDBOOT_NOPROMPT_PATH);
    var cdbootNoPrompt :- UdfFs.ReadOutcome(drv, noPromptEntry);
    Ok((cdboot, cdbootNoPrompt))
  }

  /** The driver can read the whole of the file behind pointer `p`. */
  predicate Readable(drv: UdfFs.Driver, p: nat) {
    var len := drv.fileLength(p);
    len != UdfFs.UNKNOWN_LENGTH &&
    drv.readBlock(p, UdfFs.BlockCount(len as int, drv.blockSize)).ret == len as int
  }

  /** Every driver call `grab_blobs` makes succeeds. */
  predicate EveryStepSucceeds(drv: UdfFs.Driver, path: string) {
    drv.open(path).Some? &&
    var root := drv.getRoot(drv.open(path).value, true, 0);
    root.Some? &&
    var cdboot := drv.fopen(root.value, CDBOOT_PATH);
    var noPrompt := drv.fopen(root.value, CDBOOT_NOPROMPT_PATH);
    cdboot.Some? && Readable(drv, cdboot.value) &&
    noPrompt.Some? && Readable(drv, noPrompt.value)
  }

  /** `grab_blobs`: open the volume, resolve its root, read both files; the same steps as `Blobs`. */
  method GrabBlobs(drv: UdfFs.Driver, path: string) returns (r: Result<(seq<byte>, seq<byte>), UdfFs.UdfError>)
    ensures r == Blobs(drv, path)
  {
    var udf :- UdfFs.Open(drv, path);
    var root :- UdfFs.RootDirectory(drv, udf, None);
    var cdbootEntry :- UdfFs.OpenFile(drv, root, CDBOOT_PATH);
    var cdboot :- UdfFs.Read(drv, cdbootEntry);
    var noPromptEntry :- UdfFs.OpenFile(drv, root, CDBOOT_NOPROMPT_PATH);
    var cdbootNoPrompt :- UdfFs.Read(drv, noPromptEntry);
    return Ok((cdboot, cdbootNoPrompt));
  }

  /**
   * Extraction is all or nothing: it succeeds exactly when every driver call
   * does, and then each blob is the file's content, as long as the driver
   * says the file is.
   */
  lemma BlobsAllOrNothing(drv: UdfFs.Driver, path: string)
    ensures Blobs(drv, path).Ok? <==> EveryStepSucceeds(drv, path)
    ensures Blobs(drv, path).Ok? ==>
      var root := drv.getRoot(drv.open(path).value, true, 0).value;
      var cdboot := drv.fopen(root, CDBOOT_PATH).value;
      var noPrompt := drv.fopen(root, CDBOOT_NOPROMPT_PATH).value;
      var blobs := Blobs(drv, path).value;
      blobs.0 == UdfFs.Transfer(drv, UdfFs.UdfDirent(cdboot), drv.fileLength(cdboot)).written &&
      blobs.1 == UdfFs.Transfer(drv, UdfFs.UdfDirent(noPrompt), drv.fileLength(noPrompt)).written &&
      |blobs.0| == drv.fileLength(cdboot) as int &&
      |blobs.1| == drv.fileLength(noPrompt) as int
  {
  }

  // ---------------------------------------------------------------------------
  // Deciding and applying the patch
  // ---------------------------------------------------------------------------

  /** The `(from, to)` pair: `to` is the variant the caller wants, `from` the other. */
  function Select(wantPrompt: bool, cdboot: seq<byte>, cdbootNoPrompt: seq<byte>): (pair: (seq<byte>, seq<byte>))
    ensures pair.1 == (if wantPrompt then cdboot else cdbootNoPrompt)
    ensures {pair.0, pair.1} == {cdboot, cdbootNoPrompt}
  {
    if wantPrompt then (cdbootNoPrompt, cdboot) else (cdboot, cdbootNoPrompt)
  }

  /** Asking for the other variant swaps `from` and `to`. */
  lemma SelectSwaps(wantPrompt: bool, cdboot: seq<byte>, cdbootNoPrompt: seq<byte>)
    ensures Select(!wantPrompt, cdboot, cdbootNoPrompt).0 == Select(wantPrompt, cdboot, cdbootNoPrompt).1
    ensures Select(!wantPrompt, cdboot, cdbootNoPrompt).1 == Select(wantPrompt, cdboot, cdbootNoPrompt).0
  {
  }

  /** The three ways a search of the prefix can come out. */
  datatype Decision = Overwrite(at: nat) | AlreadyPatched | Unrecognised

  /**
   * The patcher's decision on the searched prefix: overwrite the first
   * occurrence of `from`; failing that, nothing to do if `to` is there;
   * failing that, the image is not recognised.
   */
  function Decide(prefix: seq<byte>, from: seq<byte>, to: seq<byte>): (d: Decision)
    ensures d.Overwrite? <==> Occurs(prefix, from)
    ensures d.Overwrite? ==>
      MatchesAt(prefix, from, d.at) &&
      forall j: nat :: j < d.at ==> !MatchesAt(prefix, from, j)
    ensures d.AlreadyPatched? <==> !Occurs(prefix, from) && Occurs(prefix, to)
    ensures d.Unrecognised? <==> !Occurs(prefix, from) && !Occurs(prefix, to)
  {
    match FirstMatch(prefix, from)
    case Some(i) => Overwrite(i)
    case None => if FirstMatch(prefix, to).Some? then AlreadyPatched else Unrecognised
  }

  /** `image` with the window starting at `at` replaced by `to`. */
  function Overwritten(image: seq<byte>, at: nat, to: seq<byte>): (r: seq<byte>)
    requires at + |to| <= |image|
    ensures |r| == |image|
    ensures forall k :: 0 <= k < |to| ==> r[at + k] == to[k]
    ensures forall k :: 0 <= k < |image| && !(at <= k < at + |to|) ==> r[k] == image[k]
  {
    image[..at] + to + image[at + |to|..]
  }

  /** The image after the decision is carried out. */
  function Applied(d: Decision, image: seq<byte>, to: seq<byte>): seq<byte>
    requires d.Overwrite? ==> d.at + |to| <= |image|
  {
    if d.Overwrite? then Overwritten(image, d.at, to) else image
  }

  /** What `patch` returns for a decision, given how the flush went. */
  function Reported(d: Decision, flushed: Option<IoError>): Result<bool, PatchError> {
    match d
    case Overwrite(_) => if flushed.Some? then Err(Io(flushed.value)) else Ok(true)
    case AlreadyPatched => Ok(false)
    case Unrecognised => Err(InvalidIsoFormat)
  }

  /**
   * The in-place part of `patch`, on the mapped image `mmap`: search, overwrite,
   * flush. `flushed` is the error the flush reports, if any; by then the bytes
   * are already overwritten.
   */
  method PatchMap(mmap: array<byte>, from: seq<byte>, to: seq<byte>, flushed: Option<IoError>)
    returns (r: Result<bool, PatchError>)
    requires |from| == |to|
    requires SEARCH_LIMIT <= mmap.Length
    modifies mmap
    ensures r == Reported(Decide(old(mmap[..SEARCH_LIMIT]), from, to), flushed)
    ensures mmap[..] == Applied(Decide(old(mmap[..SEARCH_LIMIT]), from, to), old(mmap[..]), to)
  {
    var found := SearchIn(mmap, SEARCH_LIMIT, from);
    if found.None? {
      var patchFound := SearchIn(mmap, SEARCH_LIMIT, to);
      if patchFound.Some? {
        return Ok(false);
      } else {
        return Err(InvalidIsoFormat);
      }
    }
    var index := found.value;
    forall k | 0 <= k < |to| {
      mmap[index + k] := to[k];
    }
    assert mmap[..] == Overwritten(old(mmap[..]), index, to);
    if flushed.Some? {
      return Err(Io(flushed.value));
    }
    return Ok(true);
  }

  /** The condition under which `patch` takes the slice of the first 0x1_000_000 mapped bytes. */
  predicate SlicesMap(drv: UdfFs.Driver, path: string, mapping: Result<array<byte>, IoError>) {
    Blobs(drv, path).Ok? && |Blobs(drv, path).value.0| == |Blobs(drv, path).value.1| && mapping.Ok?
  }

  /**
   * `patch`: `mapping` is what opening and memory-mapping the image file gave
   * (the mapped bytes, or the error); `flushed` is the error of the flush, if any.
   */
  method Patch(drv: UdfFs.Driver, path: string, wantPrompt: bool,
               mapping: Result<array<byte>, IoError>, flushed: Option<IoError>)
    returns (r: Result<bool, PatchError>)
    requires SlicesMap(drv, path, mapping) ==> SEARCH_LIMIT <= mapping.value.Length
    modifies if mapping.Ok? then {mapping.value} else {}
    ensures Blobs(drv, path).Err? ==> r == Err(Udf(Blobs(drv, path).error))
    ensures Blobs(drv, path).Ok? && |Blobs(drv, path).value.0| != |Blobs(drv, path).value.1| ==>
      r == Err(InvalidIsoFormat)
    ensures !SlicesMap(drv, path, mapping) && mapping.Ok? ==> unchanged(mapping.value)
    ensures Blobs(drv, path).Ok? && |Blobs(drv, path).value.0| == |Blobs(drv, path).value.1| && mapping.Err? ==>
      r == Err(Io(mapping.error))
    ensures SlicesMap(drv, path, mapping) ==>
      var pair := Select(wantPrompt, Blobs(drv, path).value.0, Blobs(drv, path).value.1);
      var d := Decide(old(mapping.value[..SEARCH_LIMIT]), pair.0, pair.1);
      r == Reported(d, flushed) &&
      mapping.value[..] == Applied(d, old(mapping.value[..]), pair.1)
  {
    var blobs := GrabBlobs(drv, path);
    if blobs.Err? {
      return Err(Udf(blobs.error));
    }
    var cdboot, cdbootNoPrompt := blobs.value.0, blobs.value.1;
    if |cdboot| != |cdbootNoPrompt| {
      return Err(InvalidIsoFormat);
    }
    var pair := Select(wantPrompt, cdboot, cdbootNoPrompt);
    if mapping.Err? {
      return Err(Io(mapping.error));
    }
    r := PatchMap(mapping.value, pair.0, pair.1, flushed);
  }

  // ---------------------------------------------------------------------------
  // Properties of the decision
  // ---------------------------------------------------------------------------

  /**
   * An occurrence is seen by the search exactly when it lies wholly inside the
   * first SEARCH_LIMIT bytes: one that starts at or beyond the limit, or runs
   * past it, is never matched.
   */
  lemma PrefixOccurrence(image: seq<byte>, pat: seq<byte>, k: nat)
    requires SEARCH_LIMIT <= |image|
    ensures MatchesAt(image[..SEARCH_LIMIT], pat, k) <==> MatchesAt(image, pat, k) && k + |pat| <= SEARCH_LIMIT
  {
  }

  /** An image whose only copies of either blob cross or lie beyond the limit is not recognised. */
  lemma OnlyPrefixSearched(image: seq<byte>, from: seq<byte>, to: seq<byte>)
    requires SEARCH_LIMIT <= |image|
    requires forall k: nat :: MatchesAt(image, from, k) ==> SEARCH_LIMIT < k + |from|
    requires forall k: nat :: MatchesAt(image, to, k) ==> SEARCH_LIMIT < k + |to|
    ensures Decide(image[..SEARCH_LIMIT], from, to) == Unrecognised
  {
    forall k: nat ensures !MatchesAt(image[..SEARCH_LIMIT], from, k) && !MatchesAt(image[..SEARCH_LIMIT], to, k) {
      PrefixOccurrence(image, from, k);
      PrefixOccurrence(image, to, k);
    }
  }

  /**
   * When `from` is found, the window written is inside the searched prefix,
   * it then holds `to` (so `to` now occurs there at the same offset), and no
   * byte outside it changes.
   */
  lemma OverwriteStaysInPrefix(image: seq<byte>, from: seq<byte>, to: seq<byte>)
    requires |from| == |to| && SEARCH_LIMIT <= |image|
    ensures var d := Decide(image[..SEARCH_LIMIT], from, to);
      d.Overwrite? ==>
        var after := Applied(d, image, to);
        d.at + |from| <= SEARCH_LIMIT &&
        |after| == |image| &&
        after[d.at..d.at + |to|] == to &&
        MatchesAt(after[..SEARCH_LIMIT], to, d.at) &&
        (forall k :: 0 <= k < |image| && !(d.at <= k < d.at + |to|) ==> after[k] == image[k]) &&
        after[SEARCH_LIMIT..] == image[SEARCH_LIMIT..]
  {
  }

  /** Only an overwrite changes the image. */
  lemma OnlyOverwriteChanges(image: seq<byte>, from: seq<byte>, to: seq<byte>)
    requires |from| == |to| && SEARCH_LIMIT <= |image|
    ensures var d := Decide(image[..SEARCH_LIMIT], from, to);
      Applied(d, image, to) != image ==> d.Overwrite? && Reported(d, None) == Ok(true)
    ensures var d := Decide(image[..SEARCH_LIMIT], from, to);
      Reported(d, None) == Ok(false) ==> Applied(d, image, to) == image
  {
  }

  /**
   * Patching twice towards the same variant: when the first call removed the
   * last copy of `from` from the prefix, the second has nothing to do and
   * leaves the image as the first call left it.
   */
  lemma RepatchNothingToDo(image: seq<byte>, from: seq<byte>, to: seq<byte>)
    requires |from| == |to| && SEARCH_LIMIT <= |image|
    requires Decide(image[..SEARCH_LIMIT], from, to).Overwrite?
    requires !Occurs(Applied(Decide(image[..SEARCH_LIMIT], from, to), image, to)[..SEARCH_LIMIT], from)
    ensures var after := Applied(Decide(image[..SEARCH_LIMIT], from, to), image, to);
      var d := Decide(after[..SEARCH_LIMIT], from, to);
      d == AlreadyPatched && Reported(d, None) == Ok(false) && Applied(d, after, to) == after
  {
    var d := Decide(image[..SEARCH_LIMIT], from, to);
    var after := Applied(d, image, to);
    OverwriteStaysInPrefix(image, from, to);
    assert MatchesAt(after[..SEARCH_LIMIT], to, d.at);
  }

  /**
   * Without that condition a second call need not find nothing to do: with
   * every prefix byte 0 and one-byte blobs [0] and [1], the first call patches
   * offset 0 and the second patches offset 1.
   */
  lemma RepatchNotIdempotent()
    ensures var image := seq(SEARCH_LIMIT, _ => 0 as byte);
      var first := Decide(image[..SEARCH_LIMIT], [0], [1]);
      var after := Applied(first, image, [1]);
      first == Overwrite(0) && Decide(after[..SEARCH_LIMIT], [0], [1]) == Overwrite(1)
  {
    var image := seq(SEARCH_LIMIT, _ => 0 as byte);
    assert image[..SEARCH_LIMIT] == image;
    assert MatchesAt(image, [0], 0);
    var first := Decide(image, [0], [1]);
    var after := Applied(first, image, [1]);
    assert after[..SEARCH_LIMIT] == after;
    assert after[1..2] == [0];
    assert MatchesAt(after, [0], 1);
    assert !MatchesAt(after, [0], 0) by {
      assert after[0..1] == [1];
    }
  }

  /** Writing back the bytes a window held undoes an overwrite of that window. */
  lemma OverwriteUndone(image: seq<byte>, at: nat, from: seq<byte>, to: seq<byte>)
    requires |from| == |to| && at + |from| <= |image|
    requires image[at..at + |from|] == from
    ensures Overwritten(Overwritten(image, at, to), at, from) == image
  {
  }

  /**
   * Patching one way and then the other restores the image, provided the
   * second search meets the copy of `to` the first call wrote before any other.
   */
  lemma RoundTrip(image: seq<byte>, from: seq<byte>, to: seq<byte>)
    requires |from| == |to| && SEARCH_LIMIT <= |image|
    requires Decide(image[..SEARCH_LIMIT], from, to).Overwrite?
    requires var d := Decide(image[..SEARCH_LIMIT], from, to);
      forall j: nat :: j < d.at ==> !MatchesAt(Applied(d, image, to)[..SEARCH_LIMIT], to, j)
    ensures var first := Decide(image[..SEARCH_LIMIT], from, to);
      var after := Applied(first, image, to);
      var second := Decide(after[..SEARCH_LIMIT], to, from);
      second == first && Applied(second, after, from) == image
  {
    var first := Decide(image[..SEARCH_LIMIT], from, to);
    var after := Applied(first, image, to);
    OverwriteStaysInPrefix(image, from, to);
    var second := Decide(after[..SEARCH_LIMIT], to, from);
    assert second == first;
    PrefixOccurrence(image, from, first.at);
    OverwriteUndone(image, first.at, from, to);
  }
}
