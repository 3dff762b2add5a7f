/**
 * The thin wrappers around the UDF driver: opening a volume, resolving its
 * root, looking up a path, asking for a file's length and reading a whole
 * file in blocks. The driver itself is a foreign C library; here it is a
 * record of the answers its functions give.
 */
module UdfFs {
  import opened Wrappers
  import opened Bytes

  newtype u16 = x: int | 0 <= x < 0x1_0000
  newtype u64 = x: int | 0 <= x < 0x1_0000_0000_0000_0000

  /** The length `udf_get_file_length` reports when it does not know it. */
  const UNKNOWN_LENGTH: u64 := 0x7fffffff

  /** `UDF_BLOCKSIZE` is fixed by the driver's bindings; all the model uses is that it is positive. */
  type BlockSize = n: int | 0 < n witness 1

  /** The driver gives no detail on failure. */
  datatype UdfError = UdfError

  /** A reply of `udf_read_block`: its return value and the bytes it wrote at the start of the buffer. */
  datatype ReadReply = ReadReply(ret: int, written: seq<byte>)

  /** The driver's own promise: a non-negative return value counts exactly the bytes written. */
  type DriverReply = r: ReadReply | r.ret >= 0 ==> |r.written| == r.ret witness ReadReply(-1, [])

  /**
   * The driver, as the answers of its entry points. Pointers are naturals and a
   * null pointer is `None`.
   */
  datatype Driver = Driver(
    blockSize: BlockSize,                  // UDF_BLOCKSIZE
    open: string -> Option<nat>,           // udf_open(path)
    getRoot: (nat, bool, u16) -> Option<nat>, // udf_get_root(udf, any_partition, partition)
    fopen: (nat, string) -> Option<nat>,   // udf_fopen(dirent, name)
    fileLength: nat -> u64,                // udf_get_file_length(dirent)
    readBlock: (nat, nat) -> DriverReply)  // udf_read_block(dirent, buffer, blocks)

  /** An open volume: the driver's `udf_t` handle. */
  datatype Udf = Udf(handle: nat)

  /** A file or directory of an open volume: the driver's `udf_dirent_t` handle. */
  datatype UdfDirent = UdfDirent(ptr: nat)

  /** `Udf::open`: fails exactly when the driver returns a null volume. */
  function Open(drv: Driver, path: string): (r: Result<Udf, UdfError>)
    ensures r.Ok? <==> drv.open(path).Some?
    ensures r.Ok? ==> r.value.handle == drv.open(path).value
  {
    match drv.open(path)
    case None => Err(UdfError)
    case Some(h) => Ok(Udf(h))
  }

  /**
   * `Udf::root_directory`: with no partition the driver is asked for any
   * partition (its index argument is then 0); otherwise for the given one.
   */
  function RootDirectory(drv: Driver, udf: Udf, partition: Option<u16>): (r: Result<UdfDirent, UdfError>)
    ensures partition.None? ==>
      (r.Ok? <==> drv.getRoot(udf.handle, true, 0).Some?) &&
      (r.Ok? ==> r.value.ptr == drv.getRoot(udf.handle, true, 0).value)
    ensures partition.Some? ==>
      (r.Ok? <==> drv.getRoot(udf.handle, false, partition.value).Some?) &&
      (r.Ok? ==> r.value.ptr == drv.getRoot(udf.handle, false, partition.value).value)
  {
    var anyPartition := partition.None?;
    var index := if partition.Some? then partition.value else 0;
    match drv.getRoot(udf.handle, anyPartition, index)
    case None => Err(UdfError)
    case Some(p) => Ok(UdfDirent(p))
  }

  /** `UdfDirent::open_file`: fails exactly when the driver finds no entry at `name`. */
  function OpenFile(drv: Driver, dir: UdfDirent, name: string): (r: Result<UdfDirent, UdfError>)
    ensures r.Ok? <==> drv.fopen(dir.ptr, name).Some?
    ensures r.Ok? ==> r.value.ptr == drv.fopen(dir.ptr, name).value
  {
    match drv.fopen(dir.ptr, name)
    case None => Err(UdfError)
    case Some(p) => Ok(UdfDirent(p))
  }

  /** `UdfDirent::length`: the driver's length, or an error for the "unknown" sentinel. */
  function Length(drv: Driver, d: UdfDirent): (r: Result<u64, UdfError>)
    ensures r.Err? <==> drv.fileLength(d.ptr) == UNKNOWN_LENGTH
    ensures r.Ok? ==> r.value == drv.fileLength(d.ptr) && r.value != UNKNOWN_LENGTH
  {
    var len := drv.fileLength(d.ptr);
    if len == UNKNOWN_LENGTH then Err(UdfError) else Ok(len)
  }

  /** The number of blocks `read` asks for: the least whose total size covers `len`. */
  function BlockCount(len: nat, bs: BlockSize): (blocks: nat)
    ensures len <= blocks * bs
    ensures blocks == 0 || (blocks - 1) * bs < len
  {
    var q := (len + bs - 1) / bs;
    var m := (len + bs - 1) % bs;
    assert len + bs - 1 == q * bs + m;
    assert q * bs - bs == (q - 1) * bs;
    q
  }

  /** The reply `read` gets from the driver for entry `d`, once the length is known. */
  function Transfer(drv: Driver, d: UdfDirent, len: u64): DriverReply {
    drv.readBlock(d.ptr, BlockCount(len as int, drv.blockSize))
  }

  /**
   * What `UdfDirent::read` yields: the whole file when its length is known and
   * the driver transfers exactly that many bytes, an error otherwise. The method
   * `Read` performs the same steps and is proved equal to this function; the
   * lemmas use the function.
   */
  function ReadOutcome(drv: Driver, d: UdfDirent): (r: Result<seq<byte>, UdfError>)
    ensures r.Ok? <==>
      drv.fileLength(d.ptr) != UNKNOWN_LENGTH &&
      Transfer(drv, d, drv.fileLength(d.ptr)).ret == drv.fileLength(d.ptr) as int
    ensures r.Ok? ==>
      |r.value| == drv.fileLength(d.ptr) as int &&
      r.value == Transfer(drv, d, drv.fileLength(d.ptr)).written
  {
    var len :- Length(drv, d);
    var reply := Transfer(drv, d, len);
    if reply.ret == len as int then Ok(reply.written) else Err(UdfError)
  }

  /**
   * `UdfDirent::read`: sizes a buffer for whole blocks, lets the driver fill it
   * and keeps the first `len` bytes when the driver reports all of them. The
   * same steps as `ReadOutcome`, which specifies it.
   */
  method Read(drv: Driver, d: UdfDirent) returns (r: Result<seq<byte>, UdfError>)
    ensures r == ReadOutcome(drv, d)
  {
    var len :- Length(drv, d);
    var blocks := BlockCount(len as int, drv.blockSize);
    var buffer := new byte[blocks * drv.blockSize];
    var reply := drv.readBlock(d.ptr, blocks);
    forall k | 0 <= k < buffer.Length && k < |reply.written| {
      buffer[k] := reply.written[k];
    }
    if reply.ret == len as int {
      assert buffer[..len] == reply.written;
      r := Ok(buffer[..len]);
    } else {
      r := Err(UdfError);
    }
  }
}
