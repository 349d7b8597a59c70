/**
 * What the extraction loop sees of a cpio archive: a stream of scan results,
 * each either a record header paired with its payload, or a per-record error.
 * Parsing the archive itself is done by an external reader and is not modelled.
 */
module Cpio {

  type Bytes = seq<bv8>

  /** The two header fields the loop reads: `name()` and `mode()` (a `u32`). */
  datatype Header = Header(name: string, mode: bv32)

  /** One item yielded by the archive reader's `next()`. */
  datatype ScanResult =
    | Entry(header: Header, payload: Bytes)
    | ScanError(detail: string)

  /** Directory bit of a cpio mode, `0o0040000`. */
  const DirMask: bv32 := 0x4000
  /** Regular-file bit of a cpio mode, `0o0100000`. */
  const FileMask: bv32 := 0x8000
  /** Permission bits, `0o777`. */
  const PermissionBits: bv32 := 0x1FF

  /*
   * The file-type field of a cpio (POSIX `st_mode`) mode word. The program
   * does not use it; it is the reference against which the program's two
   * single-bit tests are described in `Classify`.
   */
  const TypeField: bv32 := 0xF000   // 0o170000
  const TypeSocket: bv32 := 0xC000  // 0o140000
  const TypeSymlink: bv32 := 0xA000 // 0o120000
  const TypeRegular: bv32 := 0x8000 // 0o100000
  const TypeBlock: bv32 := 0x6000   // 0o060000
  const TypeDir: bv32 := 0x4000     // 0o040000
  const TypeChar: bv32 := 0x2000    // 0o020000
  const TypeFifo: bv32 := 0x1000    // 0o010000

  function FileType(mode: bv32): bv32 {
    mode & TypeField
  }

  /** How the extraction loop treats a record, decided by its mode alone. */
  datatype Kind = Directory | RegularFile | Unsupported

  /**
   * The loop's mode test: the directory bit is tested first, so it wins when
   * both bits are set; only when neither is set is the record unsupported.
   * Against the file-type field this means that symbolic links are taken for
   * regular files, and block devices and sockets for directories.
   */
  function Classify(mode: bv32): (k: Kind)
    ensures k == Directory <==> mode & DirMask != 0
    ensures k == RegularFile <==> mode & DirMask == 0 && mode & FileMask != 0
    ensures k == Unsupported <==> mode & (DirMask | FileMask) == 0
    ensures FileType(mode) == TypeDir ==> k == Directory
    ensures FileType(mode) == TypeRegular ==> k == RegularFile
    ensures FileType(mode) == TypeSymlink ==> k == RegularFile
    ensures FileType(mode) == TypeBlock || FileType(mode) == TypeSocket ==> k == Directory
    ensures FileType(mode) == TypeChar || FileType(mode) == TypeFifo ==> k == Unsupported
  {
    if mode & DirMask != 0 then Directory
    else if mode & FileMask != 0 then RegularFile
    else Unsupported
  }

  /** The permission value computed for a regular file: the low nine mode bits. */
  function Permissions(mode: bv32): (perm: bv32)
    ensures perm <= PermissionBits
    ensures perm | (mode & !PermissionBits) == mode
    ensures perm & (DirMask | FileMask) == 0
  {
    mode & PermissionBits
  }
}
