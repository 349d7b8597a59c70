/**
 * Selecting the `/initrd` entry of the firmware image. The ISO-9660 reader is
 * external: what it answers for the path is a parameter here.
 */
module Initrd {
  import opened Wrappers
  import opened Cpio

  /** An entry of the ISO-9660 volume; a file exposes its contents. */
  datatype DirectoryEntry = Directory(name: string) | File(content: Bytes)

  /** The two ways the lookup of `/initrd` ends the run. */
  datatype LookupError =
    | CannotOpenInitrd(detail: string)  // the reader failed on the path
    | InitrdNotFound                    // no entry, or a directory

  /**
   * The bytes `/initrd` reads as, given what the volume reader answered for
   * the path. Only a `File` entry gives a reader; a directory is treated as
   * if nothing were there.
   */
  function FindInitrd(lookup: Result<Option<DirectoryEntry>, string>): (r: Result<Bytes, LookupError>)
    ensures r.Ok? <==> lookup.Ok? && lookup.value.Some? && lookup.value.value.File?
    ensures r.Ok? ==> lookup.value.value == File(r.value)
    ensures lookup.Err? ==> r == Err(CannotOpenInitrd(lookup.error))
    ensures lookup.Ok? && (lookup.value.None? || lookup.value.value.Directory?) ==> r == Err(InitrdNotFound)
  {
    match lookup
    case Err(detail) => Err(CannotOpenInitrd(detail))
    case Ok(entry) =>
      var file := match entry
        case Some(File(content)) => Some(content)
        case Some(Directory(_)) => None
        case None => None;
      if file.Some? then Ok(file.value) else Err(InitrdNotFound)
  }
}
