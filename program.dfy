/**
 * The program's `main` around the loop: open the firmware image, select
 * `/initrd`, open it as a compressed cpio archive, extract, and fail when
 * nothing was extracted. The ISO-9660 reader, the gzip decoder and the cpio
 * reader are external; what they answer is given as parameters.
 */
module Program {
  import opened Wrappers
  import opened Cpio
  import opened Initrd
  import opened Extraction

  /** What opening the firmware file and reading it as an ISO-9660 volume gives. */
  datatype Firmware =
    | Unopenable(detail: string)                              // the file cannot be opened
    | NotIso(detail: string)                                  // the file is not an ISO-9660 volume
    | Volume(initrd: Result<Option<DirectoryEntry>, string>)  // what the volume answers for `/initrd`

  /** The errors `main` ends with, each with the context the program attaches. */
  datatype ProgramError =
    | CannotOpenFirmware(detail: string)
    | CannotOpenAsIso(detail: string)
    | InitrdLookup(lookupError: LookupError)
    | NotACompressedArchive(detail: string)
    | ExtractionFailed(runError: RunError)

  /**
   * The whole run. Every error met before the loop ends the run before any
   * filesystem call or printed line; a `/initrd` that is missing or is a
   * directory ends it with "cannot find". Otherwise the log is the loop's,
   * and the run succeeds exactly when the loop does.
   */
  method Run(firmware: Firmware, openArchive: Bytes -> Result<seq<ScanResult>, string>, env: Env)
    returns (result: Result<(), ProgramError>, log: seq<Event>)
    ensures firmware.Unopenable? ==> result == Err(CannotOpenFirmware(firmware.detail)) && log == []
    ensures firmware.NotIso? ==> result == Err(CannotOpenAsIso(firmware.detail)) && log == []
    ensures firmware.Volume? && FindInitrd(firmware.initrd).Err? ==>
      result == Err(InitrdLookup(FindInitrd(firmware.initrd).error)) && log == []
    ensures (firmware.Volume? && firmware.initrd.Ok? &&
             (firmware.initrd.value.None? || firmware.initrd.value.value.Directory?)) ==>
      result == Err(InitrdLookup(InitrdNotFound)) && log == []
    ensures (firmware.Volume? && firmware.initrd.Ok? && firmware.initrd.value.Some? &&
             firmware.initrd.value.value.File?) ==>
      var archive := openArchive(firmware.initrd.value.value.content);
      && (archive.Err? ==> result == Err(NotACompressedArchive(archive.error)) && log == [])
      && (archive.Ok? ==>
            var p := Scan(archive.value, env);
            && log == p.log
            && (result.Ok? <==> Conclude(p) == Extracted)
            && (result.Err? ==> result.error == ExtractionFailed(Conclude(p).error)))
  {
    log := [];
    match firmware {
      case Unopenable(detail) =>
        return Err(CannotOpenFirmware(detail)), log;
      case NotIso(detail) =>
        return Err(CannotOpenAsIso(detail)), log;
      case Volume(lookup) =>
        var initrd := FindInitrd(lookup);
        if initrd.Err? {
          return Err(InitrdLookup(initrd.error)), log;
        }
        var archive := openArchive(initrd.value);
        if archive.Err? {
          return Err(NotACompressedArchive(archive.error)), log;
        }
        var outcome;
        outcome, log := Extract(archive.value, env);
        result := if outcome.Extracted? then Ok(()) else Err(ExtractionFailed(outcome.error));
    }
  }
}
