# extract-samsung-firmware: the extraction loop, modelled in Dafny

The program reads a Samsung SSD firmware-update ISO image, finds `/initrd`
in it, decompresses it as gzip, reads the result as a cpio archive and
writes out the entries under `root/fumagician` into an output directory.
This project models the part of `main` that decides what happens:

- the selection of the `/initrd` entry (a missing entry and a directory are
  both "cannot find `/initrd`");
- the scan loop over the archive reader's results: a reader error is warned
  about and skipped; a header whose name starts with `root/fumagician` sets
  the `has_extracted` flag, loses its `root/` prefix, is joined onto the
  output directory and is created as a directory (directory bit `0o040000`
  first), written as a file with its whole payload (file bit `0o100000`), or
  warned about; every other header is ignored without a word;
- the final check that something was extracted.

Modules, one per concern of `src/main.rs`:

- `Wrappers` (`wrappers.dfy`): `Option` and `Result`.
- `Cpio` (`cpio.dfy`): header, scan result, the two masks, the mode
  classification and the permission value.
- `Paths` (`paths.dfy`): `starts_with`, `strip_prefix`, the split of a name
  into `/`-separated segments with its inverse, and the target path.
- `Initrd` (`initrd.dfy`): the `/initrd` selection.
- `Extraction` (`extraction.dfy`): actions, the event log, the loop as a
  specification (`Scan`, a fold over the results) and as the program runs it
  (`Extract`, a `while` loop proved equal to `Scan`).
- `ExtractionProperties` (`properties.dfy`): what the loop guarantees over a
  whole archive.
- `Program` (`program.dfy`): `main` from opening the image to the final check.

The filesystem is not a state here: what the loop does to it is a log of the
calls it made (`create_dir_all`, `File::create`, `io::copy` of the payload,
`metadata`) and of the lines it printed. Which calls fail is a parameter of the
run, the set of failing calls; the first failing call ends the run with that
call's error, as the `?` operators do. The external readers (ISO-9660, gzip,
cpio) are parameters too: what the volume answers for `/initrd`, and what the
archive reader yields for its bytes.

Two things the code does that a reader of its comments might not expect, both
modelled as written:

- The mode test is two single-bit tests, not a comparison of the cpio
  file-type field. A symbolic link (`0o120000`) has the file bit set and is
  written out as a regular file whose content is the link target; a block
  device (`0o060000`) or a socket (`0o140000`) has the directory bit set and
  becomes a directory. Only character devices and FIFOs reach the warning.
  `Cpio.Classify` states this against the file-type field.
- The permission value `mode & 0o777` is computed and set on a local
  `Permissions` value that is never applied to the file
  (src/main.rs:107-112). The model computes it (`Cpio.Permissions`, carried by
  the `WriteFile` action) and makes no call for it.

Names are not checked for `..` segments: a selected name such as
`root/fumagician/../../x` maps to segments that leave the output directory once
the operating system resolves them. The model keeps segments literally; what it
proves is that every target starts at the output directory with a first
segment that begins with `fumagician`.

## Model

| member | source | states |
|---|---|---|
| `Cpio.Classify` | src/main.rs:95-119 | the directory bit wins over the file bit; a record is unsupported only when neither bit is set; against the cpio file-type field: directories and block devices and sockets go to the directory branch, regular files and symbolic links to the file branch, character devices and FIFOs to the warning |
| `Cpio.Permissions` | src/main.rs:111 | the permission value is at most `0o777`, has neither type bit, and is exactly the low nine bits of the mode (the mode is rebuilt from it and its upper bits) |
| `Paths.StripPrefix` | src/main.rs:88-91 | `strip_prefix` succeeds exactly when the name starts with the prefix, and then prefix plus remainder is the name |
| `Paths.Split` | src/main.rs:92 | the slash-split of a name has at least one segment and no segment contains `/` |
| `Paths.JoinSplit` | src/main.rs:92 | joining the segments with `/` gives back the name exactly |
| `Paths.SplitJoin` | src/main.rs:92 | splitting the join of slash-free segments gives back the segments |
| `Paths.FirstSegmentKeepsPrefix` | src/main.rs:85-92 | a slash-free prefix of a name is a prefix of its first segment |
| `Paths.TargetOf` | src/main.rs:88-92 | for every selected name the strip of `root/` succeeds (the `expect` never panics), the remainder starts with `fumagician`, the target is the output directory plus the remainder's segments, and the first segment starts with `fumagician` |
| `Initrd.FindInitrd` | src/main.rs:67-75 | `/initrd` yields bytes exactly for a `File` entry, and those are the file's contents; a reader error gives "cannot open `/initrd`"; no entry and a `Directory` entry both give "cannot find `/initrd`" |
| `Extraction.Decide` | src/main.rs:84-125 | a reader error gives its warning; a header is skipped exactly when its name is not selected; a selected header becomes create-directory exactly when the directory bit is set, write-file exactly when the directory bit is clear and the file bit set, a warning exactly when neither bit is set; a file gets the record's payload and the low nine mode bits; every action of a selected header is at its target |
| `Extraction.Perform` | src/main.rs:95-119 | an action's calls are made in order: it ends without error exactly when none of its calls fails, and then all its events are logged; otherwise the logged events are those before the first failing call, the next event is that call, and the error is that call's (`CallError`); only directory and file actions can fail; no logged call is a failing one |
| `Paths.StartsWith` | src/main.rs:85 | `starts_with`: the prefix is no longer than the name and agrees with it character by character, and then prefix plus the rest is the name |
| `Paths.Selected` | src/main.rs:85 | the loop's guard, `starts_with("root/fumagician")`; a selected name starts with `root/` and its remainder with `fumagician` |
| `Extraction.Events` | src/main.rs:95-119 | the reference list of calls and printed lines of each branch: none for an ignored header, the calls first and then exactly one printed line otherwise, a warning alone for a warning, every call at the action's target, and a file's payload copy among them |
| `Extraction.CallError` | src/main.rs:96-109 | the context error for each failing call (`cannot create directory`, `cannot create file`, `cannot write to file`, `cannot modify metadata`), at the call's target, never "nothing extracted" |
| `Extraction.Step` | src/main.rs:84-125 | the reference definition of one iteration: after a stop nothing changes; the log only grows; the flag is set exactly when it was or the result is a selected header (before its action runs); an ignored header or reader error never stops the loop; a stop comes only from a selected header and is never "nothing extracted" |
| `Extraction.Scan` | src/main.rs:82-126 | the reference definition of the loop that the `ExtractionProperties` lemmas are about: it starts with an unset flag and empty log, and a stopped loop has set the flag and never stopped with "nothing extracted" |
| `Extraction.Conclude` | src/main.rs:128 | the `ensure!` after the loop: success exactly when the loop ran to the end with the flag set; a stop fails with its own error; an unset flag fails with "nothing extracted" |
| `Extraction.HaltIsFinal` | src/main.rs:96-109 | once a call has failed, the later results change nothing |
| `Extraction.Materialize` | src/main.rs:88-119 | the loop body for a selected header makes exactly the calls and prints exactly the lines of its action, up to the first failing call |
| `Extraction.Extract` | src/main.rs:82-128 | the imperative loop ends with the log and outcome of the fold `Scan`: it stops at the first failing call, and otherwise fails with "nothing extracted" exactly when the flag is unset |
| `ExtractionProperties.FlagIffSelected` | src/main.rs:82-86 | `has_extracted` is set exactly when some result is a header with a selected name (including ones that are then only warned about), a stopped loop has always set it, and a stop is never "nothing extracted" |
| `ExtractionProperties.NothingExtractedIff` | src/main.rs:128 | the run fails with "no file or directory is extracted" exactly when no header is selected; it succeeds exactly when one is and no call failed; ignored headers and reader errors alone never make it succeed |
| `ExtractionProperties.IgnoredChangeNothing` | src/main.rs:84-125 | dropping the headers outside `root/fumagician` leaves flag, log and outcome unchanged: they cause no call and no line |
| `ExtractionProperties.ReaderErrorsIsolated` | src/main.rs:121-123 | dropping the reader errors leaves the flag and the stop unchanged and removes exactly their warnings from the log: an error neither sets the flag nor ends the loop |
| `ExtractionProperties.OneWarningPerReaderError` | src/main.rs:121-123 | while the loop runs, its reader warnings are the errors' details, one per error, in order |
| `ExtractionProperties.CallsComeFromSelected` | src/main.rs:85-103 | every logged filesystem call was made for some selected header at that header's target, every file is filled with its own record's payload, and every target is the output directory plus segments whose first begins with `fumagician` |
| `ExtractionProperties.RunsToEndIffNoCallFails` | src/main.rs:96-109 | the loop runs through all results exactly when none of the calls for their actions fails, and its log is then every result's events in order |
| `ExtractionProperties.SuccessCarriesOutEverySelected` | src/main.rs:95-119 | on success every selected directory was created at its target, every selected file was created and filled with exactly its payload, and every other selected entry was warned about |
| `ExtractionProperties.StepFilters` | src/main.rs:121-123 | one iteration on a reader error adds only its warning; on a header it adds no reader warning |
| `Program.Run` | src/main.rs:58-128 | errors from opening the image, reading it as ISO-9660, finding `/initrd` or opening the archive end the run before any filesystem call or printed line; a missing or directory `/initrd` is "cannot find"; otherwise the log is the loop's and the run succeeds exactly when the loop does |

## Left out

- ISO-9660 volume parsing, gzip decoding and cpio header parsing are external readers; the model takes their answers as parameters (`Firmware`, the `openArchive` function, the sequence of scan results). A gzip error met in the middle of the stream shows up as a reader error or as a failing payload copy.
- The archive reader's streaming, and the draining of a record's payload before the next header: each header is paired with its payload.
- Filesystem state: calls are logged, not applied to a modelled directory tree, so `create_dir_all` being idempotent, `File::create` needing its parent directory, and reading a written file back are not modelled; which calls fail is a parameter instead.
- `Cow::from_slash` and `PathBuf::join`: the target is the output directory plus the literal `/`-separated segments; the empty and `.` segments that `Path` would drop are kept.
- The `#[cfg(unix)]` choice: the model is the Unix build, which reads the file's metadata after writing it.
- Applying permissions: the program never applies the computed value, so neither does the model.
- Failing calls are a fixed set, so whether a call fails does not depend on history: a call identical to one that already succeeded (a second copy of the same payload to the same target, for a duplicated record) cannot fail later.
- Command-line parsing and help text (src/main.rs:18-52).
- The `--execute` step (src/main.rs:130-142), which spawns a process; its status test is inverted (it reports failure when the updater succeeded, src/main.rs:139-140).
- The wording of printed lines; only their kind and subject are kept.
