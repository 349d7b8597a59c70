/**
 * The scan-and-extract loop of the program's `main`: every scan result is
 * turned into an action, the action's filesystem calls are made in order,
 * and a flag records whether any record of the firmware subtree was met.
 *
 * The filesystem is not modelled as a state: what the loop does to it is an
 * ordered log of the calls it made (and of the lines it printed). Which calls
 * fail is up to the environment, given as the set of calls that fail.
 */
module Extraction {
  import opened Wrappers
  import opened Cpio
  import opened Paths

  /** A filesystem call made by the loop. Any of them may fail. */
  datatype FsCall =
    | CreateDirAll(target: Target)              // `fs::create_dir_all`
    | CreateFile(target: Target)                // `File::create`
    | CopyPayload(target: Target, data: Bytes)  // `io::copy` of the record's payload into the file
    | ReadMetadata(target: Target)              // `File::metadata`, on Unix

  /** A line the loop prints; only its kind and subject are modelled. */
  datatype Message =
    | DirectoryCreated(target: Target)
    | FileWritten(target: Target)
    | NeitherDirNorFile(target: Target)  // warning: the record is skipped
    | ReadWarning(detail: string)        // warning: the archive reader reported an error

  /** One entry of the log: a filesystem call that succeeded, or a printed line. */
  datatype Event = Call(call: FsCall) | Say(message: Message)

  /** The errors that end the loop, or the run right after it. */
  datatype RunError =
    | CannotCreateDirectory(target: Target)
    | CannotCreateFile(target: Target)
    | CannotWriteFile(target: Target)
    | CannotReadMetadata(target: Target)
    | NothingExtracted

  /** What the loop does with one scan result. */
  datatype Action =
    | Skip
    | Warn(message: Message)
    | CreateDir(target: Target)
    | WriteFile(target: Target, data: Bytes, perm: bv32)

  /** The output directory, and the filesystem calls that fail in this run. */
  datatype Env = Env(outputDir: string, failing: set<FsCall>)

  /** A result the loop acts on: a header whose name is in the firmware subtree. */
  predicate IsSelected(r: ScanResult) {
    r.Entry? && Selected(r.header.name)
  }

  /**
   * The action for one scan result. An error gives a warning; a header is
   * acted on exactly when its name is selected, and then the directory bit
   * decides before the file bit. A file is written with the whole payload,
   * and its permission value is the low nine bits of the mode.
   */
  function Decide(r: ScanResult, outputDir: string): (a: Action)
    ensures r.ScanError? ==> a == Warn(ReadWarning(r.detail))
    ensures a == Skip <==> r.Entry? && !IsSelected(r)
    ensures a.CreateDir? <==> IsSelected(r) && r.header.mode & DirMask != 0
    ensures a.WriteFile? <==> IsSelected(r) && r.header.mode & DirMask == 0 && r.header.mode & FileMask != 0
    ensures a.Warn? && a.message.NeitherDirNorFile? <==>
      IsSelected(r) && r.header.mode & (DirMask | FileMask) == 0
    ensures a.WriteFile? ==> a.data == r.payload && a.perm <= PermissionBits
    ensures a.WriteFile? ==> a.perm | (r.header.mode & !PermissionBits) == r.header.mode
    ensures IsSelected(r) ==>
      var t := TargetOf(r.header.name, outputDir);
      a in {CreateDir(t), WriteFile(t, r.payload, Permissions(r.header.mode)), Warn(NeitherDirNorFile(t))}
  {
    match r
    case ScanError(detail) => Warn(ReadWarning(detail))
    case Entry(header, payload) =>
      if !Selected(header.name) then Skip
      else
        var target := TargetOf(header.name, outputDir);
        match Classify(header.mode)
        case Directory => CreateDir(target)
        case RegularFile => WriteFile(target, payload, Permissions(header.mode))
        case Unsupported => Warn(NeitherDirNorFile(target))
  }

  /** The calls that completed and the lines printed for one action, and the error that ended it, if any. */
  datatype Effect = Effect(events: seq<Event>, error: Option<RunError>)

  /** The whole list of events an action produces when none of its calls fails. */
  function Events(a: Action): (events: seq<Event>)
    ensures events == [] <==> a == Skip
    ensures a != Skip ==> events[|events| - 1].Say? && forall k :: 0 <= k < |events| - 1 ==> events[k].Call?
    ensures a.Warn? ==> events == [Say(a.message)]
    ensures forall k :: 0 <= k < |events| && events[k].Call? ==> events[k].call.target == a.target
    ensures a.WriteFile? ==> Call(CopyPayload(a.target, a.data)) in events
  {
    match a
    case Skip => []
    case Warn(m) => [Say(m)]
    case CreateDir(t) => [Call(CreateDirAll(t)), Say(DirectoryCreated(t))]
    case WriteFile(t, data, _) =>
      [Call(CreateFile(t)), Call(CopyPayload(t, data)), Call(ReadMetadata(t)), Say(FileWritten(t))]
  }

  /** The error the program reports when a call fails, with the context it attaches. */
  function CallError(c: FsCall): (error: RunError)
    ensures error != NothingExtracted && error.target == c.target
  {
    match c
    case CreateDirAll(t) => CannotCreateDirectory(t)
    case CreateFile(t) => CannotCreateFile(t)
    case CopyPayload(t, _) => CannotWriteFile(t)
    case ReadMetadata(t) => CannotReadMetadata(t)
  }

  /**
   * Carrying out one action: its calls are made in order and the first one
   * that fails stops it with that call's error. The permission value is
   * computed but not applied to the file, so it makes no call.
   */
  function Perform(a: Action, failing: set<FsCall>): (e: Effect)
    ensures e.events <= Events(a)
    ensures e.error.None? <==> e.events == Events(a)
    ensures e.error.None? <==> forall ev | ev in Events(a) && ev.Call? :: ev.call !in failing
    ensures e.error.Some? ==> (a.CreateDir? || a.WriteFile?) && e.error.value != NothingExtracted
    ensures forall ev | ev in e.events && ev.Call? :: ev.call !in failing
    ensures e.error.Some? ==>
      && |e.events| < |Events(a)|
      && Events(a)[|e.events|].Call?
      && Events(a)[|e.events|].call in failing
      && e.error.value == CallError(Events(a)[|e.events|].call)
  {
    match a
    case Skip => Effect([], None)
    case Warn(m) => Effect([Say(m)], None)
    case CreateDir(t) =>
      if CreateDirAll(t) in failing then Effect([], Some(CannotCreateDirectory(t)))
      else Effect(Events(a), None)
    case WriteFile(t, data, _) =>
      if CreateFile(t) in failing then Effect([], Some(CannotCreateFile(t)))
      else if CopyPayload(t, data) in failing then Effect(Events(a)[..1], Some(CannotWriteFile(t)))
      else if ReadMetadata(t) in failing then Effect(Events(a)[..2], Some(CannotReadMetadata(t)))
      else Effect(Events(a), None)
  }

  /** The loop's state: the `has_extracted` flag, the log so far, and the error that stopped it. */
  datatype Progress = Progress(extracted: bool, log: seq<Event>, halted: Option<RunError>)

  /** One iteration of the loop; nothing happens once the loop has stopped. */
  function Step(p: Progress, r: ScanResult, env: Env): (q: Progress)
    ensures p.halted.Some? ==> q == p
    ensures p.log <= q.log
    ensures q.extracted <==> p.extracted || (p.halted.None? && IsSelected(r))
    ensures p.halted.None? && !IsSelected(r) ==> q.halted.None?
    ensures q.halted != p.halted ==> IsSelected(r) && q.halted.Some? && q.halted.value != NothingExtracted
  {
    if p.halted.Some? then p
    else
      var e := Perform(Decide(r, env.outputDir), env.failing);
      Progress(p.extracted || IsSelected(r), p.log + e.events, e.error)
  }

  /** The loop run over a sequence of scan results, from an unset flag and an empty log. */
  function Scan(rs: seq<ScanResult>, env: Env): (p: Progress)
    ensures rs == [] ==> p == Progress(false, [], None)
    ensures p.halted.Some? ==> p.extracted && p.halted.value != NothingExtracted
    decreases |rs|
  {
    if rs == [] then Progress(false, [], None)
    else Step(Scan(rs[..|rs| - 1], env), rs[|rs| - 1], env)
  }

  /** How the extraction ends: with success, or with the error that ended it. */
  datatype Outcome = Extracted | Failed(error: RunError)

  /** After the loop: a stopped loop fails with its error, an unset flag with `NothingExtracted`. */
  function Conclude(p: Progress): (o: Outcome)
    ensures o == Extracted <==> p.halted.None? && p.extracted
    ensures p.halted.Some? ==> o == Failed(p.halted.value)
    ensures p.halted.None? && !p.extracted ==> o == Failed(NothingExtracted)
  {
    if p.halted.Some? then Failed(p.halted.value)
    else if !p.extracted then Failed(NothingExtracted)
    else Extracted
  }

  /** Once the loop has stopped on a prefix, the rest of the results change nothing. */
  lemma {:induction false} HaltIsFinal(rs: seq<ScanResult>, n: nat, env: Env)
    requires n <= |rs| && Scan(rs[..n], env).halted.Some?
    ensures Scan(rs, env) == Scan(rs[..n], env)
    decreases |rs| - n
  {
    if n < |rs| {
      var init := rs[..n + 1];
      assert init[..n] == rs[..n];
      assert Scan(init, env) == Scan(rs[..n], env);
      HaltIsFinal(rs, n + 1, env);
    } else {
      assert rs[..n] == rs;
    }
  }

  /**
   * The body of the loop for a selected header: the name is mapped to its
   * target, the directory bit is tested before the file bit, and the
   * filesystem calls are made one by one, stopping at the first that fails.
   */
  method Materialize(header: Header, payload: Bytes, env: Env) returns (events: seq<Event>, error: Option<RunError>)
    requires Selected(header.name)
    ensures Effect(events, error) == Perform(Decide(Entry(header, payload), env.outputDir), env.failing)
  {
    var path := TargetOf(header.name, env.outputDir);
    events := [];
    error := None;
    if header.mode & DirMask != 0 {
      if CreateDirAll(path) in env.failing {
        error := Some(CannotCreateDirectory(path));
        return;
      }
      events := [Call(CreateDirAll(path)), Say(DirectoryCreated(path))];
    } else if header.mode & FileMask != 0 {
      if CreateFile(path) in env.failing {
        error := Some(CannotCreateFile(path));
        return;
      }
      events := events + [Call(CreateFile(path))];
      if CopyPayload(path, payload) in env.failing {
        error := Some(CannotWriteFile(path));
        return;
      }
      events := events + [Call(CopyPayload(path, payload))];
      if ReadMetadata(path) in env.failing {
        error := Some(CannotReadMetadata(path));
        return;
      }
      // The permission value `Permissions(header.mode)` is computed here in
      // the program but never applied to the file, so no call stands for it.
      events := events + [Call(ReadMetadata(path)), Say(FileWritten(path))];
    } else {
      events := [Say(NeitherDirNorFile(path))];
    }
  }

  /**
   * The loop as the program runs it: a single pass over the scan results
   * that sets the flag for a selected name before anything else, warns about
   * reader errors and goes on, and returns at the first filesystem call that
   * fails.
   */
  method Extract(records: seq<ScanResult>, env: Env) returns (outcome: Outcome, log: seq<Event>)
    ensures log == Scan(records, env).log
    ensures outcome == Conclude(Scan(records, env))
  {
    var hasExtracted := false;
    log := [];
    var i := 0;
    while i < |records|
      invariant 0 <= i <= |records|
      invariant Scan(records[..i], env) == Progress(hasExtracted, log, None)
    {
      var result := records[i];
      assert records[..i + 1][..i] == records[..i];
      match result {
        case Entry(header, payload) =>
          if Selected(header.name) {
            hasExtracted := true;
            var events, error := Materialize(header, payload, env);
            log := log + events;
            if error.Some? {
              outcome := Failed(error.value);
              HaltIsFinal(records, i + 1, env);
              return;
            }
          }
        case ScanError(detail) =>
          log := log + [Say(ReadWarning(detail))];
      }
      i := i + 1;
    }
    assert records[..i] == records;
    outcome := if hasExtracted then Extracted else Failed(NothingExtracted);
  }
}
