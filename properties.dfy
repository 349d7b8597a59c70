/**
 * What the extraction loop guarantees over a whole archive: when the flag is
 * set and the run succeeds, which records are ignored, how reader errors are
 * isolated, and where every filesystem call comes from.
 */
module ExtractionProperties {
  import opened Wrappers
  import opened Cpio
  import opened Paths
  import opened Extraction

  /** The loop state after one more result, written for any sequence ending in it. */
  lemma ScanSnoc(rs: seq<ScanResult>, r: ScanResult, env: Env)
    ensures Scan(rs + [r], env) == Step(Scan(rs, env), r, env)
  {
    assert (rs + [r])[..|rs|] == rs;
  }

  /**
   * The flag is set exactly when some result is a selected header, whether
   * or not the loop stopped early: it is set before any call is made, and the
   * loop stops only on a call for a selected header. A stop is never the
   * "nothing extracted" error.
   */
  lemma {:induction false} FlagIffSelected(rs: seq<ScanResult>, env: Env)
    ensures Scan(rs, env).extracted <==> exists i :: 0 <= i < |rs| && IsSelected(rs[i])
    ensures Scan(rs, env).halted.Some? ==> Scan(rs, env).extracted
    ensures Scan(rs, env).halted != Some(NothingExtracted)
    decreases |rs|
  {
    if rs != [] {
      var init, last := rs[..|rs| - 1], rs[|rs| - 1];
      FlagIffSelected(init, env);
      var p := Scan(init, env);
      assert Scan(rs, env) == Step(p, last, env);
      assert Scan(rs, env).extracted <==> p.extracted || IsSelected(last);
      if exists i :: 0 <= i < |rs| && IsSelected(rs[i]) {
        var i :| 0 <= i < |rs| && IsSelected(rs[i]);
        if i < |init| { assert IsSelected(init[i]); }
      }
      if p.extracted {
        var i :| 0 <= i < |init| && IsSelected(init[i]);
        assert rs[i] == init[i];
      }
    }
  }

  /**
   * The run fails with "no file or directory is extracted" exactly when no
   * result is a selected header; it succeeds exactly when one is and the
   * loop was not stopped by a failing call.
   */
  lemma NothingExtractedIff(rs: seq<ScanResult>, env: Env)
    ensures Conclude(Scan(rs, env)) == Failed(NothingExtracted) <==>
      forall i :: 0 <= i < |rs| ==> !IsSelected(rs[i])
    ensures Conclude(Scan(rs, env)) == Extracted <==>
      (exists i :: 0 <= i < |rs| && IsSelected(rs[i])) && Scan(rs, env).halted.None?
  {
    FlagIffSelected(rs, env);
  }

  /** The results left once the headers the loop ignores are dropped. */
  function WithoutIgnored(rs: seq<ScanResult>): seq<ScanResult>
    decreases |rs|
  {
    if rs == [] then []
    else
      var last := rs[|rs| - 1];
      WithoutIgnored(rs[..|rs| - 1]) + (if last.Entry? && !IsSelected(last) then [] else [last])
  }

  /** Headers outside the firmware subtree are ignored: dropping them changes nothing at all. */
  lemma {:induction false} IgnoredChangeNothing(rs: seq<ScanResult>, env: Env)
    ensures Scan(WithoutIgnored(rs), env) == Scan(rs, env)
    decreases |rs|
  {
    if rs != [] {
      var init, last := rs[..|rs| - 1], rs[|rs| - 1];
      IgnoredChangeNothing(init, env);
      if !(last.Entry? && !IsSelected(last)) {
        assert WithoutIgnored(rs) == WithoutIgnored(init) + [last];
        ScanSnoc(WithoutIgnored(init), last, env);
        assert Scan(rs, env) == Step(Scan(init, env), last, env);
      } else {
        assert WithoutIgnored(rs) == WithoutIgnored(init);
        assert Decide(last, env.outputDir) == Skip;
        assert Scan(rs, env) == Step(Scan(init, env), last, env);
        assert Scan(init, env).log + [] == Scan(init, env).log;
      }
    }
  }

  predicate IsReadWarning(ev: Event) {
    ev.Say? && ev.message.ReadWarning?
  }

  /** The log without the warnings about reader errors. */
  function Quiet(log: seq<Event>): seq<Event>
    decreases |log|
  {
    if log == [] then []
    else (if IsReadWarning(log[0]) then [] else [log[0]]) + Quiet(log[1..])
  }

  /** The details of the warnings about reader errors, in log order. */
  function Warnings(log: seq<Event>): seq<string>
    decreases |log|
  {
    if log == [] then []
    else (if IsReadWarning(log[0]) then [log[0].message.detail] else []) + Warnings(log[1..])
  }

  lemma {:induction false} FiltersDistribute(a: seq<Event>, b: seq<Event>)
    ensures Quiet(a + b) == Quiet(a) + Quiet(b)
    ensures Warnings(a + b) == Warnings(a) + Warnings(b)
    decreases |a|
  {
    if a != [] {
      assert (a + b)[0] == a[0] && (a + b)[1..] == a[1..] + b;
      FiltersDistribute(a[1..], b);
      var q := if IsReadWarning(a[0]) then [] else [a[0]];
      var w := if IsReadWarning(a[0]) then [a[0].message.detail] else [];
      calc {
        Quiet(a + b);
        q + Quiet(a[1..] + b);
        q + (Quiet(a[1..]) + Quiet(b));
        (q + Quiet(a[1..])) + Quiet(b);
        Quiet(a) + Quiet(b);
      }
      calc {
        Warnings(a + b);
        w + Warnings(a[1..] + b);
        w + (Warnings(a[1..]) + Warnings(b));
        (w + Warnings(a[1..])) + Warnings(b);
        Warnings(a) + Warnings(b);
      }
    } else {
      assert a + b == b;
    }
  }

  lemma {:induction false} FiltersWithoutWarnings(log: seq<Event>)
    requires forall ev | ev in log :: !IsReadWarning(ev)
    ensures Quiet(log) == log && Warnings(log) == []
    decreases |log|
  {
    if log != [] {
      assert log[0] in log;
      FiltersWithoutWarnings(log[1..]);
      assert log == [log[0]] + log[1..];
    }
  }

  /** The results left once reader errors are dropped. */
  function WithoutErrors(rs: seq<ScanResult>): seq<ScanResult>
    decreases |rs|
  {
    if rs == [] then []
    else
      var last := rs[|rs| - 1];
      WithoutErrors(rs[..|rs| - 1]) + (if last.ScanError? then [] else [last])
  }

  /** The details of the reader errors, in order. */
  function ErrorDetails(rs: seq<ScanResult>): seq<string>
    decreases |rs|
  {
    if rs == [] then []
    else
      var last := rs[|rs| - 1];
      ErrorDetails(rs[..|rs| - 1]) + (if last.ScanError? then [last.detail] else [])
  }

  /** The events of a header's action are never reader-error warnings. */
  lemma EntryEventsQuiet(r: ScanResult, env: Env)
    requires r.Entry?
    ensures forall ev | ev in Perform(Decide(r, env.outputDir), env.failing).events :: !IsReadWarning(ev)
  {
    var a := Decide(r, env.outputDir);
    forall ev | ev in Perform(a, env.failing).events ensures !IsReadWarning(ev) {
      assert ev in Events(a);
    }
  }

  /** One more result: a reader error only adds its warning, a header's events hold none. */
  lemma StepFilters(p: Progress, r: ScanResult, env: Env)
    requires p.halted.None?
    ensures var q := Step(p, r, env);
      && (r.ScanError? ==> q == Progress(p.extracted, p.log + [Say(ReadWarning(r.detail))], None))
      && Quiet(q.log) == Quiet(p.log) + (if r.ScanError? then [] else q.log[|p.log|..])
      && Warnings(q.log) == Warnings(p.log) + (if r.ScanError? then [r.detail] else [])
  {
    var e := Perform(Decide(r, env.outputDir), env.failing);
    var q := Step(p, r, env);
    assert q.log == p.log + e.events && q.log[|p.log|..] == e.events;
    FiltersDistribute(p.log, e.events);
    if r.ScanError? {
      assert e.events == [Say(ReadWarning(r.detail))];
      assert Quiet(e.events) == [] && Warnings(e.events) == [r.detail];
    } else {
      EntryEventsQuiet(r, env);
      FiltersWithoutWarnings(e.events);
    }
  }

  /**
   * A reader error is isolated: it adds one warning to the log and nothing
   * else, never sets the flag and never stops the loop. Dropping the errors
   * leaves the same flag, the same stop, and the same log minus those
   * warnings.
   */
  lemma {:induction false} ReaderErrorsIsolated(rs: seq<ScanResult>, env: Env)
    ensures Scan(WithoutErrors(rs), env) ==
      var p := Scan(rs, env); Progress(p.extracted, Quiet(p.log), p.halted)
    decreases |rs|
  {
    if rs != [] {
      var init, last := rs[..|rs| - 1], rs[|rs| - 1];
      ReaderErrorsIsolated(init, env);
      var p := Scan(init, env);
      assert Scan(rs, env) == Step(p, last, env);
      if last.ScanError? {
        assert WithoutErrors(rs) == WithoutErrors(init);
        if p.halted.None? {
          StepFilters(p, last, env);
        }
      } else {
        assert WithoutErrors(rs) == WithoutErrors(init) + [last];
        ScanSnoc(WithoutErrors(init), last, env);
        if p.halted.None? {
          StepFilters(p, last, env);
        }
      }
    }
  }

  /** While the loop runs, its reader warnings are the errors' details, one each, in order. */
  lemma {:induction false} OneWarningPerReaderError(rs: seq<ScanResult>, env: Env)
    requires Scan(rs, env).halted.None?
    ensures Warnings(Scan(rs, env).log) == ErrorDetails(rs)
    decreases |rs|
  {
    if rs != [] {
      var init, last := rs[..|rs| - 1], rs[|rs| - 1];
      var p := Scan(init, env);
      assert p.halted.None?;
      OneWarningPerReaderError(init, env);
      StepFilters(p, last, env);
    }
  }

  /** A filesystem call made for a result: a selected header, at its target, with its payload. */
  predicate CallFor(c: FsCall, r: ScanResult, outputDir: string) {
    && IsSelected(r)
    && c.target == TargetOf(r.header.name, outputDir)
    && (c.CopyPayload? ==> c.data == r.payload)
  }

  /** The calls of one result's action are made for it, at its target, under the output directory. */
  lemma ActionCallsFor(r: ScanResult, outputDir: string)
    ensures forall ev | ev in Events(Decide(r, outputDir)) && ev.Call? ::
      && CallFor(ev.call, r, outputDir)
      && ev.call.target.outputDir == outputDir && |ev.call.target.segments| >= 1
      && StartsWith(ev.call.target.segments[0], Subtree)
  {
    var a := Decide(r, outputDir);
    if a.CreateDir? || a.WriteFile? {
      var t := TargetOf(r.header.name, outputDir);
      assert a.target == t;
    }
  }

  /**
   * Every filesystem call in the log was made for some selected header, at
   * that header's target, and a file is always filled with its own record's
   * payload. Every target is under the output directory, in an entry whose
   * name starts with `fumagician`.
   */
  lemma {:induction false} CallsComeFromSelected(rs: seq<ScanResult>, env: Env)
    ensures forall ev | ev in Scan(rs, env).log && ev.Call? ::
      exists i :: 0 <= i < |rs| && CallFor(ev.call, rs[i], env.outputDir)
    ensures forall ev | ev in Scan(rs, env).log && ev.Call? ::
      ev.call.target.outputDir == env.outputDir && |ev.call.target.segments| >= 1 &&
      StartsWith(ev.call.target.segments[0], Subtree)
    decreases |rs|
  {
    if rs != [] {
      var init, last := rs[..|rs| - 1], rs[|rs| - 1];
      CallsComeFromSelected(init, env);
      var p := Scan(init, env);
      forall ev | ev in Scan(rs, env).log && ev.Call?
        ensures exists i :: 0 <= i < |rs| && CallFor(ev.call, rs[i], env.outputDir)
        ensures ev.call.target.outputDir == env.outputDir && |ev.call.target.segments| >= 1 &&
          StartsWith(ev.call.target.segments[0], Subtree)
      {
        if ev in p.log {
          var i :| 0 <= i < |init| && CallFor(ev.call, init[i], env.outputDir);
          assert rs[i] == init[i];
        } else {
          assert p.halted.None?;
          var a := Decide(last, env.outputDir);
          var e := Perform(a, env.failing);
          assert Scan(rs, env).log == p.log + e.events;
          assert ev in Events(a);
          ActionCallsFor(last, env.outputDir);
        }
      }
    }
  }

  /** Every event of every result, as if no filesystem call failed. */
  function AllEvents(rs: seq<ScanResult>, outputDir: string): seq<Event>
    decreases |rs|
  {
    if rs == [] then []
    else AllEvents(rs[..|rs| - 1], outputDir) + Events(Decide(rs[|rs| - 1], outputDir))
  }

  /**
   * The loop runs to the end exactly when none of the calls it would make
   * fails, and then its log is every result's events, in order.
   */
  lemma {:induction false} RunsToEndIffNoCallFails(rs: seq<ScanResult>, env: Env)
    ensures Scan(rs, env).halted.None? <==>
      forall ev | ev in AllEvents(rs, env.outputDir) && ev.Call? :: ev.call !in env.failing
    ensures Scan(rs, env).halted.None? ==> Scan(rs, env).log == AllEvents(rs, env.outputDir)
    decreases |rs|
  {
    if rs != [] {
      var init, last := rs[..|rs| - 1], rs[|rs| - 1];
      RunsToEndIffNoCallFails(init, env);
      var before := AllEvents(init, env.outputDir);
      var own := Events(Decide(last, env.outputDir));
      assert AllEvents(rs, env.outputDir) == before + own;
      if Scan(init, env).halted.Some? {
        var ev :| ev in before && ev.Call? && ev.call in env.failing;
        assert ev in before + own;
      }
    }
  }

  /** The events of every result are among all the events. */
  lemma {:induction false} AllEventsHoldEach(rs: seq<ScanResult>, i: nat, outputDir: string)
    requires i < |rs|
    ensures forall ev | ev in Events(Decide(rs[i], outputDir)) :: ev in AllEvents(rs, outputDir)
    decreases |rs|
  {
    var init := rs[..|rs| - 1];
    if i < |init| {
      AllEventsHoldEach(init, i, outputDir);
      assert init[i] == rs[i];
    }
  }

  /**
   * On success every selected header was carried out in full: a directory
   * was created at its target, a file was created and filled with exactly
   * the record's payload, and any other type was warned about.
   */
  lemma SuccessCarriesOutEverySelected(rs: seq<ScanResult>, env: Env, i: nat)
    requires i < |rs| && IsSelected(rs[i])
    requires Conclude(Scan(rs, env)) == Extracted
    ensures var t, mode := TargetOf(rs[i].header.name, env.outputDir), rs[i].header.mode;
      && (mode & DirMask != 0 ==> Call(CreateDirAll(t)) in Scan(rs, env).log)
      && (mode & DirMask == 0 && mode & FileMask != 0 ==>
            Call(CreateFile(t)) in Scan(rs, env).log && Call(CopyPayload(t, rs[i].payload)) in Scan(rs, env).log)
      && (mode & (DirMask | FileMask) == 0 ==> Say(NeitherDirNorFile(t)) in Scan(rs, env).log)
  {
    RunsToEndIffNoCallFails(rs, env);
    AllEventsHoldEach(rs, i, env.outputDir);
  }
}
