/**
 * Record names and where they land: the prefix test that selects the
 * firmware subtree, the strip of `root/`, and the join of the remainder
 * onto the output directory as a list of slash-separated segments.
 */
module Paths {
  import opened Wrappers

  /** Names selected for extraction start with this. */
  const SelectedPrefix: string := "root/fumagician"
  /** What is stripped from a selected name before it is joined. */
  const RootPrefix: string := "root/"
  /** What every stripped name starts with. */
  const Subtree: string := "fumagician"

  /** Rust's `str::starts_with` on a string pattern. */
  predicate StartsWith(s: string, prefix: string): (b: bool)
    ensures b <==> |prefix| <= |s| && forall i :: 0 <= i < |prefix| ==> s[i] == prefix[i]
    ensures b ==> prefix + s[|prefix|..] == s
  {
    |prefix| <= |s| && s[..|prefix|] == prefix
  }

  /** Rust's `str::strip_prefix`: the rest of `s` when `prefix` starts it. */
  function StripPrefix(s: string, prefix: string): (r: Option<string>)
    ensures r.Some? <==> StartsWith(s, prefix)
    ensures r.Some? ==> prefix + r.value == s
  {
    if StartsWith(s, prefix) then Some(s[|prefix|..]) else None
  }

  /**
   * Splitting on '/', as `str::split('/')` does: there is always at least
   * one segment, and no segment holds a slash.
   */
  function Split(s: string): (segments: seq<string>)
    ensures |segments| >= 1
    ensures forall k :: 0 <= k < |segments| ==> '/' !in segments[k]
    decreases |s|
  {
    if s == [] then [""]
    else
      var rest := Split(s[1..]);
      if s[0] == '/' then [""] + rest
      else [[s[0]] + rest[0]] + rest[1..]
  }

  /** The inverse of `Split`: the segments joined with '/'. */
  function Join(segments: seq<string>): string
    requires |segments| >= 1
    decreases |segments|
  {
    if |segments| == 1 then segments[0]
    else segments[0] + "/" + Join(segments[1..])
  }

  predicate NoSlash(segments: seq<string>) {
    forall k :: 0 <= k < |segments| ==> '/' !in segments[k]
  }

  lemma {:induction false} JoinSplit(s: string)
    ensures Join(Split(s)) == s
    decreases |s|
  {
    if s != [] {
      JoinSplit(s[1..]);
      var rest := Split(s[1..]);
      if s[0] == '/' {
        assert s == [s[0]] + s[1..];
      } else if |rest| == 1 {
        assert s == [s[0]] + s[1..];
      } else {
        assert Join(rest) == rest[0] + "/" + Join(rest[1..]);
        assert Split(s) == [[s[0]] + rest[0]] + rest[1..];
        assert s == [s[0]] + s[1..];
      }
    }
  }

  lemma {:induction false} SplitJoin(segments: seq<string>)
    requires |segments| >= 1 && NoSlash(segments)
    ensures Split(Join(segments)) == segments
    decreases |segments|, |segments[0]|
  {
    var first, tail := segments[0], segments[1..];
    assert segments == [first] + tail;
    JoinCons(first, tail);
    if first == [] {
      if tail != [] {
        SplitJoin(tail);
        SplitCons('/', Join(tail));
        assert Join(segments) == ['/'] + Join(tail);
      }
    } else {
      var shorter := [first[1..]] + tail;
      assert NoSlash(shorter) by {
        forall k | 0 <= k < |shorter| ensures '/' !in shorter[k] {
          if k == 0 { assert '/' !in first; } else { assert shorter[k] == segments[k]; }
        }
      }
      SplitJoin(shorter);
      JoinCons(first[1..], tail);
      assert first == [first[0]] + first[1..];
      assert first[0] != '/' by { assert first[0] in first; }
      assert Join(segments) == [first[0]] + Join(shorter);
      SplitCons(first[0], Join(shorter));
    }
  }

  /** Unfolding `Split` once, written for any string with a given first character. */
  lemma SplitCons(c: char, s: string)
    ensures Split([c] + s) ==
      if c == '/' then [""] + Split(s) else [[c] + Split(s)[0]] + Split(s)[1..]
  {
    assert ([c] + s)[0] == c && ([c] + s)[1..] == s;
  }

  /** Unfolding `Join` once, written for any segment list with a given head. */
  lemma JoinCons(head: string, tail: seq<string>)
    ensures Join([head] + tail) == if tail == [] then head else head + "/" + Join(tail)
  {
    var s := [head] + tail;
    if tail != [] { assert s[1..] == tail; }
  }

  /** A prefix without a slash survives as the start of the first segment. */
  lemma {:induction false} FirstSegmentKeepsPrefix(s: string, prefix: string)
    requires StartsWith(s, prefix) && '/' !in prefix
    ensures StartsWith(Split(s)[0], prefix)
    decreases |prefix|
  {
    if prefix != [] {
      assert s[0] == prefix[0] && prefix[0] != '/' by { assert prefix[0] in prefix; }
      assert StartsWith(s[1..], prefix[1..]) by {
        assert s[1..][..|prefix| - 1] == s[..|prefix|][1..];
      }
      assert '/' !in prefix[1..] by {
        forall c | c in prefix[1..] ensures c != '/' { assert c in prefix; }
      }
      FirstSegmentKeepsPrefix(s[1..], prefix[1..]);
      var rest := Split(s[1..]);
      assert Split(s)[0] == [s[0]] + rest[0];
    }
  }

  /** A path under the output directory: the directory plus relative segments. */
  datatype Target = Target(outputDir: string, segments: seq<string>)

  /** A record name the loop acts on. */
  predicate Selected(name: string): (b: bool)
    ensures b ==> StartsWith(name, RootPrefix) && StartsWith(name[|RootPrefix|..], Subtree)
  {
    var b := StartsWith(name, SelectedPrefix);
    assert b ==> name[..|RootPrefix|] == name[..|SelectedPrefix|][..|RootPrefix|];
    assert b ==> name[|RootPrefix|..][..|Subtree|] == name[..|SelectedPrefix|][|RootPrefix|..];
    b
  }

  /**
   * The path a selected name is extracted to: `root/` is stripped (which
   * cannot fail, so the program's `expect` never panics) and the remainder is
   * joined onto the output directory. The remainder starts with `fumagician`,
   * its segments rebuild it exactly, and so does the first segment.
   */
  function TargetOf(name: string, outputDir: string): (t: Target)
    requires Selected(name)
    ensures t.outputDir == outputDir && |t.segments| >= 1 && NoSlash(t.segments)
    ensures StripPrefix(name, RootPrefix) == Some(Join(t.segments))
    ensures StartsWith(Join(t.segments), Subtree)
    ensures StartsWith(t.segments[0], Subtree)
  {
    assert StartsWith(name, RootPrefix) by {
      assert name[..|RootPrefix|] == name[..|SelectedPrefix|][..|RootPrefix|];
    }
    var rest := name[|RootPrefix|..];
    assert StartsWith(rest, Subtree) by {
      assert rest[..|Subtree|] == name[..|SelectedPrefix|][|RootPrefix|..];
    }
    JoinSplit(rest);
    FirstSegmentKeepsPrefix(rest, Subtree);
    Target(outputDir, Split(rest))
  }
}
