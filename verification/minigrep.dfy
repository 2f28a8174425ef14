/**
  The library of the `minigrep` tool: building a `Config` from the command
  line, the two line searches, and the choice between them that `run` makes.
  Reading the file and printing the matches are left to the caller: the
  file's text comes in as `contents`, and the matches go out as the result.
 */
module Minigrep {
  import opened Results
  import opened Text
  import opened LineSplit

  // ---------------------------------------------------------------------
  // Filtering lines
  // ---------------------------------------------------------------------

  /** The test one line must pass: it contains `pattern`, either as it
      stands or once lower-cased. */
  predicate LineMatches(line: string, pattern: string, lowerLine: bool) {
    if lowerLine then Contains(ToLower(line), pattern) else Contains(line, pattern)
  }

  /** `filter(..).collect()`: the lines that pass the test, kept as they are. */
  function KeepMatching(lines: seq<string>, pattern: string, lowerLine: bool): (r: seq<string>)
    ensures |r| <= |lines|
    ensures forall line :: line in r ==> line in lines
    ensures forall line :: line in lines ==> (line in r <==> LineMatches(line, pattern, lowerLine))
    decreases |lines|
  {
    if |lines| == 0 then []
    else
      var rest := KeepMatching(lines[1..], pattern, lowerLine);
      if LineMatches(lines[0], pattern, lowerLine) then [lines[0]] + rest else rest
  }

  /** Positions listed in strictly ascending order. */
  predicate Increasing(idx: seq<nat>) {
    forall k, m :: 0 <= k < m < |idx| ==> idx[k] < idx[m]
  }

  /** The entries of `lines` at the positions `idx`, in that order. */
  function Pick(lines: seq<string>, idx: seq<nat>): seq<string>
    requires forall k :: 0 <= k < |idx| ==> idx[k] < |lines|
  {
    seq(|idx|, k requires 0 <= k < |idx| => lines[idx[k]])
  }

  /** The positions, from `from` on, of the lines that pass the test,
      ascending. */
  ghost function Selected(lines: seq<string>, pattern: string, lowerLine: bool, from: nat): (idx: seq<nat>)
    requires from <= |lines|
    ensures forall k :: 0 <= k < |idx| ==> from <= idx[k] < |lines|
    ensures Increasing(idx)
    ensures forall i :: from <= i < |lines| ==> (i in idx <==> LineMatches(lines[i], pattern, lowerLine))
    decreases |lines| - from
  {
    if from == |lines| then []
    else
      (if LineMatches(lines[from], pattern, lowerLine) then [from] else [])
      + Selected(lines, pattern, lowerLine, from + 1)
  }

  lemma PickCons(lines: seq<string>, i: nat, idx: seq<nat>)
    requires i < |lines|
    requires forall k :: 0 <= k < |idx| ==> idx[k] < |lines|
    ensures Pick(lines, [i] + idx) == [lines[i]] + Pick(lines, idx)
  {
  }

  /** One unfolding of the filter at position `from`. */
  lemma KeepMatchingStep(lines: seq<string>, pattern: string, lowerLine: bool, from: nat)
    requires from < |lines|
    ensures KeepMatching(lines[from..], pattern, lowerLine)
         == (if LineMatches(lines[from], pattern, lowerLine) then [lines[from]] else [])
            + KeepMatching(lines[from + 1..], pattern, lowerLine)
  {
    assert lines[from..][1..] == lines[from + 1..];
  }

  lemma {:induction false} KeepMatchingSelects(lines: seq<string>, pattern: string, lowerLine: bool, from: nat)
    requires from <= |lines|
    ensures KeepMatching(lines[from..], pattern, lowerLine)
         == Pick(lines, Selected(lines, pattern, lowerLine, from))
    decreases |lines| - from
  {
    if from < |lines| {
      KeepMatchingSelects(lines, pattern, lowerLine, from + 1);
      KeepMatchingStep(lines, pattern, lowerLine, from);
      var tail := Selected(lines, pattern, lowerLine, from + 1);
      if LineMatches(lines[from], pattern, lowerLine) {
        PickCons(lines, from, tail);
      } else {
        assert Selected(lines, pattern, lowerLine, from) == tail;
      }
    }
  }

  /** Names the first element of `s` as a member of `s`. Calling this, rather
      than writing `s[0]` inline, lets a branch that the membership facts rule
      out end in `assert false` without an index check in between. */
  lemma HeadIn(s: seq<nat>)
    requires 0 < |s|
    ensures s[0] in s
  {
  }

  /** Two ascending enumerations of the same positions are the same. */
  lemma {:induction false} IncreasingUnique(a: seq<nat>, b: seq<nat>)
    requires Increasing(a) && Increasing(b)
    requires forall x :: x in a <==> x in b
    ensures a == b
    decreases |a|
  {
    if 0 < |a| && 0 < |b| {
      assert a[0] in b;
      assert b[0] in a;
      assert a[0] == b[0];
      forall x
        ensures x in a[1..] <==> x in b[1..]
      {
        if x in a[1..] {
          assert x in b;
          assert x != b[0];
        }
        if x in b[1..] {
          assert x in a;
          assert x != a[0];
        }
      }
      IncreasingUnique(a[1..], b[1..]);
      assert a == [a[0]] + a[1..];
      assert b == [b[0]] + b[1..];
    } else if 0 < |a| {
      HeadIn(a);
      assert false;
    } else if 0 < |b| {
      HeadIn(b);
      assert false;
    }
  }

  /** The filter's result is the passing lines in their original order and
      with their original text: reading `lines` at any ascending list of
      exactly the passing positions gives the same sequence. */
  lemma KeepMatchingInOrder(lines: seq<string>, pattern: string, lowerLine: bool, idx: seq<nat>)
    requires forall k :: 0 <= k < |idx| ==> idx[k] < |lines|
    requires Increasing(idx)
    requires forall i :: 0 <= i < |lines| ==> (i in idx <==> LineMatches(lines[i], pattern, lowerLine))
    ensures KeepMatching(lines, pattern, lowerLine) == Pick(lines, idx)
  {
    var sel := Selected(lines, pattern, lowerLine, 0);
    KeepMatchingSelects(lines, pattern, lowerLine, 0);
    assert lines[0..] == lines;
    forall x: nat
      ensures x in idx <==> x in sel
    {
    }
    IncreasingUnique(idx, sel);
  }

  /** A filter whose test every line passes keeps every line. */
  lemma {:induction false} KeepAll(lines: seq<string>, pattern: string, lowerLine: bool)
    requires forall k :: 0 <= k < |lines| ==> LineMatches(lines[k], pattern, lowerLine)
    ensures KeepMatching(lines, pattern, lowerLine) == lines
    decreases |lines|
  {
    if |lines| > 0 {
      KeepAll(lines[1..], pattern, lowerLine);
      assert lines == [lines[0]] + lines[1..];
    }
  }

  // ---------------------------------------------------------------------
  // The two searches
  // ---------------------------------------------------------------------

  /** `search`: the lines of `contents` that contain `text`. */
  function Search(text: string, contents: string): (r: seq<string>)
    ensures |r| <= |Lines(contents)|
    ensures forall line :: line in r ==> line in Lines(contents)
    ensures forall line :: line in Lines(contents) ==> (line in r <==> Substring(text, line))
  {
    KeepMatching(Lines(contents), text, false)
  }

  /** `search_case_insensitive`: the lines of `contents` whose lower-cased
      form contains the lower-cased `text`; the lines come back as written. */
  function SearchCaseInsensitive(text: string, contents: string): (r: seq<string>)
    ensures |r| <= |Lines(contents)|
    ensures forall line :: line in r ==> line in Lines(contents)
    ensures forall line :: line in Lines(contents) ==>
              (line in r <==> Substring(ToLower(text), ToLower(line)))
  {
    var lowered := ToLower(text);
    KeepMatching(Lines(contents), lowered, true)
  }

  /** `search` keeps file order and line text: for any ascending list of
      exactly the positions of the matching lines, the result is the lines
      at those positions. */
  lemma SearchInFileOrder(text: string, contents: string, idx: seq<nat>)
    requires forall k :: 0 <= k < |idx| ==> idx[k] < |Lines(contents)|
    requires Increasing(idx)
    requires forall i :: 0 <= i < |Lines(contents)| ==>
               (i in idx <==> Substring(text, Lines(contents)[i]))
    ensures Search(text, contents) == Pick(Lines(contents), idx)
  {
    KeepMatchingInOrder(Lines(contents), text, false, idx);
  }

  /** The same for `search_case_insensitive`, whose matching positions are
      those where the lower-cased line contains the lower-cased query. */
  lemma SearchCaseInsensitiveInFileOrder(text: string, contents: string, idx: seq<nat>)
    requires forall k :: 0 <= k < |idx| ==> idx[k] < |Lines(contents)|
    requires Increasing(idx)
    requires forall i :: 0 <= i < |Lines(contents)| ==>
               (i in idx <==> Substring(ToLower(text), ToLower(Lines(contents)[i])))
    ensures SearchCaseInsensitive(text, contents) == Pick(Lines(contents), idx)
  {
    KeepMatchingInOrder(Lines(contents), ToLower(text), true, idx);
  }

  /** Every string contains the empty string, so an empty query returns every
      line of the contents, unchanged, from both searches. */
  lemma EmptyQueryReturnsAllLines(contents: string)
    ensures Search([], contents) == Lines(contents)
    ensures SearchCaseInsensitive([], contents) == Lines(contents)
  {
    var ls := Lines(contents);
    assert ToLower([]) == [];
    forall k | 0 <= k < |ls|
      ensures LineMatches(ls[k], [], false) && LineMatches(ls[k], [], true)
    {
    }
    KeepAll(ls, [], false);
    KeepAll(ls, [], true);
  }

  /** A line the case-sensitive search returns is also returned by the
      case-insensitive one. */
  lemma SearchWithinCaseInsensitive(text: string, contents: string)
    ensures forall line :: line in Search(text, contents) ==> line in SearchCaseInsensitive(text, contents)
  {
    forall line | line in Search(text, contents)
      ensures line in SearchCaseInsensitive(text, contents)
    {
      SubstringLower(text, line);
    }
  }

  /** Only the lower-cased query matters to the case-insensitive search. */
  lemma QueryCaseIrrelevant(text: string, contents: string)
    ensures SearchCaseInsensitive(ToLower(text), contents) == SearchCaseInsensitive(text, contents)
  {
    ToLowerIdempotent(text);
  }

  // ---------------------------------------------------------------------
  // Configuration
  // ---------------------------------------------------------------------

  /** What to search for, where, and whether case is ignored. */
  datatype Config = Config(text: string, filePath: string, ignoreCase: bool)

  const NoQuery: string := "Didn't get a query string"
  const NoFilePath: string := "Didn't get a file path"

  /** One step of the argument iterator: the next argument and the rest. */
  function NextArg(args: seq<string>): (step: Option<(string, seq<string>)>)
    ensures step.None? <==> args == []
    ensures step.Some? ==> [step.value.0] + step.value.1 == args
  {
    if |args| == 0 then None else Some((args[0], args[1..]))
  }

  /** `Config::build`: skips the program name, then takes the query and the
      file path; `ignoreCaseSet` says whether `env::var("IGNORE_CASE")`
      succeeds, that is, the variable is set to a valid Unicode value. Arguments after the file path are never looked at. */
  function Build(args: seq<string>, ignoreCaseSet: bool): (r: Result<Config>)
    ensures r == Err(NoQuery) <==> |args| < 2
    ensures r == Err(NoFilePath) <==> |args| == 2
    ensures r.Ok? <==> 3 <= |args|
    ensures r.Ok? ==> r.value.text == args[1] && r.value.filePath == args[2]
    ensures r.Ok? ==> r.value.ignoreCase == ignoreCaseSet
  {
    var afterName := match NextArg(args)
      case None => args
      case Some((_, rest)) => rest;
    match NextArg(afterName)
    case None => Err(NoQuery)
    case Some((query, afterQuery)) =>
      match NextArg(afterQuery)
      case None => Err(NoFilePath)
      case Some((filePath, _)) => Ok(Config(query, filePath, ignoreCaseSet))
  }

  /** Any configuration is rebuilt from a command line that puts its query
      and file path after a program name, whatever follows them. */
  lemma BuildRecoversConfig(config: Config, program: string, extra: seq<string>)
    ensures Build([program, config.text, config.filePath] + extra, config.ignoreCase) == Ok(config)
  {
  }

  // ---------------------------------------------------------------------
  // The search `run` performs
  // ---------------------------------------------------------------------

  /** Whether `run` prints `line` under `config`. */
  ghost predicate Wanted(config: Config, line: string) {
    if config.ignoreCase then Substring(ToLower(config.text), ToLower(line))
    else Substring(config.text, line)
  }

  /** The matches `run` prints for the file text `contents`: the
      case-insensitive search when `ignoreCase` is set, the case-sensitive
      one otherwise. */
  function Select(config: Config, contents: string): (r: seq<string>)
    ensures forall line :: line in r ==> line in Lines(contents)
    ensures forall line :: line in Lines(contents) ==> (line in r <==> Wanted(config, line))
  {
    if config.ignoreCase then SearchCaseInsensitive(config.text, contents)
    else Search(config.text, contents)
  }

  /** From a command line with a query and a file path, `run` searches for
      `args[1]`, ignoring case exactly when `env::var("IGNORE_CASE")` succeeds. */
  lemma BuildThenSelect(args: seq<string>, ignoreCaseSet: bool, contents: string)
    requires 3 <= |args|
    ensures Build(args, ignoreCaseSet).Ok?
    ensures Select(Build(args, ignoreCaseSet).value, contents)
         == if ignoreCaseSet then SearchCaseInsensitive(args[1], contents)
            else Search(args[1], contents)
  {
  }
}
