/**
  Line splitting as Rust's `str::lines` performs it: the text is cut after
  every `\n`; the `\n` is dropped, and so is a `\r` immediately before it;
  a final line without a terminator is still a line (and keeps any `\r` it
  ends with); an empty text, or a terminator at the very end, produces no
  extra empty line.

  The splitter's contract names its partner: `Endings` lists the terminator
  each line lost, and gluing each line back to its terminator (`Join`)
  rebuilds the text exactly. `LinesOfJoin` is the converse, so `Lines` is
  the one and only well-formed way of cutting a text into lines.
 */
module LineSplit {

  const LF: char := '\n'
  const CR: char := '\r'

  /** Position of the first `c` in `s` at or after `from`, or `|s|` when
      there is none. */
  function IndexFrom(s: string, c: char, from: nat): (i: nat)
    requires from <= |s|
    ensures from <= i <= |s|
    ensures i < |s| ==> s[i] == c
    ensures forall j :: from <= j < i ==> s[j] != c
    decreases |s| - from
  {
    if from == |s| || s[from] == c then from
    else IndexFrom(s, c, from + 1)
  }

  /** Position of the first `c` in `s`, or `|s|` when there is none. */
  function IndexOf(s: string, c: char): (i: nat)
    ensures i <= |s|
    ensures i < |s| ==> s[i] == c
    ensures forall j :: 0 <= j < i ==> s[j] != c
  {
    IndexFrom(s, c, 0)
  }

  predicate EndsInCR(line: string) {
    0 < |line| && line[|line| - 1] == CR
  }

  /** A line terminator: `\n` or `\r\n`. */
  predicate IsEnding(e: string) {
    e == [LF] || e == [CR, LF]
  }

  /** `ends[k]` is the terminator that followed `ls[k]`. Lines hold no `\n`;
      a line followed by a bare `\n` does not end in `\r` (that `\r` would
      have been part of the terminator); only the last line may lack a
      terminator, and then it is not empty. */
  ghost predicate WellFormed(ls: seq<string>, ends: seq<string>) {
    && |ls| == |ends|
    && (forall k :: 0 <= k < |ls| ==> LF !in ls[k])
    && (forall k :: 0 <= k < |ls| ==> ends[k] == [LF] ==> !EndsInCR(ls[k]))
    && (forall k :: 0 <= k < |ls| ==>
          IsEnding(ends[k]) || (k == |ls| - 1 && ends[k] == [] && ls[k] != []))
  }

  /** Each line followed by its terminator, all concatenated. */
  function Join(ls: seq<string>, ends: seq<string>): string
    requires |ls| == |ends|
    decreases |ls|
  {
    if |ls| == 0 then [] else ls[0] + ends[0] + Join(ls[1..], ends[1..])
  }

  /** The line before the first `\n`, with a trailing `\r` removed. */
  function StripCR(line: string): (r: string)
  {
    if EndsInCR(line) then line[..|line| - 1] else line
  }

  /** The terminators `Lines` removes, one per line. */
  function Endings(s: string): seq<string>
    decreases |s|
  {
    if |s| == 0 then []
    else
      var i := IndexOf(s, LF);
      if i == |s| then [[]]
      else [EndingAfter(s[..i])] + Endings(s[i + 1..])
  }

  /** A well-formed pair of lists stays well-formed with one more line in front. */
  lemma WellFormedCons(l: string, e: string, ls: seq<string>, ends: seq<string>)
    requires WellFormed(ls, ends)
    requires LF !in l && IsEnding(e) && (e == [LF] ==> !EndsInCR(l))
    ensures WellFormed([l] + ls, [e] + ends)
  {
    var ls', ends' := [l] + ls, [e] + ends;
    forall k | 1 <= k < |ls'|
      ensures ls'[k] == ls[k - 1] && ends'[k] == ends[k - 1]
    {
    }
  }

  /** Gluing one more line and terminator in front of a join. */
  lemma JoinCons(l: string, e: string, ls: seq<string>, ends: seq<string>)
    requires |ls| == |ends|
    ensures Join([l] + ls, [e] + ends) == l + e + Join(ls, ends)
  {
    assert ([l] + ls)[1..] == ls;
    assert ([e] + ends)[1..] == ends;
  }

  /** The terminator that ended the text `head` before a `\n`. */
  function EndingAfter(head: string): string {
    if EndsInCR(head) then [CR, LF] else [LF]
  }

  /** Removing a trailing `\r` and putting back the terminator gives the
      text before the `\n` followed by that `\n`. */
  lemma StripCRThenEnding(head: string)
    ensures StripCR(head) + EndingAfter(head) == head + [LF]
    ensures forall c :: c in StripCR(head) ==> c in head
    ensures EndingAfter(head) == [LF] ==> !EndsInCR(StripCR(head))
  {
    if EndsInCR(head) {
      assert head == head[..|head| - 1] + [CR];
    }
  }

  /** A text is what comes before its first `\n`, that `\n`, and the rest. */
  lemma CutAtFirstLF(s: string)
    requires IndexOf(s, LF) < |s|
    ensures var i := IndexOf(s, LF);
      && LF !in s[..i]
      && s == s[..i] + [LF] + s[i + 1..]
  {
    var i := IndexOf(s, LF);
    assert s == s[..i] + [s[i]] + s[i + 1..];
  }

  /** What `Lines` and `Endings` take off the front of a text that has a
      `\n`: a line free of `\n` and its terminator, which together make up
      the text up to and including that `\n`. */
  lemma FirstLine(s: string)
    requires IndexOf(s, LF) < |s|
    ensures var i := IndexOf(s, LF);
      var l, e := StripCR(s[..i]), EndingAfter(s[..i]);
      && LF !in l
      && IsEnding(e)
      && (e == [LF] ==> !EndsInCR(l))
      && s == l + e + s[i + 1..]
  {
    var i := IndexOf(s, LF);
    CutAtFirstLF(s);
    StripCRThenEnding(s[..i]);
  }

  /** `str::lines`: the lines of `s`, in order, without their terminators. */
  function Lines(s: string): (r: seq<string>)
    ensures r == [] <==> s == []
    ensures WellFormed(r, Endings(s))
    ensures Join(r, Endings(s)) == s
    decreases |s|
  {
    if |s| == 0 then []
    else
      var i := IndexOf(s, LF);
      if i == |s| then
        assert LF !in s;
        [s]
      else
        var l, e, rest := StripCR(s[..i]), EndingAfter(s[..i]), s[i + 1..];
        FirstLine(s);
        WellFormedCons(l, e, Lines(rest), Endings(rest));
        JoinCons(l, e, Lines(rest), Endings(rest));
        [l] + Lines(rest)
  }

  /** In a line followed by its terminator and more text, the first `\n` is
      the one that ends the terminator. */
  lemma CutAtEnding(l: string, e: string, rest: string)
    requires LF !in l && IsEnding(e)
    ensures var s, i := l + e + rest, |l| + |e| - 1;
      && IndexOf(s, LF) == i
      && s[i + 1..] == rest
      && s[..i] == (if e == [LF] then l else l + [CR])
  {
    var s, i := l + e + rest, |l| + |e| - 1;
    assert s[i] == LF;
    forall j | 0 <= j < i
      ensures s[j] != LF
    {
      if j < |l| {
        assert s[j] == l[j];
      } else {
        assert s[j] == CR;
      }
    }
    assert s[..i] == (if e == [LF] then l else l + [CR]);
    assert s[i + 1..] == rest;
  }

  /** One unfolding of `Lines` and `Endings` at a text that has a `\n`. */
  lemma LinesStep(s: string)
    requires IndexOf(s, LF) < |s|
    ensures var i := IndexOf(s, LF);
      && Lines(s) == [StripCR(s[..i])] + Lines(s[i + 1..])
      && Endings(s) == [EndingAfter(s[..i])] + Endings(s[i + 1..])
  {
  }

  /** Dropping the first line keeps a pair of lists well-formed. */
  lemma WellFormedTail(ls: seq<string>, ends: seq<string>)
    requires WellFormed(ls, ends) && |ls| > 0
    ensures WellFormed(ls[1..], ends[1..])
  {
    forall k | 0 <= k < |ls| - 1
      ensures ls[1..][k] == ls[k + 1] && ends[1..][k] == ends[k + 1]
    {
    }
  }

  /** A text made of one line, its terminator and more text starts with
      that line and that terminator. */
  lemma LinesConsEnding(l: string, e: string, rest: string)
    requires LF !in l && IsEnding(e) && (e == [LF] ==> !EndsInCR(l))
    ensures Lines(l + e + rest) == [l] + Lines(rest)
    ensures Endings(l + e + rest) == [e] + Endings(rest)
  {
    CutAtEnding(l, e, rest);
    LinesStep(l + e + rest);
    if e != [LF] {
      assert (l + [CR])[..|l|] == l;
    }
  }

  /** A text made of one line, a `\n` and more text starts with that line. */
  lemma LinesCons(l: string, rest: string)
    requires LF !in l && !EndsInCR(l)
    ensures Lines(l + [LF] + rest) == [l] + Lines(rest)
  {
    LinesConsEnding(l, [LF], rest);
  }

  /** A non-empty text without `\n` is a single line with no terminator. */
  lemma LinesSingle(l: string)
    requires LF !in l && l != []
    ensures Lines(l) == [l]
    ensures Endings(l) == [[]]
  {
    assert IndexOf(l, LF) == |l|;
  }

  /** Cutting a well-formed join into lines gives back exactly the lines and
      terminators it was built from. */
  lemma {:induction false} LinesOfJoin(ls: seq<string>, ends: seq<string>)
    requires WellFormed(ls, ends)
    ensures Lines(Join(ls, ends)) == ls
    ensures Endings(Join(ls, ends)) == ends
    decreases |ls|
  {
    if |ls| > 0 {
      var l, e := ls[0], ends[0];
      var rest := Join(ls[1..], ends[1..]);
      assert Join(ls, ends) == l + e + rest;
      if e == [] {
        assert |ls| == 1;
        assert l + e + rest == l;
        LinesSingle(l);
      } else {
        WellFormedTail(ls, ends);
        LinesOfJoin(ls[1..], ends[1..]);
        LinesConsEnding(l, e, rest);
        assert ls == [l] + ls[1..];
        assert ends == [e] + ends[1..];
      }
    }
  }

  /** The number of `\n` characters in `s`. */
  function CountLF(s: string): nat
    decreases |s|
  {
    if |s| == 0 then 0 else (if s[0] == LF then 1 else 0) + CountLF(s[1..])
  }

  lemma {:induction false} CountLFAppend(a: string, b: string)
    ensures CountLF(a + b) == CountLF(a) + CountLF(b)
    decreases |a|
  {
    if |a| > 0 {
      assert (a + b)[1..] == a[1..] + b;
      CountLFAppend(a[1..], b);
    } else {
      assert a + b == b;
    }
  }

  lemma NoLFCount(s: string)
    requires LF !in s
    ensures CountLF(s) == 0
    decreases |s|
  {
    if |s| > 0 {
      NoLFCount(s[1..]);
    }
  }

  /** The `\n`s of a text are the first one and those after it. */
  lemma CountFromFirstLF(s: string)
    requires IndexOf(s, LF) < |s|
    ensures CountLF(s) == 1 + CountLF(s[IndexOf(s, LF) + 1..])
  {
    var i := IndexOf(s, LF);
    var head, rest := s[..i], s[i + 1..];
    CutAtFirstLF(s);
    NoLFCount(head);
    CountLFAppend(head + [LF], rest);
    CountLFAppend(head, [LF]);
    assert CountLF([LF]) == 1;
  }

  /** One line per `\n`, plus one for a final unterminated line: an empty text
      has no lines and a trailing terminator adds no empty line. */
  lemma {:induction false} LineCount(s: string)
    ensures |Lines(s)| == CountLF(s) + (if 0 < |s| && s[|s| - 1] != LF then 1 else 0)
    decreases |s|
  {
    if |s| > 0 {
      var i := IndexOf(s, LF);
      if i == |s| {
        NoLFCount(s);
      } else {
        var rest := s[i + 1..];
        LinesStep(s);
        LineCount(rest);
        CountFromFirstLF(s);
        if |rest| == 0 {
          assert s[|s| - 1] == LF;
        } else {
          assert s[|s| - 1] == rest[|rest| - 1];
        }
      }
    }
  }
}
