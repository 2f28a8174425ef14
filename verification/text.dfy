/**
  Character-level text operations the search relies on: substring
  containment (`str::contains` with a string pattern) and lower-casing
  (`str::to_lowercase`, restricted here to the ASCII letters).
 */
module Text {

  /** `q` occurs in `s` as a contiguous run of characters: it is a prefix of
      some suffix of `s`. The empty string occurs in every string. */
  ghost predicate Substring(q: string, s: string) {
    exists i :: 0 <= i <= |s| && q <= s[i..]
  }

  /** Suffixes of a suffix are suffixes. */
  lemma SuffixOfSuffix(s: string, i: nat)
    requires 1 <= i <= |s|
    ensures s[1..][i - 1..] == s[i..]
  {
  }

  /** The containment test, computed by trying every start position in turn. */
  function Contains(s: string, q: string): (b: bool)
    ensures b <==> Substring(q, s)
    decreases |s|
  {
    if q <= s then
      assert s[0..] == s;
      true
    else if |s| == 0 then
      false
    else
      var b := Contains(s[1..], q);
      if b then
        var j :| 0 <= j <= |s[1..]| && q <= s[1..][j..];
        SuffixOfSuffix(s, j + 1);
        true
      else
        assert forall i :: 1 <= i <= |s| ==> !(q <= s[i..]) by {
          forall i | 1 <= i <= |s|
            ensures !(q <= s[i..])
          {
            SuffixOfSuffix(s, i);
          }
        }
        false
  }

  predicate IsUpper(c: char) {
    'A' <= c <= 'Z'
  }

  /** Lower-cases one character: `A`-`Z` become `a`-`z`, all else is kept. */
  function LowerChar(c: char): (d: char)
    ensures !IsUpper(d)
    ensures IsUpper(c) ==> d as int - c as int == 'a' as int - 'A' as int
    ensures !IsUpper(c) ==> d == c
  {
    if IsUpper(c) then (c as int - 'A' as int + 'a' as int) as char else c
  }

  /** Lower-cases a string character by character; the length never changes. */
  function ToLower(s: string): (r: string)
    ensures |r| == |s|
    ensures forall i :: 0 <= i < |r| ==> r[i] == LowerChar(s[i])
  {
    seq(|s|, i requires 0 <= i < |s| => LowerChar(s[i]))
  }

  /** Lower-casing commutes with taking a suffix and with taking a prefix. */
  lemma ToLowerSlices(s: string, i: nat, j: nat)
    requires i <= j <= |s|
    ensures ToLower(s)[i..] == ToLower(s[i..])
    ensures ToLower(s)[..j] == ToLower(s[..j])
  {
  }

  /** Lower-casing twice is lower-casing once. */
  lemma ToLowerIdempotent(s: string)
    ensures ToLower(ToLower(s)) == ToLower(s)
  {
  }

  /** Lower-casing preserves the prefix relation. */
  lemma {:induction false} ToLowerPrefix(p: string, s: string)
    requires p <= s
    ensures ToLower(p) <= ToLower(s)
  {
    ToLowerSlices(s, 0, |p|);
    assert s[..|p|] == p;
  }

  /** A case-sensitive occurrence is also a case-insensitive one. */
  lemma SubstringLower(q: string, s: string)
    requires Substring(q, s)
    ensures Substring(ToLower(q), ToLower(s))
  {
    var i :| 0 <= i <= |s| && q <= s[i..];
    ToLowerPrefix(q, s[i..]);
    ToLowerSlices(s, i, i);
    assert ToLower(q) <= ToLower(s)[i..];
  }

  /** A query holding a character the text lacks does not occur in it. */
  lemma AbsentChar(q: string, s: string, c: char)
    requires c in q && c !in s
    ensures !Substring(q, s)
  {
    var k :| 0 <= k < |q| && q[k] == c;
    forall i | 0 <= i <= |s|
      ensures !(q <= s[i..])
    {
      if k < |s| - i {
        assert s[i + k] in s;
        assert s[i..][k] != q[k];
      }
    }
  }
}
