/** The examples from the library's documentation and unit tests, and the
    error paths of `Config::build`, stated as facts about the model.

    The verifier evaluates functions applied to literal strings eagerly, so
    the reasoning is done once on variables (the generic lemmas first) and
    the literal texts only appear where those lemmas are instantiated. */
module MinigrepExamples {
  import opened Results
  import opened Text
  import opened LineSplit
  import opened Minigrep

  // ---------------------------------------------------------------------
  // Generic steps
  // ---------------------------------------------------------------------

  /** A line that can be followed by a bare `\n`. */
  predicate Plain(l: string) {
    LF !in l && !EndsInCR(l)
  }

  lemma ThreeLines(s: string, t: string, a: string, b: string, c: string)
    requires Plain(a) && Plain(b) && LF !in c && c != []
    requires t == b + [LF] + c && s == a + [LF] + t
    ensures Lines(s) == [a, b, c]
  {
    LinesSingle(c);
    LinesCons(b, c);
    LinesCons(a, t);
  }

  lemma FourLines(s: string, t: string, u: string, a: string, b: string, c: string, d: string)
    requires Plain(a) && Plain(b) && Plain(c) && LF !in d && d != []
    requires u == c + [LF] + d && t == b + [LF] + u && s == a + [LF] + t
    ensures Lines(s) == [a, b, c, d]
  {
    ThreeLines(t, u, b, c, d);
    LinesCons(a, t);
  }

  lemma SearchFindsFirstOfFour(q: string, s: string, a: string, b: string, c: string, d: string)
    requires Lines(s) == [a, b, c, d]
    requires Substring(q, a) && !Substring(q, b) && !Substring(q, c) && !Substring(q, d)
    ensures Search(q, s) == [a]
  {
    var ls := [a, b, c, d];
    forall i | 0 <= i < |ls|
      ensures i in [0] <==> Substring(q, ls[i])
    {
      if i == 0 {
      } else if i == 1 {
      } else if i == 2 {
      } else {
      }
    }
    SearchInFileOrder(q, s, [0]);
  }

  lemma SearchCaseInsensitiveFindsThirdOfThree(q: string, s: string, a: string, b: string, c: string)
    requires Lines(s) == [a, b, c]
    requires var lq := ToLower(q);
      !Substring(lq, ToLower(a)) && !Substring(lq, ToLower(b)) && Substring(lq, ToLower(c))
    ensures SearchCaseInsensitive(q, s) == [c]
  {
    var ls := [a, b, c];
    forall i | 0 <= i < |ls|
      ensures i in [2] <==> Substring(ToLower(q), ToLower(ls[i]))
    {
      if i == 0 {
      } else if i == 1 {
      } else {
      }
    }
    SearchCaseInsensitiveInFileOrder(q, s, [2]);
  }

  lemma SearchCaseInsensitiveFindsThirdOfFour(q: string, s: string, a: string, b: string, c: string, d: string)
    requires Lines(s) == [a, b, c, d]
    requires var lq := ToLower(q);
      && !Substring(lq, ToLower(a)) && !Substring(lq, ToLower(b))
      && Substring(lq, ToLower(c)) && !Substring(lq, ToLower(d))
    ensures SearchCaseInsensitive(q, s) == [c]
  {
    var ls := [a, b, c, d];
    forall i | 0 <= i < |ls|
      ensures i in [2] <==> Substring(ToLower(q), ToLower(ls[i]))
    {
      if i == 0 {
      } else if i == 1 {
      } else if i == 2 {
      } else {
      }
    }
    SearchCaseInsensitiveInFileOrder(q, s, [2]);
  }

  /** A lower-case letter absent from `s` in both cases is absent from the
      lower-cased `s`. */
  lemma AbsentAfterLower(s: string, c: char, upper: char)
    requires 'a' <= c <= 'z' && upper as int == c as int - ('a' as int - 'A' as int)
    requires c !in s && upper !in s
    ensures c !in ToLower(s)
  {
    forall i | 0 <= i < |s|
      ensures ToLower(s)[i] != c
    {
      assert s[i] in s;
    }
  }

  // ---------------------------------------------------------------------
  // The example texts, line by line
  // ---------------------------------------------------------------------

  lemma PlainLines()
    ensures Plain("Gym memberships") && Plain("are getting") && Plain("way too expensive.")
    ensures Plain("Are getting") && Plain("Way too expensive.")
    ensures LF !in "Ember." && LF !in "Way too expensive."
  {
  }

  lemma TextA()
    ensures "way too expensive.\nEmber." == "way too expensive." + [LF] + "Ember."
    ensures "are getting\nway too expensive.\nEmber." == "are getting" + [LF] + "way too expensive.\nEmber."
  {
  }

  lemma TextAWhole()
    ensures "Gym memberships\nare getting\nway too expensive.\nEmber."
         == "Gym memberships" + [LF] + "are getting\nway too expensive.\nEmber."
  {
  }

  lemma TextB()
    ensures "Are getting\nWay too expensive." == "Are getting" + [LF] + "Way too expensive."
  {
  }

  lemma TextBWhole()
    ensures "Gym memberships\nAre getting\nWay too expensive."
         == "Gym memberships" + [LF] + "Are getting\nWay too expensive."
  {
  }

  lemma TextC()
    ensures "Way too expensive.\nEmber." == "Way too expensive." + [LF] + "Ember."
    ensures "Are getting\nWay too expensive.\nEmber." == "Are getting" + [LF] + "Way too expensive.\nEmber."
  {
  }

  lemma TextCWhole()
    ensures "Gym memberships\nAre getting\nWay too expensive.\nEmber."
         == "Gym memberships" + [LF] + "Are getting\nWay too expensive.\nEmber."
  {
  }

  // ---------------------------------------------------------------------
  // Which lines contain the queries
  // ---------------------------------------------------------------------

  lemma EmberHits()
    ensures Substring("ember", "Gym memberships")
  {
    assert "ember" <= "Gym memberships"[5..];
  }

  lemma EmberMisses()
    ensures !Substring("ember", "are getting")
    ensures !Substring("ember", "way too expensive.")
    ensures !Substring("ember", "Ember.")
  {
    AbsentChar("ember", "are getting", 'm');
    AbsentChar("ember", "way too expensive.", 'm');
    var s := "Ember.";
    forall i | 0 <= i <= |s|
      ensures !("ember" <= s[i..])
    {
      if i == 0 {
        assert s[i..][0] == 'E';
      } else if i == 1 {
        assert s[i..][0] == 'm';
      } else {
        assert |s[i..]| < |"ember"|;
      }
    }
  }

  lemma LowerQuery()
    ensures ToLower("TOo") == "too"
  {
  }

  lemma TooHits()
    ensures Substring("too", ToLower("Way too expensive."))
  {
    var s := "Way too expensive.";
    assert ToLower(s)[4] == 't' && ToLower(s)[5] == 'o' && ToLower(s)[6] == 'o';
    assert "too" <= ToLower(s)[4..];
  }

  lemma TooMisses()
    ensures !Substring("too", ToLower("Gym memberships"))
    ensures !Substring("too", ToLower("Are getting"))
    ensures !Substring("too", ToLower("Ember."))
  {
    AbsentAfterLower("Gym memberships", 't', 'T');
    AbsentChar("too", ToLower("Gym memberships"), 't');
    AbsentAfterLower("Are getting", 'o', 'O');
    AbsentChar("too", ToLower("Are getting"), 'o');
    AbsentAfterLower("Ember.", 't', 'T');
    AbsentChar("too", ToLower("Ember."), 't');
  }

  // ---------------------------------------------------------------------
  // The examples
  // ---------------------------------------------------------------------

  /** The doc example and the `case_sensitive` test of `search`. */
  lemma CaseSensitiveExample()
    ensures Search("ember", "Gym memberships\nare getting\nway too expensive.\nEmber.")
         == ["Gym memberships"]
  {
    PlainLines();
    TextA();
    TextAWhole();
    FourLines("Gym memberships\nare getting\nway too expensive.\nEmber.",
              "are getting\nway too expensive.\nEmber.", "way too expensive.\nEmber.",
              "Gym memberships", "are getting", "way too expensive.", "Ember.");
    EmberHits();
    EmberMisses();
    SearchFindsFirstOfFour("ember", "Gym memberships\nare getting\nway too expensive.\nEmber.",
                           "Gym memberships", "are getting", "way too expensive.", "Ember.");
  }

  /** The `case_insensitive` test of `search_case_insensitive`. */
  lemma CaseInsensitiveExample()
    ensures SearchCaseInsensitive("TOo", "Gym memberships\nAre getting\nWay too expensive.")
         == ["Way too expensive."]
  {
    PlainLines();
    TextB();
    TextBWhole();
    ThreeLines("Gym memberships\nAre getting\nWay too expensive.", "Are getting\nWay too expensive.",
               "Gym memberships", "Are getting", "Way too expensive.");
    LowerQuery();
    TooHits();
    TooMisses();
    SearchCaseInsensitiveFindsThirdOfThree("TOo", "Gym memberships\nAre getting\nWay too expensive.",
                                           "Gym memberships", "Are getting", "Way too expensive.");
  }

  /** The doc example of `search_case_insensitive`, which has a fourth line. */
  lemma CaseInsensitiveDocExample()
    ensures SearchCaseInsensitive("TOo", "Gym memberships\nAre getting\nWay too expensive.\nEmber.")
         == ["Way too expensive."]
  {
    PlainLines();
    TextC();
    TextCWhole();
    FourLines("Gym memberships\nAre getting\nWay too expensive.\nEmber.",
              "Are getting\nWay too expensive.\nEmber.", "Way too expensive.\nEmber.",
              "Gym memberships", "Are getting", "Way too expensive.", "Ember.");
    LowerQuery();
    TooHits();
    TooMisses();
    SearchCaseInsensitiveFindsThirdOfFour("TOo", "Gym memberships\nAre getting\nWay too expensive.\nEmber.",
                                          "Gym memberships", "Are getting", "Way too expensive.", "Ember.");
  }

  /** A command line holding only the program name has no query; one with a
      query but no path has no file path. */
  lemma MissingArgumentExamples()
    ensures Build(["minigrep"], false) == Err("Didn't get a query string")
    ensures Build(["minigrep", "ember"], true) == Err("Didn't get a file path")
  {
  }
}
