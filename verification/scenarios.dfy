/**
 Worked instances: nested keys, an array index, a null on the way, a `{year}`
 template, a language link, the email check and the tag filter.
 */
module Scenarios {
  import opened Wrappers
  import opened Strings
  import opened Json
  import opened Translation
  import opened Language
  import opened ContactForm
  import opened ProjectFilter

  /** `a.b.c` walks three objects down to a string. */
  lemma NestedKeysResolve()
    ensures Resolve(Obj(map["a" := Obj(map["b" := Obj(map["c" := Str("hello")])])]), "a.b.c") == Some(Str("hello"))
  {
    SplitJoin(["a", "b", "c"], '.');
    assert Join(["a", "b", "c"], '.') == "a.b.c";
  }

  /** A numeric segment indexes an array; an index past its end finds nothing. */
  lemma ArrayIndexResolves()
    ensures Resolve(Obj(map["a" := Obj(map["b" := Arr([Str("x"), Str("y")])])]), "a.b.0") == Some(Str("x"))
    ensures Resolve(Obj(map["a" := Obj(map["b" := Arr([Str("x"), Str("y")])])]), "a.b.5") == None
  {
    SplitJoin(["a", "b", "0"], '.');
    assert Join(["a", "b", "0"], '.') == "a.b.0";
    assert Trim("0") == "0";
    assert DigitsValue("0") == 0;
    SplitJoin(["a", "b", "5"], '.');
    assert Join(["a", "b", "5"], '.') == "a.b.5";
    assert Trim("5") == "5";
    assert DigitsValue("5") == 5;
  }

  /** A null on the way stops the walk. */
  lemma NullIntermediateResolvesToNothing()
    ensures Resolve(Obj(map["a" := Null]), "a.b") == None
  {
    SplitJoin(["a", "b"], '.');
    assert Join(["a", "b"], '.') == "a.b";
  }

  lemma Year2025()
    ensures IntToString(2025) == "2025"
  {
    assert NatToString(2) == "2";
    assert NatToString(20) == "20";
    assert NatToString(202) == "202";
  }

  lemma CopyrightTokenAt10()
    ensures IsFirstOccurrence("Copyright {year}", YearToken, 10)
  {
    var t := "Copyright {year}";
    forall k | 0 <= k < 10 ensures !OccursAt(t, YearToken, k) {
      assert t[k..k + 6][0] == t[k] != '{';
    }
    assert t[10..16] == YearToken;
  }

  /** A `{year}` template: the token is replaced by the year, the text before it kept. */
  lemma CopyrightYearFilled()
    ensures FillYear("Copyright {year}", 2025) == "Copyright 2025"
  {
    var t := "Copyright {year}";
    Year2025();
    CopyrightTokenAt10();
    assert t[..10] == "Copyright ";
    assert t[16..] == "";
  }

  /** Of two tokens, only the first is replaced. */
  lemma OnlyFirstTokenFilled()
    ensures FillYear("{year}-{year}", 2025) == "2025-{year}"
  {
    var t := "{year}-{year}";
    assert t[0..6] == YearToken;
    assert IsFirstOccurrence(t, YearToken, 0);
    Year2025();
    assert t[6..] == "-{year}";
  }

  lemma EnglishProjectsSegments()
    ensures PathSegments("/en/projects") == ["en", "projects"]
  {
    PathSegmentsOfRebuilt(["en", "projects"]);
    assert Join(["en", "projects"], '/') == "en/projects";
    assert "/" + Join(["en", "projects"], '/') == "/en/projects";
  }

  /** Switching `/en/projects` to Spanish. */
  lemma EnglishProjectsToSpanish()
    ensures RewritePathname("/en/projects", "es") == "/es/projects"
  {
    var segments := ["en", "projects"];
    assert "/" + Join(segments[0 := "es"], '/') == "/es/projects" by {
      assert segments[0 := "es"] == ["es", "projects"];
      assert Join(["es", "projects"], '/') == "es/projects";
    }
    assert IsFirstLanguageSegment(segments, 0);
    EnglishProjectsSegments();
  }

  /** Tag matching is by substring: `java` selects a card tagged `javascript`. */
  lemma JavaMatchesJavascript()
    ensures Shows("java", Some("javascript, react"))
  {
    assert OccursAt("javascript, react", "java", 0);
  }

  /** The address shapes the email pattern accepts and rejects. */
  lemma EmailShapes()
    ensures MatchesEmailPattern("me@site.dev")
    ensures !MatchesEmailPattern("me@localhost")
  {
    var s := "me@site.dev";
    assert s[..2] == "me" && s[3..7] == "site" && s[8..] == "dev";
    assert IsPart(s[..2]) && IsPart(s[3..7]) && IsPart(s[8..]);
    assert s[2] == '@' && s[7] == '.';
    assert "me@localhost"[2] == '@';
    assert forall k :: 0 <= k < |"me@localhost"| ==> "me@localhost"[k] != '.';
  }
}
