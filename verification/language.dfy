/**
 The language switcher of js/main.js: rewriting the current pathname when an
 EN | ES link is clicked, and choosing the language whose translations are
 loaded (a stored preference, else the page's `lang` attribute).
 */
module Language {
  import opened Wrappers
  import opened Strings

  // ---------------------------------------------------------------------------
  // Pathname rewrite on a language-link click
  // ---------------------------------------------------------------------------

  /** The segments the handler looks for. */
  predicate IsLanguageSegment(seg: string)
  {
    seg == "en" || seg == "es"
  }

  /** `pathname.split("/").filter(Boolean)` */
  function PathSegments(pathname: string): (segments: seq<string>)
    ensures forall k :: 0 <= k < |segments| ==> segments[k] != [] && '/' !in segments[k]
  {
    var parts := Split(pathname, '/');
    var segments := DropEmpty(parts);
    assert forall k :: 0 <= k < |segments| ==> '/' !in segments[k] by {
      forall k | 0 <= k < |segments| ensures '/' !in segments[k] {
        var j :| 0 <= j < |parts| && parts[j] == segments[k];
      }
    }
    segments
  }

  /** `i` is the first segment equal to `en` or `es`. */
  predicate IsFirstLanguageSegment(segments: seq<string>, i: int)
  {
    0 <= i < |segments| && IsLanguageSegment(segments[i]) &&
    forall k :: 0 <= k < i ==> !IsLanguageSegment(segments[k])
  }

  /** `segments.findIndex(seg => seg === "en" || seg === "es")`, scanning from `from`. */
  function FindLanguageSegment(segments: seq<string>, from: nat): (r: Option<nat>)
    requires from <= |segments|
    ensures r.Some? ==> from <= r.value < |segments| && IsLanguageSegment(segments[r.value])
    ensures r.Some? ==> forall k :: from <= k < r.value ==> !IsLanguageSegment(segments[k])
    ensures r.None? ==> forall k :: from <= k < |segments| ==> !IsLanguageSegment(segments[k])
    decreases |segments| - from
  {
    if from == |segments| then None
    else if IsLanguageSegment(segments[from]) then Some(from)
    else FindLanguageSegment(segments, from + 1)
  }

  /** The pathname after the click: when some segment is `en` or `es`, the first such
      segment becomes `target` and the path is rebuilt as `"/" + segments.join("/")`;
      otherwise the pathname is left as it was. */
  function RewritePathname(pathname: string, target: string): (r: string)
    ensures (forall k :: 0 <= k < |PathSegments(pathname)| ==> !IsLanguageSegment(PathSegments(pathname)[k])) ==>
      r == pathname
    ensures forall i :: IsFirstLanguageSegment(PathSegments(pathname), i) ==>
      r == "/" + Join(PathSegments(pathname)[i := target], '/')
  {
    var segments := PathSegments(pathname);
    match FindLanguageSegment(segments, 0)
    case None => pathname
    case Some(i) => "/" + Join(segments[i := target], '/')
  }

  /** The click handler: an empty `data-lang` does nothing; otherwise the browser is
      sent to the rewritten pathname (the same one when no segment matched). */
  function LanguageLinkClick(pathname: string, target: string): (destination: Option<string>)
    ensures destination.None? <==> target == []
    ensures destination.Some? ==> destination.value == RewritePathname(pathname, target)
  {
    if target == [] then None else Some(RewritePathname(pathname, target))
  }

  /** Rebuilding a path from non-empty, slash-free segments and splitting it again
      gives the same segments. */
  lemma {:induction false} PathSegmentsOfRebuilt(segments: seq<string>)
    requires |segments| >= 1
    requires forall k :: 0 <= k < |segments| ==> segments[k] != [] && '/' !in segments[k]
    ensures PathSegments("/" + Join(segments, '/')) == segments
  {
    var joined := Join(segments, '/');
    assert "/" + joined == [] + ['/'] + joined;
    SplitAppend([], '/', joined);
    SplitJoin(segments, '/');
    assert Split("/" + joined, '/') == [[]] + segments;
    DropEmptyAppend([[]], segments);
    DropEmptyKeepsNonEmpty(segments);
  }

  /** After the click, the path's segments are the old ones with only the first
      `en`/`es` segment replaced by the target: same number, same order, later
      `en`/`es` segments untouched. */
  lemma RewriteReplacesFirstLanguageSegment(pathname: string, target: string, i: nat)
    requires target != [] && '/' !in target
    requires IsFirstLanguageSegment(PathSegments(pathname), i)
    ensures PathSegments(RewritePathname(pathname, target)) == PathSegments(pathname)[i := target]
    ensures RewritePathname(pathname, target)[0] == '/'
  {
    var segments := PathSegments(pathname)[i := target];
    PathSegmentsOfRebuilt(segments);
  }

  /** Switching language twice is the same as switching once to the second language:
      the first switch leaves a language segment where the second one looks. */
  lemma SecondSwitchWins(pathname: string, first: string, second: string)
    requires IsLanguageSegment(first)
    ensures RewritePathname(RewritePathname(pathname, first), second) == RewritePathname(pathname, second)
  {
    var segments := PathSegments(pathname);
    match FindLanguageSegment(segments, 0)
    case None =>
    case Some(i) =>
      RewriteReplacesFirstLanguageSegment(pathname, first, i);
      var once := RewritePathname(pathname, first);
      assert IsFirstLanguageSegment(PathSegments(once), i);
      assert PathSegments(once)[i := second] == segments[i := second];
  }

  // ---------------------------------------------------------------------------
  // Choice of the language to load
  // ---------------------------------------------------------------------------

  predicate IsAsciiUpper(c: char) { 'A' <= c <= 'Z' }

  /** `toLowerCase()` on ASCII letters. */
  function LowerChar(c: char): (r: char)
    ensures !IsAsciiUpper(r)
    ensures !IsAsciiUpper(c) ==> r == c
    ensures IsAsciiUpper(c) ==> r as int == c as int + 32
  {
    if IsAsciiUpper(c) then (c as int + 32) as char else c
  }

  /** `s.toLowerCase()`, character by character. */
  function ToLower(s: string): (r: string)
    ensures |r| == |s|
    ensures forall k :: 0 <= k < |r| ==> !IsAsciiUpper(r[k])
    ensures forall k :: 0 <= k < |s| && !IsAsciiUpper(s[k]) ==> r[k] == s[k]
    ensures forall k :: 0 <= k < |s| && IsAsciiUpper(s[k]) ==> r[k] as int == s[k] as int + 32
  {
    seq(|s|, k requires 0 <= k < |s| => LowerChar(s[k]))
  }

  /** What reading `localStorage.getItem("preferredLang")` gave. */
  datatype StoredPreference =
    | Stored(item: Option<string>)  // getItem returned a string or null
    | StorageUnavailable            // getItem threw

  /** A stored value the page honours: exactly `en` or `es`. */
  predicate HonouredPreference(stored: StoredPreference)
  {
    stored.Stored? && stored.item.Some? && IsLanguageSegment(stored.item.value)
  }

  /** The language whose translations are loaded: an honoured stored preference,
      otherwise `(lang attribute || "en").toLowerCase()`. */
  function PreferredLanguage(langAttribute: Option<string>, stored: StoredPreference): (lang: string)
    ensures HonouredPreference(stored) ==> lang == stored.item.value
    ensures !HonouredPreference(stored) && (langAttribute.None? || langAttribute.value == []) ==> lang == "en"
    ensures !HonouredPreference(stored) && langAttribute.Some? && langAttribute.value != [] ==>
      lang == ToLower(langAttribute.value)
  {
    if HonouredPreference(stored) then stored.item.value
    else
      var attribute := langAttribute.GetOr([]);
      ToLower(if attribute == [] then "en" else attribute)
  }

  /** The chosen language never contains an upper-case ASCII letter, and a stored
      value other than `en`/`es` (or a storage failure) has no influence at all. */
  lemma PreferredLanguageProperties(langAttribute: Option<string>, s1: StoredPreference, s2: StoredPreference)
    ensures forall k :: 0 <= k < |PreferredLanguage(langAttribute, s1)| ==>
      !IsAsciiUpper(PreferredLanguage(langAttribute, s1)[k])
    ensures !HonouredPreference(s1) && !HonouredPreference(s2) ==>
      PreferredLanguage(langAttribute, s1) == PreferredLanguage(langAttribute, s2)
  {
  }
}
