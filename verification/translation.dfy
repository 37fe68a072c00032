/**
 The i18n layer of js/main.js: resolving a dotted key path such as
 `about.skills.0` in the translation document (`getNestedValue`), filling the
 `{year}` placeholder, writing the result into each element whose key finds a
 string (`applyTranslations`), and the silent fallback when the document cannot be
 loaded (`loadTranslations`).

 JavaScript's `undefined` is `None`; a JSON `null` found in the document is
 `Some(Null)`. Both stop the walk.
 */
module Translation {
  import opened Wrappers
  import opened Strings
  import opened Json

  // ---------------------------------------------------------------------------
  // Key-path resolution
  // ---------------------------------------------------------------------------

  /** A segment that `Number(key)` reads as a non-negative integer written in
      decimal digits, optionally surrounded by whitespace. A segment of whitespace
      only (or the empty segment) reads as 0. */
  predicate IsIndexSegment(key: string)
  {
    AllDigits(Trim(key))
  }

  /** The shape `Number` accepts as a plain decimal numeral: whitespace, then
      digits (possibly none), then whitespace. */
  ghost predicate IsPaddedDigits(key: string)
  {
    exists i, j ::
      && 0 <= i <= j <= |key| && AllDigits(key[i..j])
      && (forall k :: 0 <= k < i ==> IsWhitespace(key[k]))
      && (forall k :: j <= k < |key| ==> IsWhitespace(key[k]))
  }

  /** A segment is an index segment exactly when it is a run of decimal digits
      padded on both sides by whitespace. */
  lemma IndexSegmentIsPaddedDigits(key: string)
    ensures IsIndexSegment(key) <==> IsPaddedDigits(key)
  {
    TrimIsSlice(key);
    if IsPaddedDigits(key) {
      var i, j :| && 0 <= i <= j <= |key| && AllDigits(key[i..j])
                  && (forall k :: 0 <= k < i ==> IsWhitespace(key[k]))
                  && (forall k :: j <= k < |key| ==> IsWhitespace(key[k]));
      PaddedDigitsTrim(key, i, j);
    }
  }

  /** Trimming padded digits leaves only digits: the trimmed slice starts at a
      non-whitespace character, so not before `i`, and ends at one, so not after `j`. */
  lemma PaddedDigitsTrim(key: string, i: nat, j: nat)
    requires i <= j <= |key| && AllDigits(key[i..j])
    requires forall k :: 0 <= k < i ==> IsWhitespace(key[k])
    requires forall k :: j <= k < |key| ==> IsWhitespace(key[k])
    ensures AllDigits(Trim(key))
  {
    var a := TrimStartIndex(key, 0);
    var b := TrimEndIndex(key, a, |key|);
    assert Trim(key) == key[a..b];
    if a < b {
      assert !IsWhitespace(key[a]) && !IsWhitespace(key[b - 1]);
      assert i <= a && b <= j;
      forall k | 0 <= k < b - a
        ensures IsDigit(key[a..b][k])
      {
        assert key[a..b][k] == key[i..j][k + a - i];
      }
    }
  }

  /** The array index such a segment denotes. */
  function SegmentIndex(key: string): nat
    requires IsIndexSegment(key)
  {
    DigitsValue(Trim(key))
  }

  /** One step of the reduction in `getNestedValue`. */
  function Step(acc: Option<Node>, key: string): (r: Option<Node>)
    // an absent or null node stops the walk
    ensures acc.None? || acc == Some(Null) ==> r.None?
    // an index segment on an array selects that element, or nothing when out of range
    ensures acc.Some? && acc.value.Arr? && IsIndexSegment(key) ==>
      (r.Some? <==> SegmentIndex(key) < |acc.value.items|) &&
      (r.Some? ==> r.value == acc.value.items[SegmentIndex(key)])
    // any segment on an object is a key lookup
    ensures acc.Some? && acc.value.Obj? ==>
      (r.Some? <==> key in acc.value.fields) &&
      (r.Some? ==> r.value == acc.value.fields[key])
    // every other combination finds nothing
    ensures acc.Some? && !acc.value.Obj? && !(acc.value.Arr? && IsIndexSegment(key)) ==> r.None?
    // whatever is found is a direct member of the current node
    ensures r.Some? ==> acc.Some? && ChildOf(r.value, acc.value)
  {
    match acc
    case None => None
    case Some(Obj(fields)) => if key in fields then Some(fields[key]) else None
    case Some(Arr(items)) =>
      if IsIndexSegment(key) && SegmentIndex(key) < |items| then Some(items[SegmentIndex(key)])
      else None
    case Some(_) => None
  }

  /** The left fold of `Step` over the segments, starting from `acc`. */
  function ResolveSegments(acc: Option<Node>, segments: seq<string>): (r: Option<Node>)
    ensures acc.None? ==> r.None?
    ensures acc == Some(Null) && |segments| > 0 ==> r.None?
    ensures r.Some? ==> acc.Some?
    decreases |segments|
  {
    if segments == [] then acc
    else ResolveSegments(Step(acc, segments[0]), segments[1..])
  }

  /** `getNestedValue(obj, path)`: split the path on `.` and walk from the root. */
  function Resolve(doc: Node, path: string): (r: Option<Node>)
    // a path without `.` is a single lookup on the document
    ensures '.' !in path ==> r == Step(Some(doc), path)
    // whatever a key path resolves to is already a node of the document:
    // resolution reads, it never creates or alters a node
    ensures r.Some? ==> Reachable(doc, r.value)
  {
    var segments := Split(path, '.');
    var r := ResolveSegments(Some(doc), segments);
    assert '.' !in path ==> r == Step(Some(doc), path) by {
      if '.' !in path {
        SplitNoSeparator(path, '.');
        assert segments[0] == path && segments[1..] == [];
        assert r == ResolveSegments(Step(Some(doc), path), []);
      }
    }
    assert r.Some? ==> Reachable(doc, r.value) by {
      if r.Some? { ResolveSegmentsStaysInside(doc, segments); }
    }
    r
  }

  /** Resolution of `path` continued from an already resolved node (or from absence). */
  function ResolveFrom(acc: Option<Node>, path: string): Option<Node>
  {
    ResolveSegments(acc, Split(path, '.'))
  }

  /** The fold law: walking `a + b` is walking `a`, then `b` from where `a` ended. */
  lemma {:induction false} ResolveSegmentsAppend(acc: Option<Node>, a: seq<string>, b: seq<string>)
    ensures ResolveSegments(acc, a + b) == ResolveSegments(ResolveSegments(acc, a), b)
    decreases |a|
  {
    if a == [] {
      assert a + b == b;
    } else {
      assert (a + b)[0] == a[0];
      assert (a + b)[1..] == a[1..] + b;
      ResolveSegmentsAppend(Step(acc, a[0]), a[1..], b);
    }
  }

  /** Resolving `p.q` is resolving `q` from the node `p` resolves to. */
  lemma ResolveComposes(doc: Node, p: string, q: string)
    ensures Resolve(doc, p + "." + q) == ResolveFrom(Resolve(doc, p), q)
  {
    SplitAppend(p, '.', q);
    assert p + "." + q == p + ['.'] + q;
    ResolveSegmentsAppend(Some(doc), Split(p, '.'), Split(q, '.'));
  }

  /** Once a prefix of the path resolves to nothing or to null, every longer path
      resolves to nothing, whatever its remaining segments are. */
  lemma ResolvePastAbsent(doc: Node, p: string, q: string)
    requires Resolve(doc, p).None? || Resolve(doc, p) == Some(Null)
    ensures Resolve(doc, p + "." + q).None?
  {
    ResolveComposes(doc, p, q);
  }

  /** The walk only ever returns nodes that are already in the document it starts from:
      resolution reads, it never creates or alters a node. */
  lemma {:induction false} ResolveSegmentsStaysInside(n: Node, segments: seq<string>)
    requires ResolveSegments(Some(n), segments).Some?
    ensures Reachable(n, ResolveSegments(Some(n), segments).value)
    decreases |segments|
  {
    var r := ResolveSegments(Some(n), segments).value;
    if segments != [] {
      var next := Step(Some(n), segments[0]);
      assert next.Some?;
      ResolveSegmentsStaysInside(next.value, segments[1..]);
      ReachableThroughChild(n, next.value, r);
    }
  }

  // ---------------------------------------------------------------------------
  // Template filling and the per-element update
  // ---------------------------------------------------------------------------

  const YearToken: string := "{year}"

  /** `value.replace("{year}", String(currentYear))`: the first `{year}` becomes
      the decimal year, the text around it is kept, later tokens stay as they are. */
  function FillYear(template: string, year: int): (r: string)
    ensures (forall i :: !OccursAt(template, YearToken, i)) ==> r == template
    ensures forall i :: IsFirstOccurrence(template, YearToken, i) ==>
      r == template[..i] + IntToString(year) + template[i + |YearToken|..]
  {
    ReplaceFirst(template, YearToken, IntToString(year))
  }

  /** With two non-overlapping `{year}` tokens, the second one survives the fill. */
  lemma FillYearKeepsSecondToken(template: string, year: int, i: nat, j: nat)
    requires IsFirstOccurrence(template, YearToken, i)
    requires i + |YearToken| <= j && OccursAt(template, YearToken, j)
    ensures Includes(FillYear(template, year), YearToken)
  {
    ReplaceFirstKeepsLaterOccurrences(template, YearToken, IntToString(year), i, j);
  }

  /** An element carrying `data-i18n`: its key path and its current text content. */
  datatype Element = Element(key: string, text: string)

  /** The string a key finds in the document, if it is non-empty and resolves to a string. */
  predicate HasTranslation(doc: Node, key: string)
  {
    key != [] && Resolve(doc, key).Some? && Resolve(doc, key).value.Str?
  }

  /** The body of the `forEach` in `applyTranslations` for one element. */
  function TranslateElement(doc: Node, year: int, el: Element): (r: Element)
    ensures r.key == el.key
    ensures !HasTranslation(doc, el.key) ==> r == el
    ensures HasTranslation(doc, el.key) ==>
      r.text == FillYear(Resolve(doc, el.key).value.text, year)
  {
    if el.key == [] then el
    else match Resolve(doc, el.key)
      case Some(Str(value)) => el.(text := FillYear(value, year))
      case _ => el
  }

  /** The new text depends only on the key, never on the old text, so translating
      an element a second time changes nothing. */
  lemma TranslateElementIdempotent(doc: Node, year: int, el: Element)
    ensures TranslateElement(doc, year, TranslateElement(doc, year, el)) == TranslateElement(doc, year, el)
  {
  }

  /** `applyTranslations(translations)` over the page's `[data-i18n]` elements, in document order. */
  method ApplyTranslations(doc: Node, year: int, elements: seq<Element>) returns (updated: seq<Element>)
    ensures |updated| == |elements|
    ensures forall i :: 0 <= i < |elements| ==> updated[i] == TranslateElement(doc, year, elements[i])
  {
    updated := [];
    var n := 0;
    while n < |elements|
      invariant 0 <= n <= |elements|
      invariant |updated| == n
      invariant forall i :: 0 <= i < n ==> updated[i] == TranslateElement(doc, year, elements[i])
    {
      updated := updated + [TranslateElement(doc, year, elements[n])];
      n := n + 1;
    }
  }

  // ---------------------------------------------------------------------------
  // Loading the document
  // ---------------------------------------------------------------------------

  /** What `fetch` + `response.json()` produced. */
  datatype FetchOutcome =
    | NetworkError            // fetch rejected
    | HttpError(status: int)  // response.ok was false
    | InvalidJson             // response.json() rejected
    | Loaded(doc: Node)

  /** The resource requested for a language: `/content/${lang}.json`. */
  function ContentPath(lang: string): (path: string)
    ensures |path| == |lang| + 14
    ensures path[..9] == "/content/" && path[9..|path| - 5] == lang && path[|path| - 5..] == ".json"
  {
    "/content/" + lang + ".json"
  }

  /** Distinct languages fetch distinct resources. */
  lemma ContentPathInjective(a: string, b: string)
    requires ContentPath(a) == ContentPath(b)
    ensures a == b
  {
    assert a == ContentPath(a)[9..|a| + 9];
  }

  /** `loadTranslations(lang)` after the fetch settled: any failure leaves every
      element as it was; a loaded document is applied to every element. */
  method LoadTranslations(outcome: FetchOutcome, year: int, elements: seq<Element>) returns (updated: seq<Element>)
    ensures !outcome.Loaded? ==> updated == elements
    ensures outcome.Loaded? ==> |updated| == |elements|
    ensures outcome.Loaded? ==>
      forall i :: 0 <= i < |elements| ==> updated[i] == TranslateElement(outcome.doc, year, elements[i])
  {
    match outcome
    case Loaded(doc) =>
      updated := ApplyTranslations(doc, year, elements);
    case _ =>
      updated := elements;
  }
}
