/**
 The contact form's submit handler in js/main.js: every field is trimmed,
 empty fields get their "Please enter ..." message, a non-empty email that
 does not match `^[^\s@]+@[^\s@]+\.[^\s@]+$` gets the "valid email" message,
 and the form is accepted only when no field has an error.
 */
module ContactForm {
  import opened Strings

  const NameMissing: string := "Please enter your name."
  const EmailMissing: string := "Please enter your email."
  const EmailMalformed: string := "Please enter a valid email address."
  const MessageMissing: string := "Please enter a message."
  const RejectedStatus: string := "Please fix the highlighted fields and try again."
  const AcceptedStatus: string := "Thanks for your message! (Wire this up to your backend or email service.)"

  /** The raw values of the name, email and message inputs. */
  datatype Fields = Fields(name: string, email: string, message: string)

  /** The text of each field's error element; the empty string shows no error. */
  datatype FieldErrors = FieldErrors(name: string, email: string, message: string)

  // ---------------------------------------------------------------------------
  // The email pattern
  // ---------------------------------------------------------------------------

  /** `[^\s@]`: any character that is neither whitespace nor `@`. */
  predicate IsPartChar(c: char)
  {
    !IsWhitespace(c) && c != '@'
  }

  predicate AllPartChars(s: string)
  {
    forall k :: 0 <= k < |s| ==> IsPartChar(s[k])
  }

  /** `[^\s@]+` */
  predicate IsPart(s: string)
  {
    |s| >= 1 && AllPartChars(s)
  }

  /** `^[^\s@]+@[^\s@]+\.[^\s@]+$` read as the regular expression it is: the whole
      string is a part, `@`, a part, `.`, a part. The parts may themselves contain
      dots, so any dot after the `@` with a part on each side will do. */
  ghost predicate MatchesEmailPattern(s: string)
  {
    exists at, dot ::
      && 0 < at < dot < |s| - 1
      && s[at] == '@' && s[dot] == '.'
      && IsPart(s[..at]) && IsPart(s[at + 1..dot]) && IsPart(s[dot + 1..])
  }

  /** The domain after the `@`: part characters only, with a `.` that is neither
      its first nor its last character. */
  predicate IsDomain(d: string)
  {
    |d| >= 3 && AllPartChars(d) && '.' in d[1..|d| - 1]
  }

  /** The test the handler performs, computed by locating the first `@`. */
  function LooksLikeEmail(s: string): (ok: bool)
    ensures ok <==> MatchesEmailPattern(s)
  {
    match IndexOf(s, "@")
    case None =>
      NoAtNoMatch(s);
      false
    case Some(at) =>
      assert s[at] == '@' by { assert s[at..at + 1] == "@"; }
      EmailCheckAt(s, at);
      at > 0 && AllPartChars(s[..at]) && IsDomain(s[at + 1..])
  }

  /** Without any `@` the pattern cannot match. */
  lemma NoAtNoMatch(s: string)
    requires forall i :: !OccursAt(s, "@", i)
    ensures !MatchesEmailPattern(s)
  {
    if MatchesEmailPattern(s) {
      var at, dot :| 0 < at < dot < |s| - 1 && s[at] == '@' && s[dot] == '.';
      assert s[at..at + 1] == "@";
      assert OccursAt(s, "@", at);
    }
  }

  /** With the first `@` at `at`, the pattern matches exactly when the text before it
      is a part and the text after it is a domain. */
  lemma EmailCheckAt(s: string, at: nat)
    requires IsFirstOccurrence(s, "@", at)
    requires s[at] == '@'
    ensures MatchesEmailPattern(s) <==> at > 0 && AllPartChars(s[..at]) && IsDomain(s[at + 1..])
  {
    if at > 0 && AllPartChars(s[..at]) && IsDomain(s[at + 1..]) {
      DomainGivesMatch(s, at);
    }
    if MatchesEmailPattern(s) {
      MatchGivesDomain(s, at);
    }
  }

  /** A part, an `@` and a domain make a match. */
  lemma DomainGivesMatch(s: string, at: nat)
    requires at < |s| && s[at] == '@'
    requires at > 0 && AllPartChars(s[..at]) && IsDomain(s[at + 1..])
    ensures MatchesEmailPattern(s)
  {
    var d := s[at + 1..];
    var inner := d[1..|d| - 1];
    var p :| 0 <= p < |inner| && inner[p] == '.';
    var dot := at + 2 + p;
    assert s[dot] == '.';
    assert s[at + 1..dot] == d[..p + 1];
    assert s[dot + 1..] == d[p + 2..];
    assert IsPart(s[..at]);
    assert IsPart(s[at + 1..dot]);
    assert IsPart(s[dot + 1..]);
  }

  /** In a match, the `@` is the only one in the string, so it is the first, and
      everything after it is a domain. */
  lemma MatchGivesDomain(s: string, at: nat)
    requires IsFirstOccurrence(s, "@", at)
    requires s[at] == '@'
    requires MatchesEmailPattern(s)
    ensures at > 0 && AllPartChars(s[..at]) && IsDomain(s[at + 1..])
  {
    var at', dot :|
      && 0 < at' < dot < |s| - 1
      && s[at'] == '@' && s[dot] == '.'
      && IsPart(s[..at']) && IsPart(s[at' + 1..dot]) && IsPart(s[dot + 1..]);
    MatchedAtIsFirst(s, at, at');
    SliceAround(s, at + 1, dot);
    PartsMakeDomain(s[at + 1..], s[at + 1..dot], s[dot + 1..]);
  }

  /** A suffix split around one of its characters. */
  lemma SliceAround(s: string, lo: nat, mid: nat)
    requires lo <= mid < |s|
    ensures s[lo..] == s[lo..mid] + [s[mid]] + s[mid + 1..]
  {
  }

  /** An `@` preceded by a part is the first `@` of the string. */
  lemma MatchedAtIsFirst(s: string, at: nat, at': nat)
    requires IsFirstOccurrence(s, "@", at)
    requires at' < |s| && s[at'] == '@' && IsPart(s[..at'])
    ensures at == at'
  {
    assert s[at'..at' + 1] == "@";
    assert OccursAt(s, "@", at');
    assert s[at] == s[at..at + 1][0] == '@';
    forall k | 0 <= k < at' ensures s[k] != '@' {
      assert s[..at'][k] == s[k];
    }
  }

  /** A part, a dot and a part form a domain. */
  lemma PartsMakeDomain(d: string, left: string, right: string)
    requires d == left + "." + right
    requires IsPart(left) && IsPart(right)
    ensures IsDomain(d)
  {
    forall k | 0 <= k < |d| ensures IsPartChar(d[k]) {
      if k < |left| {
        assert d[k] == left[k];
      } else if k > |left| {
        assert d[k] == right[k - |left| - 1];
      }
    }
    assert d[1..|d| - 1][|left| - 1] == '.';
  }

  // ---------------------------------------------------------------------------
  // Submitting the form
  // ---------------------------------------------------------------------------

  /** The error messages the handler writes for the given raw field values. */
  function Validate(form: Fields): (errors: FieldErrors)
    ensures errors.name == (if Trim(form.name) == [] then NameMissing else [])
    ensures errors.message == (if Trim(form.message) == [] then MessageMissing else [])
    // an empty email is reported as missing, never as malformed
    ensures Trim(form.email) == [] ==> errors.email == EmailMissing
    ensures Trim(form.email) != [] && !MatchesEmailPattern(Trim(form.email)) ==> errors.email == EmailMalformed
    ensures MatchesEmailPattern(Trim(form.email)) ==> errors.email == []
  {
    var name := Trim(form.name);
    var email := Trim(form.email);
    var message := Trim(form.message);
    FieldErrors(
      if name == [] then NameMissing else [],
      if email == [] then EmailMissing else if !LooksLikeEmail(email) then EmailMalformed else [],
      if message == [] then MessageMissing else [])
  }

  /** The form after a submit: its fields, the field errors shown, and the status line. */
  datatype Submitted = Submitted(fields: Fields, errors: FieldErrors, status: string)

  /** The whole submit handler. The form is accepted exactly when the trimmed name
      and message are non-empty and the trimmed email matches the pattern; an
      accepted form is reset, a rejected one keeps what the user typed. */
  function Submit(form: Fields): (after: Submitted)
    ensures after.status == AcceptedStatus <==>
      Trim(form.name) != [] && Trim(form.message) != [] && MatchesEmailPattern(Trim(form.email))
    ensures after.status == AcceptedStatus <==> after.errors == FieldErrors([], [], [])
    ensures after.status != AcceptedStatus ==> after.status == RejectedStatus && after.fields == form
    ensures after.status == AcceptedStatus ==> after.fields == Fields([], [], [])
    ensures after.errors == Validate(form)
  {
    var errors := Validate(form);
    var valid := errors.name == [] && errors.email == [] && errors.message == [];
    if valid then Submitted(Fields([], [], []), errors, AcceptedStatus)
    else Submitted(form, errors, RejectedStatus)
  }

  /** Each field of `form` with its own text from `before` in front and from `after` behind. */
  function Surround(before: Fields, form: Fields, after: Fields): Fields
  {
    Fields(before.name + form.name + after.name,
           before.email + form.email + after.email,
           before.message + form.message + after.message)
  }

  /** Every field of `f` is made of whitespace only. */
  predicate AllBlank(f: Fields)
  {
    AllWhitespace(f.name) && AllWhitespace(f.email) && AllWhitespace(f.message)
  }

  /** Surrounding whitespace never changes the verdict: the handler trims first.
      Every field may carry its own padding, different before and after. */
  lemma ValidateIgnoresSurroundingWhitespace(form: Fields, before: Fields, after: Fields)
    requires AllBlank(before) && AllBlank(after)
    ensures Validate(Surround(before, form, after)) == Validate(form)
  {
    TrimPadded(before.name, form.name, after.name);
    TrimPadded(before.email, form.email, after.email);
    TrimPadded(before.message, form.message, after.message);
  }

  /** Trimming removes leading and trailing padding made only of whitespace. */
  lemma TrimPadded(pre: string, s: string, post: string)
    requires AllWhitespace(pre) && AllWhitespace(post)
    ensures Trim(pre + s + post) == Trim(s)
  {
    var i := TrimStartIndex(s, 0);
    if i < |s| {
      TrimPaddedText(pre, s, post, i, TrimEndIndex(s, i, |s|));
    } else {
      PaddedBlank(pre, s, post);
    }
  }

  /** Padding text that has a non-whitespace character shifts both trim bounds by
      the length of the leading padding. */
  lemma TrimPaddedText(pre: string, s: string, post: string, i: nat, j: nat)
    requires AllWhitespace(pre) && AllWhitespace(post)
    requires i == TrimStartIndex(s, 0) && i < |s|
    requires j == TrimEndIndex(s, i, |s|)
    ensures Trim(pre + s + post) == Trim(s)
  {
    var p := pre + s + post;
    PaddedStart(pre, s, post, i);
    PaddedEnd(pre, s, post, i, j);
    assert Trim(p) == p[|pre| + i..|pre| + j];
    assert Trim(s) == s[i..j];
    SliceOfMiddle(pre, s, post, i, j);
  }

  /** A slice inside the middle part of `pre + s + post` is that slice of `s`. */
  lemma SliceOfMiddle(pre: string, s: string, post: string, i: nat, j: nat)
    requires i <= j <= |s|
    ensures (pre + s + post)[|pre| + i..|pre| + j] == s[i..j]
  {
    var p := pre + s + post;
    forall k | 0 <= k < j - i ensures p[|pre| + i..|pre| + j][k] == s[i..j][k] {
      assert p[|pre| + i + k] == s[i + k];
    }
  }

  /** Padding a blank string leaves it blank. */
  lemma PaddedBlank(pre: string, s: string, post: string)
    requires AllWhitespace(pre) && AllWhitespace(post)
    requires TrimStartIndex(s, 0) == |s|
    ensures TrimStartIndex(pre + s + post, 0) == |pre + s + post|
  {
    var p := pre + s + post;
    forall k | 0 <= k < |p| ensures IsWhitespace(p[k]) {
      if k < |pre| { assert p[k] == pre[k]; }
      else if k < |pre| + |s| { assert p[k] == s[k - |pre|]; }
      else { assert p[k] == post[k - |pre| - |s|]; }
    }
  }

  /** Leading padding shifts the first non-whitespace index by its length. */
  lemma PaddedStart(pre: string, s: string, post: string, i: nat)
    requires AllWhitespace(pre)
    requires i == TrimStartIndex(s, 0) && i < |s|
    ensures TrimStartIndex(pre + s + post, 0) == |pre| + i
  {
    var p := pre + s + post;
    forall k | 0 <= k < |pre| + i ensures IsWhitespace(p[k]) {
      if k < |pre| { assert p[k] == pre[k]; } else { assert p[k] == s[k - |pre|]; }
    }
    assert p[|pre| + i] == s[i];
  }

  /** Trailing padding leaves the end of the trimmed text where it was, shifted by the leading padding. */
  lemma PaddedEnd(pre: string, s: string, post: string, i: nat, j: nat)
    requires AllWhitespace(post)
    requires i == TrimStartIndex(s, 0) && i < |s|
    requires j == TrimEndIndex(s, i, |s|)
    ensures TrimEndIndex(pre + s + post, |pre| + i, |pre + s + post|) == |pre| + j
  {
    var p := pre + s + post;
    forall k | |pre| + j <= k < |p| ensures IsWhitespace(p[k]) {
      if k < |pre| + |s| { assert p[k] == s[k - |pre|]; } else { assert p[k] == post[k - |pre| - |s|]; }
    }
    assert j > i;
    assert p[|pre| + j - 1] == s[j - 1];
  }
}
