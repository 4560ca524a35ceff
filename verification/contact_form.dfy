/**
 * The pure logic of the contact page (connect.js): the e-mail pattern
 * `^[^\s@]+@[^\s@]+\.[^\s@]+$`, the ordered field checks of `validateForm`,
 * and the four-field payload `sendEmail` posts to the form relay.
 * DOM reads, `alert` and `fetch` are left out; field values are parameters.
 */
module ContactForm {
  import opened Wrappers
  import opened Text

  /* ---------------------------------------------------------------------- */
  /* isValidEmail                                                           */
  /* ---------------------------------------------------------------------- */

  /** A character of the class `[^\s@]`. */
  predicate EmailChar(c: char) {
    !IsWhitespace(c) && c != '@'
  }

  predicate AllEmailChars(t: string) {
    forall i :: 0 <= i < |t| ==> EmailChar(t[i])
  }

  /**
   * The anchored pattern matches `s` with its `@` at index `a` and its
   * literal `.` at index `d`: three non-empty runs of `[^\s@]` around them.
   */
  predicate PatternAt(s: string, a: int, d: int) {
    && 0 < a && a + 1 < d && d + 1 < |s|
    && s[a] == '@' && s[d] == '.'
    && AllEmailChars(s[..a]) && AllEmailChars(s[a + 1..d]) && AllEmailChars(s[d + 1..])
  }

  /** `/^[^\s@]+@[^\s@]+\.[^\s@]+$/.test(s)`, read off the pattern: some split matches. */
  ghost predicate MatchesEmailRegex(s: string) {
    exists a, d :: PatternAt(s, a, d)
  }

  /** Index of the first `@` in `s`, or `|s|` when there is none. */
  function FirstAt(s: string): (i: nat)
    ensures i <= |s|
    ensures forall k :: 0 <= k < i ==> s[k] != '@'
    ensures i < |s| ==> s[i] == '@'
  {
    if |s| == 0 then 0
    else if s[0] == '@' then 0
    else
      var i := FirstAt(s[1..]);
      assert forall k :: 1 <= k < 1 + i ==> s[k] == s[1..][k - 1];
      1 + i
  }

  /** `domain` has a `.` that is neither its first nor its last character. */
  predicate HasInnerDot(domain: string) {
    exists k :: 0 < k < |domain| - 1 && domain[k] == '.'
  }

  /**
   * `isValidEmail`: a non-empty local part before the first `@`, and after
   * it a domain with an inner dot, neither containing whitespace or `@`.
   */
  predicate IsValidEmail(s: string) {
    var a := FirstAt(s);
    && 0 < a < |s|
    && AllEmailChars(s[..a])
    && AllEmailChars(s[a + 1..])
    && HasInnerDot(s[a + 1..])
  }

  /** The first-`@` scanner accepts exactly the strings the regular expression matches. */
  lemma IsValidEmailMatchesRegex(s: string)
    ensures IsValidEmail(s) <==> MatchesEmailRegex(s)
  {
    if IsValidEmail(s) {
      var a := FirstAt(s);
      var domain := s[a + 1..];
      var k :| 0 < k < |domain| - 1 && domain[k] == '.';
      var d := a + 1 + k;
      assert s[a + 1..d] == domain[..k];
      assert s[d + 1..] == domain[k + 1..];
      assert PatternAt(s, a, d);
    }
    if MatchesEmailRegex(s) {
      var a, d :| PatternAt(s, a, d);
      assert forall k :: 0 <= k < a ==> s[k] == s[..a][k];
      assert FirstAt(s) == a;
      var domain := s[a + 1..];
      assert domain == s[a + 1..d] + [s[d]] + s[d + 1..];
      assert domain[d - a - 1] == '.';
      assert HasInnerDot(domain);
    }
  }

  /** A valid address has no whitespace and exactly one `@`. */
  lemma ValidEmailHasOneAt(s: string)
    requires IsValidEmail(s)
    ensures forall i :: 0 <= i < |s| ==> !IsWhitespace(s[i])
    ensures multiset(s)['@'] == 1
  {
    var a := FirstAt(s);
    assert s == s[..a] + [s[a]] + s[a + 1..];
    forall i | 0 <= i < |s|
      ensures !IsWhitespace(s[i])
    {
      if i < a {
        assert s[i] == s[..a][i];
      } else if i > a {
        assert s[i] == s[a + 1..][i - a - 1];
      }
    }
    assert '@' !in s[..a];
    var domain := s[a + 1..];
    assert '@' !in domain by {
      forall i | 0 <= i < |domain|
        ensures domain[i] != '@'
      {
        assert EmailChar(domain[i]);
      }
    }
    calc {
      multiset(s)['@'];
      multiset(s[..a])['@'] + multiset([s[a]])['@'] + multiset(s[a + 1..])['@'];
      0 + 1 + 0;
    }
  }

  /**
   * The structural reading of the pattern: `local + "@" + domain` is valid
   * exactly when `local` is non-empty, `domain` has an inner dot, and
   * neither part contains whitespace or `@`.
   */
  lemma ValidEmailSplit(local: string, domain: string)
    ensures IsValidEmail(local + "@" + domain) <==>
              && |local| > 0
              && AllEmailChars(local) && AllEmailChars(domain)
              && HasInnerDot(domain)
  {
    var s := local + "@" + domain;
    var a := FirstAt(s);
    var n := |local|;
    assert s[n] == '@';
    assert a <= n;
    if AllEmailChars(local) || IsValidEmail(s) {
      assert a == n;
      assert s[..a] == local;
      assert s[a + 1..] == domain;
    }
  }

  /* ---------------------------------------------------------------------- */
  /* validateForm                                                           */
  /* ---------------------------------------------------------------------- */

  /** Shortest accepted name, in UTF-16 code units after trimming. */
  const MinNameLength: nat := 2
  /** Shortest accepted message, in UTF-16 code units after trimming. */
  const MinMessageLength: nat := 10

  /** The outcome of `validateForm`: accepted, or the check whose alert is shown. */
  datatype Verdict = Accepted | NameTooShort | BadEmail | MessageTooShort

  predicate NameOk(name: string) {
    Utf16Length(Trim(name)) >= MinNameLength
  }

  predicate EmailOk(email: string) {
    IsValidEmail(Trim(email))
  }

  predicate MessageOk(message: string) {
    Utf16Length(Trim(message)) >= MinMessageLength
  }

  /** The checks of `validateForm`, in the source's order: name, e-mail, message. */
  function CheckForm(name: string, email: string, message: string): (v: Verdict)
    ensures v == Accepted <==> NameOk(name) && EmailOk(email) && MessageOk(message)
  {
    if !NameOk(name) then NameTooShort
    else if !EmailOk(email) then BadEmail
    else if !MessageOk(message) then MessageTooShort
    else Accepted
  }

  /** `validateForm()`'s boolean result. */
  function ValidateForm(name: string, email: string, message: string): (ok: bool)
    ensures ok ==> Utf16Length(Trim(name)) >= 2 && Utf16Length(Trim(message)) >= 10
    ensures ok ==> MatchesEmailRegex(Trim(email))
  {
    var v := CheckForm(name, email, message);
    if v == Accepted then IsValidEmailMatchesRegex(Trim(email)); true else false
  }

  /**
   * The first failing check decides the verdict: a short name is reported
   * whatever the other fields hold, an invalid address only once the name
   * passes, a short message only once both pass.
   */
  lemma FirstFailingCheckReported(name: string, email: string, message: string)
    ensures CheckForm(name, email, message) == NameTooShort <==> Utf16Length(Trim(name)) < 2
    ensures CheckForm(name, email, message) == BadEmail <==>
              Utf16Length(Trim(name)) >= 2 && !IsValidEmail(Trim(email))
    ensures CheckForm(name, email, message) == MessageTooShort <==>
              Utf16Length(Trim(name)) >= 2 && IsValidEmail(Trim(email)) && Utf16Length(Trim(message)) < 10
    ensures ValidateForm(name, email, message) <==> CheckForm(name, email, message) == Accepted
  {
  }

  /**
   * A name of one character above U+FFFF passes the two-character check:
   * `.length` counts its two UTF-16 code units.
   */
  lemma AstralNamePasses()
    ensures NameOk("\U{1F600}")
    ensures |Trim("\U{1F600}")| == 1
  {
    var name := "\U{1F600}";
    assert Trim(name) == name;
    Utf16LengthChar('\U{1F600}');
  }

  /** `validateForm` passes exactly when the trimmed fields pass all three checks. */
  lemma ValidateFormIffAllChecks(name: string, email: string, message: string)
    ensures ValidateForm(name, email, message) <==>
              && Utf16Length(Trim(name)) >= 2
              && MatchesEmailRegex(Trim(email))
              && Utf16Length(Trim(message)) >= 10
  {
    IsValidEmailMatchesRegex(Trim(email));
  }

  /** Leading and trailing whitespace on any field never changes the verdict. */
  lemma CheckFormIgnoresPadding(name: string, email: string, message: string,
                                p1: string, q1: string, p2: string, q2: string, p3: string, q3: string)
    requires AllWhitespace(p1) && AllWhitespace(q1)
    requires AllWhitespace(p2) && AllWhitespace(q2)
    requires AllWhitespace(p3) && AllWhitespace(q3)
    ensures CheckForm(p1 + name + q1, p2 + email + q2, p3 + message + q3) == CheckForm(name, email, message)
  {
    TrimIgnoresPadding(p1, name, q1);
    TrimIgnoresPadding(p2, email, q2);
    TrimIgnoresPadding(p3, message, q3);
  }

  /* ---------------------------------------------------------------------- */
  /* sendEmail payload                                                      */
  /* ---------------------------------------------------------------------- */

  /** Subject used when the form's subject is missing or empty. */
  const DefaultSubject: string := "Portfolio Contact"

  /** One `append(key, value)` entry of the outgoing form data. */
  datatype FormField = FormField(key: string, value: string)

  /**
   * The text `FormData.append` stores for a value read with `formData.get`:
   * the string itself, or "null" when the field is absent.
   */
  function FieldText(v: Option<string>): (r: string)
    ensures v.None? ==> r == "null"
    ensures v.Some? ==> r == v.value
  {
    v.GetOr("null")
  }

  /** `formData.get('subject') || 'Portfolio Contact'`. */
  function SubjectText(subject: Option<string>): (r: string)
    ensures r != []
    ensures subject.None? || subject == Some("") ==> r == DefaultSubject
    ensures subject.Some? && subject.value != "" ==> r == subject.value
  {
    match subject
    case Some(s) => if s == "" then DefaultSubject else s
    case None => DefaultSubject
  }

  /** The form data `sendEmail` posts: name, email, subject, message, in that order. */
  function BuildPayload(name: Option<string>, email: Option<string>, subject: Option<string>,
                        message: Option<string>): (p: seq<FormField>)
    ensures |p| == 4
    ensures p[0].key == "name" && p[1].key == "email" && p[2].key == "subject" && p[3].key == "message"
    ensures p[2].value != []
  {
    [ FormField("name", FieldText(name)),
      FormField("email", FieldText(email)),
      FormField("subject", SubjectText(subject)),
      FormField("message", FieldText(message)) ]
  }

  /** `FormData.get(key)` on the receiving side: the first value stored under `key`. */
  function Lookup(fields: seq<FormField>, key: string): (r: Option<string>)
    ensures r.None? <==> forall i :: 0 <= i < |fields| ==> fields[i].key != key
    ensures r.Some? ==> exists i :: && 0 <= i < |fields| && fields[i] == FormField(key, r.value)
                                   && forall k :: 0 <= k < i ==> fields[k].key != key
  {
    if |fields| == 0 then None
    else if fields[0].key == key then Some(fields[0].value)
    else
      var r := Lookup(fields[1..], key);
      assert forall i :: 1 <= i < |fields| ==> fields[i] == fields[1..][i - 1];
      r
  }

  /**
   * Reading the payload back yields the submitted name, e-mail and message
   * unchanged (the text "null" for a missing one), and the subject,
   * defaulted when it was missing or empty.
   */
  lemma PayloadReadBack(name: Option<string>, email: Option<string>, subject: Option<string>,
                        message: Option<string>)
    ensures var p := BuildPayload(name, email, subject, message);
            && Lookup(p, "name") == Some(if name.None? then "null" else name.value)
            && Lookup(p, "email") == Some(if email.None? then "null" else email.value)
            && Lookup(p, "message") == Some(if message.None? then "null" else message.value)
            && Lookup(p, "subject") == Some(if subject.None? || subject == Some("") then "Portfolio Contact"
                                             else subject.value)
  {
  }
}
