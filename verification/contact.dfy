/**
 * The contact form's submit handler: trim the three fields, write one error
 * string per field, and only when all are empty hand off to a `mailto:` link
 * and reset the form. Percent-encoding is a parameter (`encodeURIComponent`).
 */
module Contact {
  import opened Wrappers
  import opened Text
  import Email

  const NameError: string := "Please enter your full name."
  const EmailError: string := "Enter a valid email."
  const MessageError: string := "Message should be at least 10 characters."

  const Recipient: string := "editkaroofficial@gmail.com"
  const SubjectPrefix: string := "mailto:" + Recipient + "?subject=New%20Project%20Inquiry%20from%20"

  /** The three controls' values; a control that is missing reads as the empty string. */
  datatype Fields = Fields(name: Option<string>, email: Option<string>, message: Option<string>)

  /** The per-field error strings; the empty string means the field is valid. */
  datatype Errors = Errors(name: string, email: string, message: string)

  /**
   * The form: current values, the values `reset()` restores, and the text of
   * each `.error[data-for=…]` element present, keyed by field name.
   */
  datatype Form = Form(fields: Fields, defaults: Fields, errorSlots: map<string, string>)

  /** What a submit does: the form afterwards, the errors, and the `mailto:` URL navigated to, if any. */
  datatype Submission = Submission(form: Form, errors: Errors, navigation: Option<string>)

  /** `(field?.value || '').trim()`. */
  function Read(field: Option<string>): (r: string)
    ensures field.None? ==> r == ""
    ensures exists a: nat :: CutAt(field.GetOr(""), a, r)
    ensures |r| > 0 ==> !IsWhitespace(r[0]) && !IsWhitespace(r[|r| - 1])
  {
    Trim(field.GetOr(""))
  }

  predicate NameValid(name: string)
  {
    Utf16Length(name) >= 2
  }

  predicate MessageValid(message: string)
  {
    Utf16Length(message) >= 10
  }

  /** The `errors` object: each entry empty exactly when its field is valid. */
  function Validate(name: string, email: string, message: string): (e: Errors)
    ensures e.name == "" <==> NameValid(name)
    ensures e.email == "" <==> Email.RegexMatch(email)
    ensures e.message == "" <==> MessageValid(message)
    ensures e.name in {"", NameError} && e.email in {"", EmailError} && e.message in {"", MessageError}
  {
    Errors(if NameValid(name) then "" else NameError,
           if Email.RegexMatch(email) then "" else EmailError,
           if MessageValid(message) then "" else MessageError)
  }

  predicate NoError(e: Errors)
  {
    e.name == "" && e.email == "" && e.message == ""
  }

  /** Writes each error string into its display element, when that element exists. */
  function ShowErrors(slots: map<string, string>, e: Errors): (r: map<string, string>)
    ensures r.Keys == slots.Keys
    ensures "name" in slots ==> r["name"] == e.name
    ensures "email" in slots ==> r["email"] == e.email
    ensures "message" in slots ==> r["message"] == e.message
    ensures forall k :: k in slots && k !in {"name", "email", "message"} ==> r[k] == slots[k]
  {
    var r1 := if "name" in slots then slots["name" := e.name] else slots;
    var r2 := if "email" in r1 then r1["email" := e.email] else r1;
    if "message" in r2 then r2["message" := e.message] else r2
  }

  /** The `mailto:` URL: subject carries the name, body the message and then the contact address. */
  function Mailto(name: string, email: string, message: string, encode: string -> string): (url: string)
    ensures |url| >= |SubjectPrefix| && url[..|SubjectPrefix|] == SubjectPrefix
    ensures |url| >= |SubjectPrefix| + |encode(name)|
    ensures url[|SubjectPrefix|..|SubjectPrefix| + |encode(name)|] == encode(name)
  {
    SubjectPrefix + encode(name) + "&body=" + encode(message) + "%0A%0AContact:%20" + encode(email)
  }

  /** The submit handler. */
  function Submit(f: Form, encode: string -> string): (r: Submission)
    ensures var name, email, message := Read(f.fields.name), Read(f.fields.email), Read(f.fields.message);
      && (r.errors.name == "" <==> NameValid(name))
      && (r.errors.email == "" <==> Email.RegexMatch(email))
      && (r.errors.message == "" <==> MessageValid(message))
      && (r.navigation.Some? <==> NameValid(name) && Email.RegexMatch(email) && MessageValid(message))
      && (r.navigation.Some? ==> r.navigation.value == Mailto(name, email, message, encode))
      && r.errors == Validate(name, email, message)
    ensures r.navigation.Some? <==> NoError(r.errors)
    ensures r.navigation.Some? ==> r.form.fields == f.defaults
    ensures r.navigation.None? ==> r.form.fields == f.fields
    ensures r.form.defaults == f.defaults
    ensures r.form.errorSlots == ShowErrors(f.errorSlots, r.errors)
  {
    var name, email, message := Read(f.fields.name), Read(f.fields.email), Read(f.fields.message);
    var errors := Validate(name, email, message);
    var slots := ShowErrors(f.errorSlots, errors);
    if NoError(errors) then
      Submission(Form(f.defaults, f.defaults, slots), errors, Some(Mailto(name, email, message, encode)))
    else
      Submission(Form(f.fields, f.defaults, slots), errors, None)
  }

  /** A rejected submission leaves the values alone, so submitting again gives the same verdict. */
  lemma RejectedResubmitSame(f: Form, encode: string -> string)
    requires Submit(f, encode).navigation.None?
    ensures Submit(Submit(f, encode).form, encode) == Submit(f, encode)
  {
    var r := Submit(f, encode);
    assert r.form.fields == f.fields;
    ShowErrorsTwice(f.errorSlots, r.errors);
  }

  /** Showing the same errors again changes nothing. */
  lemma ShowErrorsTwice(slots: map<string, string>, e: Errors)
    ensures ShowErrors(ShowErrors(slots, e), e) == ShowErrors(slots, e)
  {
  }

  /** Surrounding whitespace in the name field never changes the verdict. */
  lemma PaddingIrrelevant(f: Form, encode: string -> string, name: string)
    requires f.fields.name == Some(name)
    ensures var g := f.(fields := f.fields.(name := Some(Trim(name))));
      Submit(g, encode).errors == Submit(f, encode).errors &&
      Submit(g, encode).navigation == Submit(f, encode).navigation
  {
    TrimIdempotent(name);
  }

  predicate NoAmpersand(s: string)
  {
    forall i :: 0 <= i < |s| ==> s[i] != '&'
  }

  /** The text up to the first `&`. */
  function UpToAmpersand(s: string): (r: string)
    ensures |r| <= |s| && r == s[..|r|]
    ensures NoAmpersand(r)
    ensures |r| < |s| ==> s[|r|] == '&'
  {
    if |s| == 0 || s[0] == '&' then [] else [s[0]] + UpToAmpersand(s[1..])
  }

  /** The `subject` a mail client reads back from a `mailto:` URL of this shape. */
  function SubjectOf(url: string): string
  {
    if |url| >= |SubjectPrefix| && url[..|SubjectPrefix|] == SubjectPrefix
    then UpToAmpersand(url[|SubjectPrefix|..])
    else ""
  }

  /** Reading the subject back yields the encoded name, as the encoder never emits `&`. */
  lemma SubjectRoundTrip(name: string, email: string, message: string, encode: string -> string)
    requires NoAmpersand(encode(name))
    ensures SubjectOf(Mailto(name, email, message, encode)) == encode(name)
  {
    var body := "body=" + encode(message) + "%0A%0AContact:%20" + encode(email);
    assert Mailto(name, email, message, encode) == SubjectPrefix + (encode(name) + "&" + body);
    SubjectAfterPrefix(encode(name), body);
  }

  /**
   * Reads the `body` parameter back: skips the subject up to its `&`, expects
   * `body=` there, and takes the text up to the next `&`.
   */
  function BodyOf(url: string): string
  {
    if |url| >= |SubjectPrefix| && url[..|SubjectPrefix|] == SubjectPrefix then
      var rest := url[|SubjectPrefix|..];
      var after := rest[|UpToAmpersand(rest)|..];
      if |after| >= 6 && after[..6] == "&body=" then UpToAmpersand(after[6..]) else ""
    else ""
  }

  /** The body holds the encoded message, a blank line and the encoded contact address. */
  lemma BodyRoundTrip(name: string, email: string, message: string, encode: string -> string)
    requires NoAmpersand(encode(name)) && NoAmpersand(encode(message)) && NoAmpersand(encode(email))
    ensures BodyOf(Mailto(name, email, message, encode)) == encode(message) + "%0A%0AContact:%20" + encode(email)
  {
    var text := encode(message) + "%0A%0AContact:%20" + encode(email);
    assert Mailto(name, email, message, encode) == SubjectPrefix + (encode(name) + "&" + ("body=" + text));
    assert NoAmpersand("%0A%0AContact:%20");
    NoAmpersandConcat(encode(message), "%0A%0AContact:%20");
    NoAmpersandConcat(encode(message) + "%0A%0AContact:%20", encode(email));
    BodyAfterPrefix(encode(name), text);
  }

  lemma BodyAfterPrefix(subject: string, text: string)
    requires NoAmpersand(subject) && NoAmpersand(text)
    ensures BodyOf(SubjectPrefix + (subject + "&" + ("body=" + text))) == text
  {
    var url := SubjectPrefix + (subject + "&" + ("body=" + text));
    assert url[..|SubjectPrefix|] == SubjectPrefix;
    var rest := url[|SubjectPrefix|..];
    assert rest == subject + "&" + ("body=" + text);
    UpToAmpersandStops(subject, "body=" + text);
    var after := rest[|subject|..];
    assert after == "&body=" + text;
    assert after[..6] == "&body=";
    assert after[6..] == text;
    UpToNoAmpersand(text);
  }

  lemma NoAmpersandConcat(a: string, b: string)
    requires NoAmpersand(a) && NoAmpersand(b)
    ensures NoAmpersand(a + b)
  {
  }

  lemma UpToNoAmpersand(s: string)
    requires NoAmpersand(s)
    ensures UpToAmpersand(s) == s
  {
  }

  lemma SubjectAfterPrefix(subject: string, body: string)
    requires NoAmpersand(subject)
    ensures SubjectOf(SubjectPrefix + (subject + "&" + body)) == subject
  {
    var url := SubjectPrefix + (subject + "&" + body);
    assert url[..|SubjectPrefix|] == SubjectPrefix;
    assert url[|SubjectPrefix|..] == subject + "&" + body;
    UpToAmpersandStops(subject, body);
  }

  lemma {:induction false} UpToAmpersandStops(a: string, b: string)
    requires NoAmpersand(a)
    ensures UpToAmpersand(a + "&" + b) == a
    decreases |a|
  {
    if |a| > 0 {
      assert (a + "&" + b)[1..] == a[1..] + "&" + b;
      UpToAmpersandStops(a[1..], b);
    }
  }

  /** A value without surrounding whitespace reads back unchanged. */
  lemma ReadUntrimmed(v: string)
    requires |v| > 0 ==> !IsWhitespace(v[0]) && !IsWhitespace(v[|v| - 1])
    ensures Read(Some(v)) == v
  {
    TrimOfTrimmed(v);
  }

  /** A one-letter name, an address without `@` and a short message: three errors and no navigation. */
  lemma RejectsShortInput(encode: string -> string, defaults: Fields)
    ensures var r := Submit(Form(Fields(Some("A"), Some("bad"), Some("short")), defaults, map[]), encode);
      r.errors == Errors(NameError, EmailError, MessageError) && r.navigation.None?
  {
    ShortInputReads();
    ShortInputErrors();
  }

  lemma ShortInputReads()
    ensures Read(Some("A")) == "A" && Read(Some("bad")) == "bad" && Read(Some("short")) == "short"
  {
    ReadsA();
    ReadsBad();
    ReadsShort();
  }

  // One lemma per literal: trimming several string literals in one proof
  // context makes the solver unfold them all at once and run out of resource.
  lemma ReadsA() ensures Read(Some("A")) == "A" { ReadUntrimmed("A"); }
  lemma ReadsBad() ensures Read(Some("bad")) == "bad" { ReadUntrimmed("bad"); }
  lemma ReadsShort() ensures Read(Some("short")) == "short" { ReadUntrimmed("short"); }

  lemma ShortInputErrors()
    ensures Validate("A", "bad", "short") == Errors(NameError, EmailError, MessageError)
  {
    assert Utf16Length("A") == 1;
    assert Utf16Length("short") == 5;
    assert !Email.RegexMatch("bad") by {
      assert forall at | 0 <= at < |"bad"| :: "bad"[at] != '@';
    }
  }

  /** Well-formed input: no errors, a `mailto:` navigation carrying the encoded name and message, and a reset. */
  lemma AcceptsGoodInput(encode: string -> string, defaults: Fields)
    ensures var r := Submit(Form(Fields(Some("Jane Doe"), Some("jane@x.com"), Some("Hello, this is long enough.")), defaults, map[]), encode);
      r.errors == Errors("", "", "") &&
      r.navigation == Some(Mailto("Jane Doe", "jane@x.com", "Hello, this is long enough.", encode)) &&
      r.form.fields == defaults
  {
    GoodInputReads();
    GoodInputErrors();
  }

  lemma GoodInputReads()
    ensures Read(Some("Jane Doe")) == "Jane Doe"
    ensures Read(Some("jane@x.com")) == "jane@x.com"
    ensures Read(Some("Hello, this is long enough.")) == "Hello, this is long enough."
  {
    ReadsJane();
    ReadsJaneEmail();
    ReadsHello();
  }

  lemma ReadsJane() ensures Read(Some("Jane Doe")) == "Jane Doe" { ReadUntrimmed("Jane Doe"); }
  lemma ReadsJaneEmail() ensures Read(Some("jane@x.com")) == "jane@x.com" { ReadUntrimmed("jane@x.com"); }
  lemma ReadsHello()
    ensures Read(Some("Hello, this is long enough.")) == "Hello, this is long enough."
  {
    ReadUntrimmed("Hello, this is long enough.");
  }

  lemma GoodInputErrors()
    ensures Validate("Jane Doe", "jane@x.com", "Hello, this is long enough.") == Errors("", "", "")
  {
    assert Email.MatchesAt("jane@x.com", 4, 6);
  }
}
