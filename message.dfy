/**
 * What the contact form sends (src/App.jsx:586-589, 606, 635): the subject, the body text,
 * the `mailto:` link and the clipboard text, with parsers that recover the form from them.
 */
module Message {
  import opened Wrappers
  import opened Strings
  import opened UriComponent

  /** The site owner's address (`personalData.email`). */
  const OwnerEmail: string := "vigneshwarbanu@gmail.com"

  const SubjectPrefix: string := "Portfolio Contact from "

  /** The contact form's three controlled fields. */
  datatype Form = Form(name: string, email: string, message: string)

  const EmptyForm: Form := Form("", "", "")

  function Subject(f: Form): string {
    SubjectPrefix + f.name
  }

  /** `Name: …\nEmail: …\n\nMessage:\n…` */
  function BodyText(f: Form): string {
    "Name: " + f.name + "\nEmail: " + f.email + "\n\nMessage:\n" + f.message
  }

  /** `mailto:<owner>?subject=<enc(subject)>&body=<enc(body)>` */
  function MailtoLink(f: Form): string {
    "mailto:" + OwnerEmail + "?subject=" + EncodeUriComponent(Subject(f)) + "&body=" + EncodeUriComponent(BodyText(f))
  }

  /** The text the clipboard fallback copies. */
  function ClipboardText(f: Form): string {
    OwnerEmail + "\n\nSubject: " + Subject(f) + "\n\n" + BodyText(f)
  }

  // ----- body text -----

  /** Reads the three fields back out of a body text; None if the text does not have that layout. */
  function ParseBody(t: string): Option<Form> {
    match DropPrefix("Name: ", t)
    case None => None
    case Some(r1) =>
      match TakeLine(r1)
      case None => None
      case Some((name, r2)) =>
        match DropPrefix("Email: ", r2)
        case None => None
        case Some(r3) =>
          match TakeLine(r3)
          case None => None
          case Some((email, r4)) =>
            match DropPrefix("\nMessage:\n", r4)
            case None => None
            case Some(message) => Some(Form(name, email, message))
  }

  /** Proof step: the text regrouped the way its parser reads it. */
  lemma BodyShape(f: Form)
    ensures BodyText(f) == "Name: " + (f.name + "\n" + ("Email: " + (f.email + "\n" + ("\nMessage:\n" + f.message))))
  {
  }

  /**
   * The body lists Name, Email and Message in that order and loses nothing: parsing it gives
   * the form back whenever the one-line fields hold no line break.
   */
  lemma BodyRoundTrip(f: Form)
    requires '\n' !in f.name && '\n' !in f.email
    ensures ParseBody(BodyText(f)) == Some(f)
  {
    var r4 := "\nMessage:\n" + f.message;
    var r3 := f.email + "\n" + r4;
    var r2 := "Email: " + r3;
    var r1 := f.name + "\n" + r2;
    BodyShape(f);
    assert DropPrefix("Name: ", BodyText(f)) == Some(r1) by { DropPrefixOf("Name: ", r1); }
    assert TakeLine(r1) == Some((f.name, r2)) by { TakeLineOf(f.name, r2); }
    assert DropPrefix("Email: ", r2) == Some(r3) by { DropPrefixOf("Email: ", r3); }
    assert TakeLine(r3) == Some((f.email, r4)) by { TakeLineOf(f.email, r4); }
    assert DropPrefix("\nMessage:\n", r4) == Some(f.message) by { DropPrefixOf("\nMessage:\n", f.message); }
  }

  // ----- clipboard text -----

  datatype ClipboardNote = ClipboardNote(to: string, subject: string, form: Form)

  function ParseClipboard(t: string): Option<ClipboardNote> {
    match TakeLine(t)
    case None => None
    case Some((to, r1)) =>
      match DropPrefix("\nSubject: ", r1)
      case None => None
      case Some(r2) =>
        match TakeLine(r2)
        case None => None
        case Some((subject, r3)) =>
          match DropPrefix("\n", r3)
          case None => None
          case Some(body) =>
            match ParseBody(body)
            case None => None
            case Some(f) => Some(ClipboardNote(to, subject, f))
  }

  /** Proof step: the text regrouped the way its parser reads it. */
  lemma ClipboardShape(f: Form)
    ensures ClipboardText(f) == OwnerEmail + "\n" + ("\nSubject: " + (Subject(f) + "\n" + ("\n" + BodyText(f))))
  {
  }

  lemma SubjectIsOneLine(f: Form)
    requires '\n' !in f.name
    ensures '\n' !in Subject(f)
  {
    forall k | 0 <= k < |Subject(f)| ensures Subject(f)[k] != '\n' {
      if k >= |SubjectPrefix| { assert Subject(f)[k] == f.name[k - |SubjectPrefix|]; }
    }
  }

  /** The clipboard text carries the owner's address, the subject line and the whole body. */
  lemma ClipboardRoundTrip(f: Form)
    requires '\n' !in f.name && '\n' !in f.email
    ensures ParseClipboard(ClipboardText(f)) == Some(ClipboardNote(OwnerEmail, Subject(f), f))
  {
    var r3 := "\n" + BodyText(f);
    var r2 := Subject(f) + "\n" + r3;
    var r1 := "\nSubject: " + r2;
    ClipboardShape(f);
    SubjectIsOneLine(f);
    assert '\n' !in OwnerEmail;
    assert TakeLine(ClipboardText(f)) == Some((OwnerEmail, r1)) by { TakeLineOf(OwnerEmail, r1); }
    assert DropPrefix("\nSubject: ", r1) == Some(r2) by { DropPrefixOf("\nSubject: ", r2); }
    assert TakeLine(r2) == Some((Subject(f), r3)) by { TakeLineOf(Subject(f), r3); }
    assert DropPrefix("\n", r3) == Some(BodyText(f)) by { DropPrefixOf("\n", BodyText(f)); }
    assert ParseBody(BodyText(f)) == Some(f) by { BodyRoundTrip(f); }
  }

  // ----- mailto link (RFC 6068 section 2) -----

  /** A parsed `mailto:` URI: the decoded `to` and the decoded header fields in order. */
  datatype MailtoUri = MailtoUri(to: string, headers: seq<(string, string)>)

  /** `hfname "=" hfvalue`, both percent-decoded. */
  function ParseHeader(field: string): Option<(string, string)> {
    var e := IndexOf(field, '=');
    if e == |field| then None
    else
      match (DecodeUriComponent(field[..e]), DecodeUriComponent(field[e + 1..]))
      case (Some(name), Some(value)) => Some((name, value))
      case _ => None
  }

  function ParseHeaders(fields: seq<string>): Option<seq<(string, string)>> {
    if |fields| == 0 then Some([])
    else
      match ParseHeader(fields[0])
      case None => None
      case Some(h) =>
        match ParseHeaders(fields[1..])
        case None => None
        case Some(hs) => Some([h] + hs)
  }

  /** `"mailto:" [ to ] [ "?" hfield *( "&" hfield ) ]` */
  function ParseMailto(u: string): Option<MailtoUri> {
    match DropPrefix("mailto:", u)
    case None => None
    case Some(rest) =>
      var q := IndexOf(rest, '?');
      match DecodeUriComponent(rest[..q])
      case None => None
      case Some(to) =>
        if q == |rest| then Some(MailtoUri(to, []))
        else
          match ParseHeaders(Split(rest[q + 1..], '&'))
          case None => None
          case Some(hs) => Some(MailtoUri(to, hs))
  }

  /** `hfname "=" hfvalue` with the value percent-encoded. */
  function HeaderField(name: string, value: string): string {
    name + "=" + EncodeUriComponent(value)
  }

  lemma ParseHeaderOf(name: string, value: string)
    requires '=' !in name && '%' !in name
    ensures ParseHeader(HeaderField(name, value)) == Some((name, value))
  {
    var e := EncodeUriComponent(value);
    var field := name + "=" + e;
    IndexOfAfter(name, '=', e);
    assert field[..|name|] == name;
    assert field[|name| + 1..] == e;
    DecodeLiteral(name);
    EncodeRoundTrip(value);
  }

  lemma HeaderHasNoAmpersand(name: string, value: string)
    requires '&' !in name
    ensures '&' !in HeaderField(name, value)
  {
    var e := EncodeUriComponent(value);
    var h := name + "=" + e;
    forall k | 0 <= k < |h| ensures h[k] != '&' {
      if k > |name| { assert h[k] == e[k - |name| - 1]; }
    }
  }

  lemma SplitTwo(h1: string, h2: string)
    requires '&' !in h1 && '&' !in h2
    ensures Split(h1 + "&" + h2, '&') == [h1, h2]
  {
    SplitJoin(h1, h2, '&');
    SplitNone(h2, '&');
  }

  lemma ParseTwo(h1: string, h2: string, p1: (string, string), p2: (string, string))
    requires ParseHeader(h1) == Some(p1) && ParseHeader(h2) == Some(p2)
    ensures ParseHeaders([h1, h2]) == Some([p1, p2])
  {
    assert ParseHeaders([h2]) == Some([p2]) by {
      assert [h2][0] == h2 && [h2][1..] == [];
      assert ParseHeaders([]) == Some([]);
      assert [p2] + [] == [p2];
    }
    assert [h1, h2][0] == h1 && [h1, h2][1..] == [h2];
    assert [p1] + [p2] == [p1, p2];
  }

  lemma TwoFields(n1: string, v1: string, n2: string, v2: string)
    requires '=' !in n1 && '%' !in n1 && '&' !in n1
    requires '=' !in n2 && '%' !in n2 && '&' !in n2
    ensures ParseHeaders(Split(HeaderField(n1, v1) + "&" + HeaderField(n2, v2), '&')) == Some([(n1, v1), (n2, v2)])
  {
    var h1, h2 := HeaderField(n1, v1), HeaderField(n2, v2);
    HeaderHasNoAmpersand(n1, v1);
    HeaderHasNoAmpersand(n2, v2);
    SplitTwo(h1, h2);
    ParseHeaderOf(n1, v1);
    ParseHeaderOf(n2, v2);
    ParseTwo(h1, h2, (n1, v1), (n2, v2));
  }

  /** The query of the link is the two header fields joined by "&". */
  lemma QueryRoundTrip(subject: string, body: string)
    ensures ParseHeaders(Split(HeaderField("subject", subject) + "&" + HeaderField("body", body), '&'))
            == Some([("subject", subject), ("body", body)])
  {
    TwoFields("subject", subject, "body", body);
  }

  /** Proof step: the text regrouped the way its parser reads it. */
  lemma MailtoLinkShape(f: Form)
    ensures MailtoLink(f) ==
            "mailto:" + (OwnerEmail + "?" + (HeaderField("subject", Subject(f)) + "&" + HeaderField("body", BodyText(f))))
  {
  }

  /**
   * The link addresses the owner and carries exactly two header fields, `subject` then `body`,
   * whose decoded values are the subject line and the body text.
   */
  lemma MailtoRoundTrip(f: Form)
    ensures ParseMailto(MailtoLink(f)) ==
            Some(MailtoUri(OwnerEmail, [("subject", Subject(f)), ("body", BodyText(f))]))
  {
    var query := HeaderField("subject", Subject(f)) + "&" + HeaderField("body", BodyText(f));
    var rest := OwnerEmail + "?" + query;
    MailtoLinkShape(f);
    DropPrefixOf("mailto:", rest);
    assert '?' !in OwnerEmail && '%' !in OwnerEmail;
    IndexOfAfter(OwnerEmail, '?', query);
    assert rest[..|OwnerEmail|] == OwnerEmail;
    assert rest[|OwnerEmail| + 1..] == query;
    DecodeLiteral(OwnerEmail);
    QueryRoundTrip(Subject(f), BodyText(f));
  }
}
