/**
 * The contact form's submit handler (src/App.jsx:572-649): validation, then the delivery
 * chain EmailJS, hidden `mailto:` anchor, clipboard, final error. The collaborators
 * (`emailjs.send`, `a.click()`, `navigator.clipboard.writeText`) are replaced by their
 * outcomes, given as an `Environment`.
 */
module Submission {
  import opened Wrappers
  import opened Message
  import opened EmailValidation
  import opened Toasts

  /** The three `VITE_EMAILJS_*` values; None when the variable is not defined. */
  datatype EmailJsConfig = EmailJsConfig(serviceId: Option<string>, templateId: Option<string>, publicKey: Option<string>)

  /** JavaScript truthiness of an environment value: defined and not empty. */
  predicate IsSet(v: Option<string>) {
    v.Some? && v.value != ""
  }

  predicate IsConfigured(c: EmailJsConfig) {
    IsSet(c.serviceId) && IsSet(c.templateId) && IsSet(c.publicKey)
  }

  /** The EmailJS template parameters. */
  datatype TemplateParams = TemplateParams(fromName: string, fromEmail: string, message: string, subject: string)

  function ParamsOf(f: Form): TemplateParams {
    TemplateParams(f.name, f.email, f.message, Subject(f))
  }

  /** One call into a collaborator, with what was handed to it. */
  datatype Delivery =
    | SendEmailJs(params: TemplateParams)
    | ClickMailto(href: string)
    | WriteClipboard(text: string)

  /** How each collaborator behaves on this submission. */
  datatype Environment = Environment(
    emailJsSends: bool,         // emailjs.send resolves
    anchorClicks: bool,         // creating, appending and clicking the anchor throws nothing
    clipboardPresent: bool,     // navigator.clipboard.writeText exists
    clipboardWrites: bool)      // writeText resolves

  predicate Succeeds(d: Delivery, env: Environment) {
    match d
    case SendEmailJs(_) => env.emailJsSends
    case ClickMailto(_) => env.anchorClicks
    case WriteClipboard(_) => env.clipboardWrites
  }

  /** Position of a delivery path in the fallback order. */
  function Rank(d: Delivery): nat {
    match d
    case SendEmailJs(_) => 0
    case ClickMailto(_) => 1
    case WriteClipboard(_) => 2
  }

  /** Each path at most once, in the fallback order. */
  predicate InFallbackOrder(ds: seq<Delivery>) {
    forall i, j :: 0 <= i < j < |ds| ==> Rank(ds[i]) < Rank(ds[j])
  }

  /** The payload each path is handed for form `f`. */
  predicate CarriesForm(d: Delivery, f: Form) {
    match d
    case SendEmailJs(p) => p == ParamsOf(f)
    case ClickMailto(href) => href == MailtoLink(f)
    case WriteClipboard(text) => text == ClipboardText(f)
  }

  predicate Tried(ds: seq<Delivery>, rank: nat) {
    exists k :: 0 <= k < |ds| && Rank(ds[k]) == rank
  }

  const FillAllMessage: string := "Please fill all required fields."
  const InvalidEmailMessage: string := "Please enter a valid email address."
  const EmailJsSentMessage: string := "Message sent successfully via EmailJS. Thank you!"
  const MailClientMessage: string := "Email client opened. You may need to press Send."
  const CopiedMessage: string := "Could not open mail client \U{2014} message copied to clipboard. Paste into your email composer."
  const CopyFailedMessage: string := "Unable to open email client or copy to clipboard. Please contact: " + OwnerEmail
  const NoMailClientMessage: string := "Unable to open email client. Please send your message to " + OwnerEmail

  predicate HasEmptyField(f: Form) {
    f.name == "" || f.email == "" || f.message == ""
  }

  /** The form passes both local checks and the delivery chain starts. */
  predicate PassesValidation(f: Form) {
    !HasEmptyField(f) && EmailRegexTest(f.email)
  }

  /** The single toast a submission shows, the collaborator calls it makes and whether it clears the form. */
  datatype Outcome = Outcome(toast: Toast, attempts: seq<Delivery>, clearsForm: bool)

  function Last(ds: seq<Delivery>): Delivery
    requires |ds| > 0
  {
    ds[|ds| - 1]
  }

  /** What one press of "Send Message" does: the two local checks, then the delivery chain. */
  function Submit(f: Form, config: EmailJsConfig, env: Environment): (r: Outcome)
    ensures HasEmptyField(f) ==> r == Outcome(Toast(FillAllMessage, "error"), [], false)
    ensures !HasEmptyField(f) && !EmailRegexTest(f.email) ==>
      r == Outcome(Toast(InvalidEmailMessage, "error"), [], false)
    ensures PassesValidation(f) <==> |r.attempts| > 0
    ensures PassesValidation(f) ==> r == Deliver(f, config, env)
  {
    if HasEmptyField(f) then Outcome(Toast(FillAllMessage, "error"), [], false)
    else if !EmailRegexTest(f.email) then Outcome(Toast(InvalidEmailMessage, "error"), [], false)
    else Deliver(f, config, env)
  }

  /** The delivery chain a valid form goes through (src/App.jsx:586-648). */
  function Deliver(f: Form, config: EmailJsConfig, env: Environment): (r: Outcome)
    // at least one path; the paths run in order, each at most once, each handed the form
    ensures |r.attempts| > 0
    ensures InFallbackOrder(r.attempts)
    ensures forall k :: 0 <= k < |r.attempts| ==> CarriesForm(r.attempts[k], f)
    // which paths are tried
    ensures Tried(r.attempts, 0) <==> IsConfigured(config)
    ensures Tried(r.attempts, 1) <==> !(IsConfigured(config) && env.emailJsSends)
    ensures Tried(r.attempts, 2) <==>
      !(IsConfigured(config) && env.emailJsSends) && !env.anchorClicks && env.clipboardPresent
    // a success stops the chain, and the form is cleared exactly when a path succeeded
    ensures forall k :: 0 <= k < |r.attempts| - 1 ==> !Succeeds(r.attempts[k], env)
    ensures r.clearsForm <==> Succeeds(Last(r.attempts), env)
    // the toast reports how the chain ended
    ensures r.clearsForm && Last(r.attempts).SendEmailJs? ==> r.toast == Toast(EmailJsSentMessage, "success")
    ensures r.clearsForm && Last(r.attempts).ClickMailto? ==> r.toast == Toast(MailClientMessage, "success")
    ensures r.clearsForm && Last(r.attempts).WriteClipboard? ==> r.toast == Toast(CopiedMessage, "warning")
    ensures !r.clearsForm && Last(r.attempts).WriteClipboard? ==> r.toast == Toast(CopyFailedMessage, "error")
    ensures !r.clearsForm && !Last(r.attempts).WriteClipboard? ==> r.toast == Toast(NoMailClientMessage, "error")
  {
    var viaEmailJs := if IsConfigured(config) then [SendEmailJs(ParamsOf(f))] else [];
    if IsConfigured(config) && env.emailJsSends then
      assert Rank(viaEmailJs[0]) == 0;
      Outcome(Toast(EmailJsSentMessage, "success"), viaEmailJs, true)
    else
      var viaAnchor := viaEmailJs + [ClickMailto(MailtoLink(f))];
      assert Rank(viaAnchor[|viaEmailJs|]) == 1;
      assert IsConfigured(config) ==> Rank(viaAnchor[0]) == 0;
      if env.anchorClicks then
        Outcome(Toast(MailClientMessage, "success"), viaAnchor, true)
      else if env.clipboardPresent then
        var viaClipboard := viaAnchor + [WriteClipboard(ClipboardText(f))];
        assert Rank(viaClipboard[|viaAnchor|]) == 2 && Rank(viaClipboard[|viaEmailJs|]) == 1;
        assert IsConfigured(config) ==> Rank(viaClipboard[0]) == 0;
        if env.clipboardWrites then Outcome(Toast(CopiedMessage, "warning"), viaClipboard, true)
        else Outcome(Toast(CopyFailedMessage, "error"), viaClipboard, false)
      else Outcome(Toast(NoMailClientMessage, "error"), viaAnchor, false)
  }

  /**
   * Whatever path a valid submission reaches, what it hands over carries the whole form:
   * the mailto link decodes to the subject and body, and the clipboard text parses back to the form.
   */
  lemma DeliveredContentRecoversForm(f: Form, config: EmailJsConfig, env: Environment, k: nat)
    requires '\n' !in f.name
    requires k < |Submit(f, config, env).attempts|
    ensures match Submit(f, config, env).attempts[k]
      case SendEmailJs(p) => p.fromName == f.name && p.fromEmail == f.email && p.message == f.message
      case ClickMailto(href) =>
        ParseMailto(href) == Some(MailtoUri(OwnerEmail, [("subject", Subject(f)), ("body", BodyText(f))])) &&
        ParseBody(BodyText(f)) == Some(f)
      case WriteClipboard(text) => ParseClipboard(text) == Some(ClipboardNote(OwnerEmail, Subject(f), f))
  {
    AcceptedEmailIsOneLine(f.email);
    MailtoRoundTrip(f);
    BodyRoundTrip(f);
    ClipboardRoundTrip(f);
  }

  /** Which form field an input event names (`e.target.name`). */
  datatype Field = Name | Email | MessageField

  /** The contact section's own state; the toast slot belongs to the page. */
  class ContactSection {
    var form: Form
    const toasts: ToastCenter
    ghost var deliveries: seq<Delivery>

    constructor (toasts: ToastCenter)
      ensures form == EmptyForm && this.toasts == toasts && deliveries == []
    {
      form := EmptyForm;
      this.toasts := toasts;
      deliveries := [];
    }

    /** `handleChange`: one field takes the input's value, the others keep theirs. */
    method HandleChange(field: Field, value: string)
      modifies this`form
      ensures form == match field
        case Name => old(form).(name := value)
        case Email => old(form).(email := value)
        case MessageField => old(form).(message := value)
    {
      match field
      case Name => form := form.(name := value);
      case Email => form := form.(email := value);
      case MessageField => form := form.(message := value);
    }

    /** `handleSubmit`: exactly one toast is shown, the calls of `Submit` are made, and the form is cleared exactly when it says. */
    method HandleSubmit(config: EmailJsConfig, env: Environment)
      modifies this, toasts
      ensures var r := Submit(old(form), config, env);
        && toasts.toast == Some(r.toast)
        && toasts.shown == old(toasts.shown) + [r.toast]
        && deliveries == old(deliveries) + r.attempts
        && form == (if r.clearsForm then EmptyForm else old(form))
    {
      if form.name == "" || form.email == "" || form.message == "" {
        toasts.Show(FillAllMessage, "error");
        return;
      }
      if !EmailRegexTest(form.email) {
        toasts.Show(InvalidEmailMessage, "error");
        return;
      }
      var mailtoLink := MailtoLink(form);
      if IsConfigured(config) {
        deliveries := deliveries + [SendEmailJs(ParamsOf(form))];
        if env.emailJsSends {
          toasts.Show(EmailJsSentMessage, "success");
          form := EmptyForm;
          return;
        }
      }
      deliveries := deliveries + [ClickMailto(mailtoLink)];
      if env.anchorClicks {
        toasts.Show(MailClientMessage, "success");
        form := EmptyForm;
        return;
      }
      var clipboardText := ClipboardText(form);
      if env.clipboardPresent {
        deliveries := deliveries + [WriteClipboard(clipboardText)];
        if env.clipboardWrites {
          toasts.Show(CopiedMessage, "warning");
          form := EmptyForm;
          return;
        } else {
          toasts.Show(CopyFailedMessage, "error");
          return;
        }
      }
      toasts.Show(NoMailClientMessage, "error");
    }
  }
}
