/**
 * The contact form script: required-field, e-mail and length checks on submit, a
 * honeypot field that makes bots see a success message without anything being sent,
 * and a red border on the e-mail input when it loses focus holding a malformed
 * address.
 */
module Contact {
  import opened Wrappers
  import opened JsText

  /** A character the e-mail pattern's `[^\s@]` class accepts. */
  predicate EmailChar(c: char) {
    !IsWhitespace(c) && c != '@'
  }

  predicate AllEmailChars(s: string) {
    forall i :: 0 <= i < |s| ==> EmailChar(s[i])
  }

  /** `s` reads `local@domain.tld` with the `@` at index `at` and the `.` at index `dot`:
      three non-empty runs of `[^\s@]` around them. */
  predicate EmailSplit(s: string, at: int, dot: int) {
    && 0 < at && at + 1 < dot && dot + 1 < |s|
    && s[at] == '@' && s[dot] == '.'
    && AllEmailChars(s[..at]) && AllEmailChars(s[at + 1..dot]) && AllEmailChars(s[dot + 1..])
  }

  /** The language of `/^[^\s@]+@[^\s@]+\.[^\s@]+$/`. */
  ghost predicate EmailPattern(s: string) {
    exists at: int, dot: int :: EmailSplit(s, at, dot)
  }

  /** `emailRegex.test(s)`, decided by locating the only `@` and looking for a dot
      strictly inside the domain. */
  function IsEmail(s: string): (b: bool)
    ensures b <==> EmailPattern(s)
  {
    if '@' !in s then
      assert forall i :: 0 <= i < |s| ==> s[i] != '@';
      false
    else
      var at := IndexOf(s, '@');
      var domain := s[at + 1..];
      var b := at > 0 && AllEmailChars(s[..at]) && AllEmailChars(domain)
               && |domain| >= 3 && '.' in domain[1..|domain| - 1];
      EmailDecision(s, at);
      b
  }

  /** The two directions of `IsEmail`'s contract, once the first `@` is known. */
  lemma EmailDecision(s: string, at: nat)
    requires at < |s| && s[at] == '@' && '@' !in s[..at]
    ensures var domain := s[at + 1..];
            (at > 0 && AllEmailChars(s[..at]) && AllEmailChars(domain)
             && |domain| >= 3 && '.' in domain[1..|domain| - 1]) <==> EmailPattern(s)
  {
    var domain := s[at + 1..];
    if at > 0 && AllEmailChars(s[..at]) && AllEmailChars(domain)
       && |domain| >= 3 && '.' in domain[1..|domain| - 1] {
      var k :| 0 <= k < |domain| - 2 && domain[1..|domain| - 1][k] == '.';
      var dot := at + 2 + k;
      assert s[at + 1..dot] == domain[..k + 1];
      assert s[dot + 1..] == domain[k + 2..];
      assert EmailSplit(s, at, dot);
    }
    if EmailPattern(s) {
      var a: int, dot: int :| EmailSplit(s, a, dot);
      assert forall i :: 0 <= i < at ==> s[i] != '@' by {
        forall i | 0 <= i < at ensures s[i] != '@' {
          assert s[..at][i] == s[i];
        }
      }
      assert forall i :: 0 <= i < a ==> s[i] != '@' by {
        forall i | 0 <= i < a ensures s[i] != '@' {
          assert EmailChar(s[..a][i]);
        }
      }
      assert a == at;
      assert s[at + 1..dot] == domain[..dot - at - 1];
      assert s[dot + 1..] == domain[dot - at..];
      assert AllEmailChars(domain) by {
        forall i | 0 <= i < |domain| ensures EmailChar(domain[i]) {
          if i < dot - at - 1 {
            assert domain[i] == s[at + 1..dot][i];
          } else if i > dot - at - 1 {
            assert domain[i] == s[dot + 1..][i - (dot - at)];
          }
        }
      }
      assert domain[1..|domain| - 1][dot - at - 2] == '.';
    }
  }

  /** The submitted form, `Object.fromEntries(new FormData(form))`: field name to value. */
  type FormData = map<string, string>

  /** `data[key]` is truthy: present and not the empty string. */
  predicate Filled(data: FormData, key: string) {
    key in data && data[key] != ""
  }

  /** The value of a field, the empty string when absent. */
  function Field(data: FormData, key: string): string {
    if key in data then data[key] else ""
  }

  const MissingFields := "Please fill in all required fields."
  const InvalidEmail := "Please enter a valid email address."
  const ShortMessage := "Please write a longer message (at least 10 characters)."
  const HoneypotThanks := "Thank you for your message!"
  const SentThanks := "Thank you for your message! I'll get back to you soon."

  predicate RequiredFilled(data: FormData) {
    Filled(data, "name") && Filled(data, "email") && Filled(data, "subject") && Filled(data, "message")
  }

  /** `validateForm(data)`: `None` when the form passes, otherwise the error text shown. */
  function ValidateForm(data: FormData): (err: Option<string>)
    ensures err == None <==>
              RequiredFilled(data) && EmailPattern(data["email"]) && Utf16Length(data["message"]) >= 10
    ensures err == Some(MissingFields) <==> !RequiredFilled(data)
    ensures err == Some(InvalidEmail) <==> RequiredFilled(data) && !EmailPattern(data["email"])
    ensures err == Some(ShortMessage) <==>
              RequiredFilled(data) && EmailPattern(data["email"]) && Utf16Length(data["message"]) < 10
  {
    if !RequiredFilled(data) then Some(MissingFields)
    else if !IsEmail(data["email"]) then Some(InvalidEmail)
    else if Utf16Length(data["message"]) < 10 then Some(ShortMessage)
    else None
  }

  datatype Kind = Success | Error

  /** What `showFormMessage` puts on screen, whether the form is reset, and whether a
      (simulated) delivery happened. */
  datatype Response = Response(kind: Kind, text: string, reset: bool, delivered: bool)

  /** The submit handler: validation errors are shown and keep the input; a filled
      honeypot `website` field gets a success message and a reset but nothing is
      delivered; otherwise the message is delivered and the form reset. */
  function Submit(data: FormData): (r: Response)
    ensures r.delivered <==> ValidateForm(data) == None && !Filled(data, "website")
    ensures r.kind == Error <==> ValidateForm(data) != None
    ensures r.kind == Error ==> Some(r.text) == ValidateForm(data) && !r.reset
    ensures r.kind == Success ==> r.reset
    ensures r.kind == Success && !r.delivered ==> r.text == HoneypotThanks
    ensures r.delivered ==> r.text == SentThanks
  {
    match ValidateForm(data)
    case Some(msg) => Response(Error, msg, false, false)
    case None =>
      if Filled(data, "website") then Response(Success, HoneypotThanks, true, false)
      else Response(Success, SentThanks, true, true)
  }

  /** A bot that fills the honeypot cannot tell from the message kind that it was
      caught, and the text it sees is the start of the genuine one. */
  lemma HoneypotLooksLikeSuccess(data: FormData)
    requires ValidateForm(data) == None && Filled(data, "website")
    ensures Submit(data).kind == Success && !Submit(data).delivered
    ensures Submit(data).text <= SentThanks
  {
  }

  /** `showFormMessage` hides success messages after five seconds and leaves errors up. */
  function AutoHideDelay(kind: Kind): (ms: Option<nat>)
    ensures ms.Some? <==> kind == Success
  {
    if kind == Success then Some(5000) else None
  }

  /** The border colour the blur handler gives the e-mail input. */
  function BlurBorder(email: string): (color: string)
    ensures color == "#ef4444" <==> email != "" && !EmailPattern(email)
    ensures color != "#ef4444" ==> color == ""
  {
    if email != "" && !IsEmail(email) then "#ef4444" else ""
  }

  /** On a form with every required field filled, the blur check flags the e-mail
      input exactly when submitting reports an invalid address. */
  lemma BlurAgreesWithSubmit(data: FormData)
    requires RequiredFilled(data)
    ensures BlurBorder(data["email"]) != "" <==> ValidateForm(data) == Some(InvalidEmail)
  {
  }
}
