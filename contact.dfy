/**
 * app/api/contact/route.ts: the guard chain of `POST` (configuration, required
 * fields, email format) and the subject and HTML of the enquiry mail. Reading
 * the environment, parsing the body and sending through Resend are inputs and
 * outputs of the model: the key arrives as a parameter, the parsed body as a
 * `Body`, and a send is an outcome `Send(mail)`.
 */
module Contact {
  import opened Wrappers
  import opened JsText

  const NotConfiguredError: string := "Email service is not configured."
  const MissingFieldsError: string := "Name, email, and message are required."
  const InvalidEmailError: string := "Please provide a valid email address."
  const GenericError: string := "Something went wrong. Please try again later."
  const SuccessJson: string := "{\"success\":true}"

  const Sender: string := "LG Photography <noreply@lucaphotoart.com>"
  const Recipient: string := "info@lucaphotoart.com"
  const SubjectPrefix: string := "New enquiry from "
  /**
   * The separator between name and service exactly as the source file spells
   * it: space, U+00E2, U+20AC, U+201D, space (an em dash whose UTF-8 bytes
   * were read as Windows-1252).
   */
  const Separator: string := " \U{E2}\U{20AC}\U{201D} "
  const NoService: string := "Not specified"
  const LineBreak: string := "<br />"

  /** The result of `request.json()` destructured into the four fields, or a body that does not parse. */
  datatype Body =
    | Unparseable
    | Fields(name: Option<string>, email: Option<string>, service: Option<string>, message: Option<string>)

  /** The arguments of `resend.emails.send`. */
  datatype Mail = Mail(from: string, to: string, replyTo: string, subject: string, html: string)

  /** Where the guard chain of `POST` ends. */
  datatype Outcome =
    | NotConfigured
    | BodyFailed
    | MissingFields
    | InvalidEmail
    | Send(mail: Mail)

  datatype JsonResponse = JsonResponse(status: int, body: string)

  /** JavaScript truthiness of an optional string: present and not empty. */
  predicate Truthy(v: Option<string>) {
    v.Some? && v.value != ""
  }

  // ---------------------------------------------------------------------
  // Email format: /^[^\s@]+@[^\s@]+\.[^\s@]+$/

  /** The class `[^\s@]`. */
  predicate EmailChar(c: char) {
    !IsJsWhitespace(c) && c != '@'
  }

  predicate AllEmailChars(s: string) {
    forall k :: 0 <= k < |s| ==> EmailChar(s[k])
  }

  /**
   * What it means for the regular expression to match all of `s`: `s` is
   * `a + "@" + b + "." + c` with `a`, `b`, `c` non-empty runs of `[^\s@]`.
   */
  ghost predicate MatchesEmailRegex(s: string) {
    exists i, j :: 0 < i && i + 1 < j < |s| - 1 && s[i] == '@' && s[j] == '.'
                   && AllEmailChars(s[..i]) && AllEmailChars(s[i + 1..j]) && AllEmailChars(s[j + 1..])
  }

  function CountChar(s: string, c: char): (n: nat)
    ensures n == 0 <==> c !in s
    ensures n <= |s|
  {
    if s == [] then 0 else (if s[0] == c then 1 else 0) + CountChar(s[1..], c)
  }

  lemma {:induction false} CountCharAppend(a: string, b: string, c: char)
    ensures CountChar(a + b, c) == CountChar(a, c) + CountChar(b, c)
  {
    if a != [] {
      assert (a + b)[0] == a[0];
      assert (a + b)[1..] == a[1..] + b;
      CountCharAppend(a[1..], b, c);
    } else {
      assert a + b == b;
    }
  }

  /** The first position of `c` in `s`. */
  function IndexOf(s: string, c: char): (i: nat)
    requires c in s
    ensures i < |s| && s[i] == c && c !in s[..i]
  {
    if s[0] == c then 0 else 1 + IndexOf(s[1..], c)
  }

  /** `d` has a `.` with at least one character on each side. */
  predicate HasInnerDot(d: string) {
    exists k :: 0 < k < |d| - 1 && d[k] == '.'
  }

  /**
   * The character-level reading of the email check: no whitespace, exactly
   * one `@`, something before it, and a dot with characters on both sides
   * after it.
   */
  predicate ValidEmail(s: string) {
    && (forall k :: 0 <= k < |s| ==> !IsJsWhitespace(s[k]))
    && CountChar(s, '@') == 1
    && var at := IndexOf(s, '@');
       at > 0 && HasInnerDot(s[at + 1..])
  }

  /** The character-level check accepts exactly the strings the regular expression matches. */
  lemma ValidEmailIffRegex(s: string)
    ensures ValidEmail(s) <==> MatchesEmailRegex(s)
  {
    if ValidEmail(s) {
      ValidEmailMatches(s);
    }
    if MatchesEmailRegex(s) {
      var i, j :| 0 < i && i + 1 < j < |s| - 1 && s[i] == '@' && s[j] == '.'
                  && AllEmailChars(s[..i]) && AllEmailChars(s[i + 1..j]) && AllEmailChars(s[j + 1..]);
      MatchIsValidEmail(s, i, j);
    }
  }

  /** A single `@` splits `s` into the `@`-free parts before and after it. */
  lemma SingleAt(s: string, i: int)
    requires 0 <= i < |s| && s[i] == '@'
    ensures CountChar(s, '@') == 1 <==> '@' !in s[..i] && '@' !in s[i + 1..]
  {
    assert s == s[..i] + [s[i]] + s[i + 1..];
    CountCharAppend(s[..i] + [s[i]], s[i + 1..], '@');
    CountCharAppend(s[..i], [s[i]], '@');
  }

  lemma ValidEmailMatches(s: string)
    requires ValidEmail(s)
    ensures MatchesEmailRegex(s)
  {
    var i := IndexOf(s, '@');
    var d := s[i + 1..];
    var k :| 0 < k < |d| - 1 && d[k] == '.';
    var j := i + 1 + k;
    SingleAt(s, i);
    assert s[j] == d[k] == '.';
    forall m | 0 <= m < |s| && m != i ensures EmailChar(s[m]) {
      if m > i {
        assert s[m] == d[m - i - 1];
      }
    }
    assert AllEmailChars(s[..i]);
    assert AllEmailChars(s[i + 1..j]);
    assert AllEmailChars(s[j + 1..]);
  }

  lemma MatchIsValidEmail(s: string, i: int, j: int)
    requires 0 < i && i + 1 < j < |s| - 1 && s[i] == '@' && s[j] == '.'
    requires AllEmailChars(s[..i]) && AllEmailChars(s[i + 1..j]) && AllEmailChars(s[j + 1..])
    ensures ValidEmail(s)
  {
    forall m | 0 <= m < |s| && m != i ensures EmailChar(s[m]) {
      if m < i {
        assert s[m] == s[..i][m];
      } else if i < m < j {
        assert s[m] == s[i + 1..j][m - i - 1];
      } else if j < m {
        assert s[m] == s[j + 1..][m - j - 1];
      }
    }
    assert '@' !in s[..i];
    assert '@' !in s[i + 1..];
    SingleAt(s, i);
    assert IndexOf(s, '@') == i;
    var d := s[i + 1..];
    assert d[j - i - 1] == '.';
  }

  /** A plain address is accepted. */
  lemma PlainEmailAccepted()
    ensures ValidEmail("a@b.co")
  {
    var s := "a@b.co";
    assert s[..1] == "a" && s[2..3] == "b" && s[4..] == "co";
    MatchIsValidEmail(s, 1, 3);
  }

  /** A domain with consecutive dots is accepted: `[^\s@]+` may itself contain dots. */
  lemma DoubleDotEmailAccepted()
    ensures ValidEmail("a@b..c")
  {
    var s := "a@b..c";
    assert s[..1] == "a" && s[2..4] == "b." && s[5..] == "c";
    MatchIsValidEmail(s, 1, 4);
  }

  /** A dot right after the `@` or at the very end of the domain is refused. */
  lemma MisplacedDotRefused()
    ensures !ValidEmail("a@.co")
    ensures !ValidEmail("a@b.")
  {
    assert IndexOf("a@.co", '@') == 1 && "a@.co"[2..] == ".co";
    assert IndexOf("a@b.", '@') == 1 && "a@b."[2..] == "b.";
  }

  /** An empty local part, a second `@` or a space is refused. */
  lemma MalformedEmailRefused()
    ensures !ValidEmail("@b.co")
    ensures !ValidEmail("a@@b.co")
    ensures !ValidEmail("a b@c.de")
  {
    assert IndexOf("@b.co", '@') == 0;
    assert CountChar("a@@b.co", '@') == 2;
    assert IsJsWhitespace("a b@c.de"[1]);
  }

  // ---------------------------------------------------------------------
  // The enquiry mail

  /** `message.replace(/\n/g, '<br />')`. */
  function ReplaceNewlines(s: string): (r: string)
    ensures '\n' !in r
    ensures |r| == |s| + (|LineBreak| - 1) * CountChar(s, '\n')
    ensures '\n' !in s ==> r == s
  {
    if s == [] then []
    else (if s[0] == '\n' then LineBreak else [s[0]]) + ReplaceNewlines(s[1..])
  }

  /** Replacing newlines works piece by piece. */
  lemma {:induction false} ReplaceNewlinesAppend(a: string, b: string)
    ensures ReplaceNewlines(a + b) == ReplaceNewlines(a) + ReplaceNewlines(b)
  {
    if a != [] {
      assert (a + b)[0] == a[0];
      assert (a + b)[1..] == a[1..] + b;
      ReplaceNewlinesAppend(a[1..], b);
    } else {
      assert a + b == b;
    }
  }

  /** A newline and a literal `<br />` in the message render the same. */
  lemma NewlineIndistinguishableFromBreak()
    ensures ReplaceNewlines("\n") == ReplaceNewlines(LineBreak)
  {
    assert '\n' !in LineBreak;
  }

  /** The subject line: the name, then the separator and the service only when a service is given. */
  function Subject(name: string, service: Option<string>): (s: string)
    ensures StartsWith(s, SubjectPrefix + name)
    ensures !Truthy(service) ==> s == SubjectPrefix + name
    ensures Truthy(service) ==> StartsWith(s, SubjectPrefix + name + Separator)
  {
    SubjectPrefix + name + (if Truthy(service) then Separator + service.value else "")
  }

  /** Reads the service back out of a subject built for `name`. */
  function ServiceOfSubject(subject: string, name: string): Option<string> {
    var head := |SubjectPrefix| + |name| + |Separator|;
    if |subject| > head then Some(subject[head..]) else None
  }

  /** The subject records the service exactly when it is truthy, and records it whole. */
  lemma SubjectRoundTrip(name: string, service: Option<string>)
    ensures ServiceOfSubject(Subject(name, service), name) ==
            if Truthy(service) then service else None
  {
    var head := |SubjectPrefix| + |name| + |Separator|;
    var subject := Subject(name, service);
    if Truthy(service) {
      assert subject == (SubjectPrefix + name + Separator) + service.value;
      assert subject[head..] == service.value;
    } else {
      assert |subject| == |SubjectPrefix| + |name|;
    }
  }

  /** `service || 'Not specified'`. */
  function ServiceText(service: Option<string>): (t: string)
    ensures t != ""
    ensures Truthy(service) ==> t == service.value
    ensures !Truthy(service) ==> t == NoService
  {
    if Truthy(service) then service.value else NoService
  }

  const HtmlHeading: string := "\n        <h2>New Contact Form Submission</h2>"
  const MessageOpen: string := "\n        <p>"
  const HtmlTail: string := "</p>\n      "

  const Indent: string := "\n        "
  const HtmlRule: string := "\n        <hr />\n        <p><strong>Message:</strong></p>"

  function NameLine(name: string): string {
    "<p><strong>Name:</strong> " + name + "</p>"
  }

  function EmailLine(email: string): string {
    "<p><strong>Email:</strong> " + email + "</p>"
  }

  function ServiceLine(service: Option<string>): string {
    "<p><strong>Service:</strong> " + ServiceText(service) + "</p>"
  }

  /** The labelled name, email and service paragraphs, the rule and the message heading. */
  function HtmlFields(name: string, email: string, service: Option<string>): string {
    (Indent + NameLine(name)) + ((Indent + EmailLine(email)) + ((Indent + ServiceLine(service)) + HtmlRule))
  }

  /** The paragraph that holds the message. */
  function HtmlMessage(message: string): string {
    MessageOpen + ReplaceNewlines(message) + HtmlTail
  }

  /**
   * The `html` template of the mail, line breaks and indentation included:
   * it opens with the heading and closes with the message paragraph.
   */
  function Html(name: string, email: string, service: Option<string>, message: string): (html: string)
    ensures StartsWith(html, HtmlHeading)
    ensures var last := HtmlMessage(message);
            |last| <= |html| && html[|html| - |last|..] == last
  {
    var fields := HtmlFields(name, email, service);
    var last := HtmlMessage(message);
    ConcatEnds(HtmlHeading, fields, last);
    HtmlHeading + fields + last
  }

  /**
   * The name, email and service lines each occur in the HTML; the service
   * line shows the service, or `Not specified` when it is absent or empty.
   */
  lemma HtmlShowsFields(name: string, email: string, service: Option<string>, message: string)
    ensures var html := Html(name, email, service, message);
            && (exists k :: InfixAt(NameLine(name), html, k))
            && (exists k :: InfixAt(EmailLine(email), html, k))
            && (exists k :: InfixAt(ServiceLine(service), html, k))
  {
    var html := Html(name, email, service, message);
    var fields := HtmlFields(name, email, service);
    var last := HtmlMessage(message);
    assert html == HtmlHeading + fields + last;
    InfixOfConcat(HtmlHeading, fields);
    InfixOfConcat(HtmlHeading + fields, last);
    InfixTrans(fields, HtmlHeading + fields, html, |HtmlHeading|, 0);
    var n, e, v := NameLine(name), EmailLine(email), ServiceLine(service);
    var a, b, c := ParagraphsOccur(Indent, n, e, v, HtmlRule);
    InfixTrans(n, fields, html, a, |HtmlHeading|);
    InfixTrans(e, fields, html, b, |HtmlHeading|);
    InfixTrans(v, fields, html, c, |HtmlHeading|);
  }

  /** Each of three indented paragraphs occurs in their concatenation. */
  lemma ParagraphsOccur(indent: string, n: string, e: string, v: string, rule: string)
    returns (a: int, b: int, c: int)
    ensures var all := (indent + n) + ((indent + e) + ((indent + v) + rule));
            InfixAt(n, all, a) && InfixAt(e, all, b) && InfixAt(v, all, c)
  {
    var np, ep, sp := indent + n, indent + e, indent + v;
    var tail2 := sp + rule;
    var tail1 := ep + tail2;
    var all := np + tail1;
    InfixOfConcat(indent, n);
    InfixOfConcat(indent, e);
    InfixOfConcat(indent, v);
    InfixOfConcat(np, tail1);
    InfixOfConcat(ep, tail2);
    InfixOfConcat(sp, rule);
    a := |indent|;
    InfixTrans(n, np, all, a, 0);
    InfixTrans(e, ep, tail1, |indent|, 0);
    InfixTrans(e, tail1, all, |indent|, |np|);
    b := |np| + |indent|;
    InfixTrans(v, sp, tail2, |indent|, 0);
    InfixTrans(v, tail2, tail1, |indent|, |ep|);
    InfixTrans(v, tail1, all, |ep| + |indent|, |np|);
    c := |np| + (|ep| + |indent|);
  }

  lemma ConcatEnds(a: string, b: string, c: string)
    ensures StartsWith(a + b + c, a)
    ensures (a + b + c)[|a + b + c| - |c|..] == c
  {
    assert (a + b + c)[..|a|] == a;
  }

  /**
   * The message enters the HTML at one place only, and only through
   * `ReplaceNewlines`: the rest of the HTML is what an empty message gives.
   */
  lemma HtmlMessageSlot(name: string, email: string, service: Option<string>, message: string)
    ensures var empty := Html(name, email, service, "");
            var k := |empty| - |HtmlTail|;
            0 <= k
            && Html(name, email, service, message) == empty[..k] + ReplaceNewlines(message) + empty[k..]
  {
    assert ReplaceNewlines("") == "";
    SlotBetween(HtmlHeading + HtmlFields(name, email, service), MessageOpen, ReplaceNewlines(message), HtmlTail,
                Html(name, email, service, message), Html(name, email, service, ""));
  }

  /** Filling a slot between `open` and `t`: the result is the empty filling cut at the start of `t`. */
  lemma SlotBetween(before: string, open: string, x: string, t: string, full: string, empty: string)
    requires full == before + (open + x + t) && empty == before + (open + "" + t)
    ensures 0 <= |empty| - |t| && full == empty[..|empty| - |t|] + x + empty[|empty| - |t|..]
  {
    var head := before + open;
    assert empty == head + t;
    assert empty[..|head|] == head && empty[|head|..] == t;
  }

  /** An absent or empty service renders exactly as the service "Not specified". */
  lemma HtmlServiceFallback(name: string, email: string, service: Option<string>, message: string)
    requires !Truthy(service)
    ensures Html(name, email, service, message) == Html(name, email, Some(NoService), message)
  {
  }

  // ---------------------------------------------------------------------
  // The guard chain

  /**
   * `POST` up to the send: the configuration is checked before the body is
   * looked at, then the three required fields, then the email format; a mail
   * is sent only when every check passes, and it replies to the given email.
   */
  function HandleContact(apiKey: Option<string>, body: Body): (o: Outcome)
    ensures o.NotConfigured? <==> !Truthy(apiKey)
    ensures o.BodyFailed? <==> Truthy(apiKey) && body.Unparseable?
    ensures o.MissingFields? <==>
      Truthy(apiKey) && body.Fields? && (!Truthy(body.name) || !Truthy(body.email) || !Truthy(body.message))
    ensures o.InvalidEmail? <==>
      Truthy(apiKey) && body.Fields? && Truthy(body.name) && Truthy(body.email) && Truthy(body.message)
      && !MatchesEmailRegex(body.email.value)
    ensures o.Send? ==>
      body.Fields? && Truthy(body.name) && Truthy(body.message) && body.email.Some?
      && MatchesEmailRegex(body.email.value)
      && o.mail.from == Sender && o.mail.to == Recipient && o.mail.replyTo == body.email.value
      && o.mail.subject == Subject(body.name.value, body.service)
      && o.mail.html == Html(body.name.value, body.email.value, body.service, body.message.value)
  {
    if !Truthy(apiKey) then NotConfigured
    else match body
      case Unparseable => BodyFailed
      case Fields(name, email, service, message) =>
        if !Truthy(name) || !Truthy(email) || !Truthy(message) then MissingFields
        else
          ValidEmailIffRegex(email.value);
          if !ValidEmail(email.value) then InvalidEmail
          else
            Send(Mail(Sender, Recipient, email.value,
                      Subject(name.value, service),
                      Html(name.value, email.value, service, message.value)))
  }

  /** The service field is optional: it never decides which check fails or whether a mail is sent. */
  lemma ServiceIsOptional(apiKey: Option<string>, name: Option<string>, email: Option<string>,
                          s1: Option<string>, s2: Option<string>, message: Option<string>)
    ensures var o1 := HandleContact(apiKey, Fields(name, email, s1, message));
            var o2 := HandleContact(apiKey, Fields(name, email, s2, message));
            o1.Send? == o2.Send? && (!o1.Send? ==> o1 == o2)
  {
  }

  /** The JSON response `POST` returns; `sendThrows` says whether the send raised an exception. */
  function Respond(o: Outcome, sendThrows: bool): (r: JsonResponse)
    ensures r.status == 200 <==> o.Send? && !sendThrows
    ensures r.status == 200 ==> r.body == SuccessJson
    ensures r.status == 400 <==> o.MissingFields? || o.InvalidEmail?
    ensures r.status == 500 <==> o.NotConfigured? || o.BodyFailed? || (o.Send? && sendThrows)
    ensures o.NotConfigured? ==> r.body == ErrorJson(NotConfiguredError)
    ensures o.MissingFields? ==> r.body == ErrorJson(MissingFieldsError)
    ensures o.InvalidEmail? ==> r.body == ErrorJson(InvalidEmailError)
    ensures r.status == 500 && !o.NotConfigured? ==> r.body == ErrorJson(GenericError)
  {
    match o
    case NotConfigured => JsonResponse(500, ErrorJson(NotConfiguredError))
    case BodyFailed => JsonResponse(500, ErrorJson(GenericError))
    case MissingFields => JsonResponse(400, ErrorJson(MissingFieldsError))
    case InvalidEmail => JsonResponse(400, ErrorJson(InvalidEmailError))
    case Send(_) => if sendThrows then JsonResponse(500, ErrorJson(GenericError)) else JsonResponse(200, SuccessJson)
  }

  /** `POST` as a whole. */
  function Post(apiKey: Option<string>, body: Body, sendThrows: bool): (r: JsonResponse)
    ensures r.status == 200 || r.status == 400 || r.status == 500
    ensures r.status == 500 <==>
      !Truthy(apiKey) || (Truthy(apiKey) && body.Unparseable?) || (HandleContact(apiKey, body).Send? && sendThrows)
  {
    Respond(HandleContact(apiKey, body), sendThrows)
  }

  /** A success response means every field check passed and a mail went out with the well-formed address. */
  lemma SuccessMeansAllChecksPassed(apiKey: Option<string>, body: Body, sendThrows: bool)
    requires Post(apiKey, body, sendThrows).status == 200
    ensures Truthy(apiKey) && body.Fields? && !sendThrows
    ensures Truthy(body.name) && Truthy(body.email) && Truthy(body.message)
    ensures MatchesEmailRegex(body.email.value)
    ensures Post(apiKey, body, sendThrows).body == SuccessJson
  {
  }
}
