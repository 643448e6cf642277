/** The WhatsApp link the contact form opens on submit (contact.js, lines 76-101):
    the field values are put into a fixed multi-line template, an empty phone
    number reads "Not provided", and the text is passed through
    `encodeURIComponent` into the `text` query parameter of a `wa.me` link.

    The fixed text is a `Template` value so that the properties are proved once
    for any template whose fixed lines are plain single lines; `SiteTemplate` is
    the one contact.js writes, and `SiteTemplateIsValid` shows it qualifies. */
module WhatsAppLink {
  import opened Outcomes
  import opened Sequences
  import opened Utf16
  import opened UriComponent

  /** What the submit handler reads: the name, e-mail, phone and message fields,
      and the text of the selected reason. */
  datatype ContactForm = ContactForm(
    name: JsString, email: JsString, phone: JsString, reason: JsString, message: JsString)

  /** The fixed text of the message, line by line, the text that stands in for an
      empty phone number, and the part of the link before the message, as the
      literals of the source write them. */
  datatype Template = Template(
    greeting: string, indent: string,
    nameLabel: string, emailLabel: string, phoneLabel: string, reasonLabel: string,
    messageHeading: string, notProvided: string, linkPrefix: string)

  const LineFeed: CodeUnit := 0x0A

  const WhatsAppNumber: string := "919876543210"

  /** The template literal of contact.js. Its second line holds the four spaces
      of the source's indentation. */
  function SiteTemplate(): Template
  {
    Template(
      "Hello! I'm contacting you from your website.",
      "    ",
      "*Name:* ", "*Email:* ", "*Phone:* ", "*Reason:* ", "*Message:*",
      "Not provided",
      "https://wa.me/" + WhatsAppNumber + "?text=")
  }

  /** `phone || 'Not provided'`: the empty string is the only falsy string. */
  function PhoneOrDefault(t: Template, phone: JsString): JsString
  {
    if phone == [] then FromString(t.notProvided) else phone
  }

  /** The lines of the message; the last is the message field, which may hold
      line feeds of its own. */
  function MessageLines(t: Template, f: ContactForm): seq<JsString>
  {
    [ FromString(t.greeting),
      FromString(t.indent),
      FromString(t.nameLabel) + f.name,
      FromString(t.emailLabel) + f.email,
      FromString(t.phoneLabel) + PhoneOrDefault(t, f.phone),
      FromString(t.reasonLabel) + f.reason,
      [],
      FromString(t.messageHeading),
      f.message ]
  }

  /** The text of the message: its lines separated by line feeds. */
  function WhatsAppMessage(t: Template, f: ContactForm): JsString
  {
    Join(MessageLines(t, f), LineFeed)
  }

  /** The link, or the URIError `encodeURIComponent` throws on a lone surrogate
      in one of the fields. */
  function WhatsAppUrl(t: Template, f: ContactForm): Result<JsString, UriError>
  {
    match EncodeURIComponent(WhatsAppMessage(t, f))
    case Ok(encoded) => Ok(FromString(t.linkPrefix) + encoded)
    case Err(e) => Err(e)
  }

  /** The link contact.js builds. */
  function SiteUrl(f: ContactForm): Result<JsString, UriError>
  {
    WhatsAppUrl(SiteTemplate(), f)
  }

  // ---------------------------------------------------------------------------
  // The template

  /** Text that stands on a line of its own or in front of a field without
      changing either: no line feed, well-formed, and no surrogate at either edge. */
  predicate IsPlainLine(u: JsString)
  {
    && LineFeed !in u
    && IsWellFormed(u)
    && (u != [] ==> !IsLowSurrogate(u[0]) && !IsHighSurrogate(u[|u| - 1]))
  }

  /** No fixed line holds a line feed, and the phone fallback is not empty. */
  predicate IsValidTemplate(t: Template)
  {
    && '\n' !in t.greeting && '\n' !in t.indent
    && '\n' !in t.nameLabel && '\n' !in t.emailLabel
    && '\n' !in t.phoneLabel && '\n' !in t.reasonLabel
    && '\n' !in t.messageHeading && '\n' !in t.notProvided
    && t.notProvided != ""
  }

  /** A literal without a line feed is a plain line. */
  lemma LiteralIsPlainLine(s: string)
    requires '\n' !in s
    ensures IsPlainLine(FromString(s))
  {
    FromStringWellFormed(s);
    FromStringAvoids(s, '\n');
  }

  /** Every fixed line of a valid template is a plain line, and the phone
      fallback is a non-empty one. */
  lemma FixedLinesArePlain(t: Template)
    requires IsValidTemplate(t)
    ensures IsPlainLine(FromString(t.greeting)) && IsPlainLine(FromString(t.indent))
    ensures IsPlainLine(FromString(t.nameLabel)) && IsPlainLine(FromString(t.emailLabel))
    ensures IsPlainLine(FromString(t.phoneLabel)) && IsPlainLine(FromString(t.reasonLabel))
    ensures IsPlainLine(FromString(t.messageHeading)) && IsPlainLine(FromString(t.notProvided))
    ensures FromString(t.notProvided) != []
  {
    LiteralIsPlainLine(t.greeting);
    LiteralIsPlainLine(t.indent);
    LiteralIsPlainLine(t.nameLabel);
    LiteralIsPlainLine(t.emailLabel);
    LiteralIsPlainLine(t.phoneLabel);
    LiteralIsPlainLine(t.reasonLabel);
    LiteralIsPlainLine(t.messageHeading);
    LiteralIsPlainLine(t.notProvided);
  }

  /** The template of contact.js satisfies everything the lemmas below assume. */
  lemma SiteTemplateIsValid()
    ensures IsValidTemplate(SiteTemplate())
  {
    GreetingIsOneLine();
    LabelsAreOneLine();
  }

  /** The greeting of contact.js holds no line feed. */
  lemma GreetingIsOneLine()
    ensures '\n' !in SiteTemplate().greeting
  {
  }

  /** The labels of contact.js hold no line feed. */
  lemma LabelsAreOneLine()
    ensures '\n' !in SiteTemplate().nameLabel && '\n' !in SiteTemplate().emailLabel
    ensures '\n' !in SiteTemplate().phoneLabel && '\n' !in SiteTemplate().reasonLabel
  {
  }

  // ---------------------------------------------------------------------------
  // The phone line

  /** The phone line is never blank: an empty number becomes the fallback and any
      other value is kept as typed, so the fallback shows exactly when the field
      is empty or was typed as that very text. */
  lemma PhoneFallback(t: Template, phone: JsString)
    requires IsValidTemplate(t)
    ensures PhoneOrDefault(t, phone) != []
    ensures phone != [] ==> PhoneOrDefault(t, phone) == phone
    ensures PhoneOrDefault(t, phone) == FromString(t.notProvided) <==>
      phone == [] || phone == FromString(t.notProvided)
  {
    FixedLinesArePlain(t);
  }

  // ---------------------------------------------------------------------------
  // The layout of the message

  /** While the name, e-mail, phone and reason hold no line feed, the message's
      lines are the eight header lines, each field on its own line, followed by
      the lines of the message field: no field can add or move a header line. */
  lemma MessageLayout(t: Template, f: ContactForm)
    requires IsValidTemplate(t)
    requires LineFeed !in f.name && LineFeed !in f.email
    requires LineFeed !in f.phone && LineFeed !in f.reason
    ensures Split(WhatsAppMessage(t, f), LineFeed) == MessageLines(t, f)[..8] + Split(f.message, LineFeed)
  {
    var lines := MessageLines(t, f);
    FixedLinesArePlain(t);
    assert lines == lines[..8] + [f.message];
    forall p | p in lines[..8] ensures LineFeed !in p {
    }
    SplitJoinThen(lines[..8], f.message, LineFeed);
  }

  /** For any field values, line feeds inside the fields included, the message's
      lines are the lines of each of its nine parts in turn. */
  lemma MessageSplit(t: Template, f: ContactForm)
    ensures Split(WhatsAppMessage(t, f), LineFeed) == SplitEach(MessageLines(t, f), LineFeed)
  {
    SplitJoinEach(MessageLines(t, f), LineFeed);
  }

  // ---------------------------------------------------------------------------
  // When the link cannot be built

  /** Lines joined by line feeds are well-formed UTF-16 exactly when every line is. */
  lemma {:induction false} JoinWellFormed(lines: seq<JsString>)
    ensures IsWellFormed(Join(lines, LineFeed)) <==> forall i | 0 <= i < |lines| :: IsWellFormed(lines[i])
    decreases |lines|
  {
    if |lines| >= 2 {
      var rest := Join(lines[1..], LineFeed);
      JoinWellFormed(lines[1..]);
      var lf: JsString := [LineFeed];
      assert IsWellFormed(lf) by {
        assert PairedAt(lf, 0);
      }
      WellFormedAppend(lines[0], lf);
      WellFormedAppend(lines[0] + lf, rest);
      assert forall i | 1 <= i < |lines| :: lines[i] == lines[1..][i - 1];
    }
  }

  /** A plain label in front of a field leaves the field's well-formedness as it is. */
  lemma LabelledWellFormed(prefix: JsString, field: JsString)
    requires IsPlainLine(prefix)
    ensures IsWellFormed(prefix + field) <==> IsWellFormed(field)
  {
    WellFormedAppend(prefix, field);
  }

  /** The message is well-formed UTF-16 exactly when all five fields are. */
  lemma MessageWellFormedIff(t: Template, f: ContactForm)
    requires IsValidTemplate(t)
    ensures IsWellFormed(WhatsAppMessage(t, f)) <==>
      && IsWellFormed(f.name) && IsWellFormed(f.email) && IsWellFormed(f.phone)
      && IsWellFormed(f.reason) && IsWellFormed(f.message)
  {
    var lines := MessageLines(t, f);
    FixedLinesArePlain(t);
    JoinWellFormed(lines);
    LabelledWellFormed(FromString(t.nameLabel), f.name);
    LabelledWellFormed(FromString(t.emailLabel), f.email);
    LabelledWellFormed(FromString(t.phoneLabel), PhoneOrDefault(t, f.phone));
    LabelledWellFormed(FromString(t.reasonLabel), f.reason);
    var empty: JsString := [];
    assert IsWellFormed(empty);
    assert IsWellFormed(PhoneOrDefault(t, f.phone)) <==> IsWellFormed(f.phone);
    assert IsWellFormed(lines[0]) && IsWellFormed(lines[1]) && IsWellFormed(lines[6]) && IsWellFormed(lines[7]);
    assert IsWellFormed(lines[2]) <==> IsWellFormed(f.name);
    assert IsWellFormed(lines[3]) <==> IsWellFormed(f.email);
    assert IsWellFormed(lines[4]) <==> IsWellFormed(f.phone);
    assert IsWellFormed(lines[5]) <==> IsWellFormed(f.reason);
    assert lines[8] == f.message;
  }

  /** The link is built exactly when no field holds a lone surrogate; otherwise
      the handler throws before any window opens. */
  lemma UrlSucceedsIff(t: Template, f: ContactForm)
    requires IsValidTemplate(t)
    ensures WhatsAppUrl(t, f).Ok? <==>
      && IsWellFormed(f.name) && IsWellFormed(f.email) && IsWellFormed(f.phone)
      && IsWellFormed(f.reason) && IsWellFormed(f.message)
  {
    EncodeSucceedsIff(WhatsAppMessage(t, f));
    MessageWellFormedIff(t, f);
  }

  // ---------------------------------------------------------------------------
  // What the link holds

  /** The units that would end or split the `text` parameter, or be read as a
      space: `&`, `=`, `#`, `?`, `+` and the space itself. */
  predicate IsQueryDelimiter(u: CodeUnit)
  {
    u == 0x26 || u == 0x3D || u == 0x23 || u == 0x3F || u == 0x2B || u == 0x20
  }

  /** A built link is the prefix followed by the encoded message; the encoded part
      holds nothing that would end the `text` parameter, is at least as long as
      the message, and decodes back to exactly the message. */
  lemma UrlCarriesMessage(t: Template, f: ContactForm)
    requires WhatsAppUrl(t, f).Ok?
    ensures var url, prefix := WhatsAppUrl(t, f).value, FromString(t.linkPrefix);
      && |prefix| <= |url|
      && url[..|prefix|] == prefix
      && (forall i | |prefix| <= i < |url| :: !IsQueryDelimiter(url[i]))
      && |url| - |prefix| >= |WhatsAppMessage(t, f)|
      && DecodeURIComponent(url[|prefix|..]) == Ok(WhatsAppMessage(t, f))
  {
    PrefixedEncoding(FromString(t.linkPrefix), WhatsAppMessage(t, f));
  }

  /** What `UrlCarriesMessage` states, for any prefix and any text that encodes. */
  lemma PrefixedEncoding(prefix: JsString, message: JsString)
    requires EncodeURIComponent(message).Ok?
    ensures var url := prefix + EncodeURIComponent(message).value;
      && |prefix| <= |url|
      && url[..|prefix|] == prefix
      && (forall i | |prefix| <= i < |url| :: !IsQueryDelimiter(url[i]))
      && |url| - |prefix| >= |message|
      && DecodeURIComponent(url[|prefix|..]) == Ok(message)
  {
    var encoded := EncodeURIComponent(message).value;
    var url := prefix + encoded;
    assert url[..|prefix|] == prefix;
    assert url[|prefix|..] == encoded;
    DecodeEncode(message);
    EncodeLength(message);
    EncodedHasNoDelimiter(message);
    forall i | |prefix| <= i < |url|
      ensures !IsQueryDelimiter(url[i])
    {
      assert url[i] == encoded[i - |prefix|];
    }
  }

  /** The output of the encoder holds no query delimiter. */
  lemma EncodedHasNoDelimiter(message: JsString)
    requires EncodeURIComponent(message).Ok?
    ensures forall i | 0 <= i < |EncodeURIComponent(message).value| ::
      !IsQueryDelimiter(EncodeURIComponent(message).value[i])
  {
    EncodeIsPercentEncoded(message);
    PercentEncodedUnits(EncodeURIComponent(message).value);
  }

  /** For the site's own template: the link is built exactly when no field holds
      a lone surrogate. */
  lemma SiteUrlSucceedsIff(f: ContactForm)
    ensures SiteUrl(f).Ok? <==>
      && IsWellFormed(f.name) && IsWellFormed(f.email) && IsWellFormed(f.phone)
      && IsWellFormed(f.reason) && IsWellFormed(f.message)
  {
    SiteTemplateIsValid();
    UrlSucceedsIff(SiteTemplate(), f);
  }
}
