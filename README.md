# Project gallery and WhatsApp contact link

This project models two pieces of string logic from a small static web site.

**The project gallery** (`fetchAndRenderProjectCards` in scripts.js):
- The loader walks a repository's contents listing and keeps the entries whose name ends in `.md`.
- It fetches each document in turn and appends one card per document to the `.projects-grid` container.
- A card holds:
  - a title: the first non-blank line, without one leading `#` and the whitespace after it; when that leaves nothing, the file name with its first `.md` removed;
  - the preview Markdown: the next up-to-four non-blank lines joined by single spaces;
  - the URL the document was fetched from.
- Any exception replaces the whole grid with one error message. The exceptions are:
  - a failed listing request;
  - a listing that cannot be iterated;
  - a failed document request;
  - a document with no non-blank line, where `lines[0]` is undefined.

**The WhatsApp link** (the contact form's submit handler in contact.js):
- The field values are placed into a fixed multi-line message. An empty phone number reads `Not provided`.
- The message is percent-encoded with `encodeURIComponent` and appended to `https://wa.me/919876543210?text=`.

How the model is built:
- The card fields are pure functions:
  - `split` and `join` (module `Sequences`);
  - `trim`, `endsWith` and `replace` (module `JsText`);
  - the card builder itself (module `ProjectCards`).
- The loop is the fold `CollectCards` of one iteration `Step`; `LoadGallery` puts the listing request in front of it (module `ProjectGallery`). The class `ProjectsGrid` holds the container's children. Its method `FetchAndRenderProjectCards` runs the loop, appending in place, and is proved to leave exactly `Render(old(children), LoadGallery(...))`.
- The contact fields are JavaScript strings: sequences of UTF-16 code units that may hold lone surrogates (module `Utf16`).
- `encodeURIComponent` follows the Encode operation of ECMA-262, section 19.2.6 (module `UriComponent`):
  - unreserved units `A-Z a-z 0-9 - _ . ! ~ * ' ( )` are copied;
  - every other code point becomes its UTF-8 octets as uppercase `%HH`;
  - a lone surrogate throws a URIError.
- The Decode operation of the same section (`decodeURIComponent`) is modelled as its inverse, to state the round trip. The message and the link are in module `WhatsAppLink`.
- The fixed text of the message is a `Template` value. The properties of the message and link are proved for every template whose fixed lines hold no line feed and whose phone fallback is not empty (`IsValidTemplate`). `SiteTemplateIsValid` shows that the template written in contact.js is one of them.

## Model

| member | source | states |
|---|---|---|
| Sequences.SplitAvoidsSep | scripts.js:61 | no line produced by `split('\n')` holds a line feed |
| Sequences.Split | scripts.js:61 | `split` with a one-character separator; its contract is stated by `SplitAvoidsSep`, `JoinSplit`, `SplitAtSep` and `SplitJoin` |
| Sequences.Join | scripts.js:63 | `join`; its contract is stated by `JoinSplit`, `SplitJoin`, `SplitJoinEach`, `JoinEmptyIff` and `JoinAvoids` |
| Sequences.JoinSplit | scripts.js:61 | joining the pieces of a split with the same separator gives back the text |
| Sequences.SplitAtSep | scripts.js:61 | a separator between two texts makes their pieces adjacent: split(a + sep + b) is split(a) followed by split(b) |
| Sequences.SplitJoinThen | contact.js:84-92 | joining separator-free lines and then one arbitrary last line, and splitting again, gives those lines followed by the pieces of the last one |
| Sequences.SplitJoin | contact.js:84-92 | split inverts join on a non-empty list of separator-free lines |
| Sequences.SplitCount | scripts.js:61 | a text with k separators splits into k + 1 pieces, empty ones included |
| Sequences.SplitEach | scripts.js:63 | the pieces of each part, part after part; used by `SplitJoinEach` to state what `join` returns when parts hold the separator |
| Sequences.SplitJoinEach | scripts.js:63 | for any non-empty list, splitting its join gives the pieces of each part in turn; with `JoinSplit` this fixes the joined text exactly |
| Sequences.SplitEachWithoutSep | scripts.js:63 | parts without the separator are their own pieces |
| Sequences.JoinEmptyIff | scripts.js:63 | a join is empty exactly when there are no pieces or one empty piece |
| Sequences.JoinAvoids | scripts.js:63 | an element other than the separator that no piece holds is not in the join |
| JsText.IsWhitespace | scripts.js:61-62 | the ECMAScript WhiteSpace and LineTerminator set that `trim` removes and `\s` matches; its use is stated by `TrimStartSpec`, `TrimEndSpec`, `TrimEmptyIffBlank` and `StripHeadingSpec` |
| JsText.TrimStartSpec | scripts.js:61 | leading trim drops exactly a whitespace prefix and leaves text that does not start with whitespace |
| JsText.Trim | scripts.js:61 | `trim`; its contract is stated by `TrimStartSpec`, `TrimEndSpec` and `TrimEmptyIffBlank` |
| JsText.EndsWith | scripts.js:57 | `endsWith`: the text's last characters are the suffix; used by `EndsWithRemovesFirst` and `FallbackTitleFromName` |
| JsText.TrimEndSpec | scripts.js:61 | trailing trim drops exactly a whitespace suffix and leaves text that does not end with whitespace |
| JsText.TrimEmptyIffBlank | scripts.js:61 | `trim()` gives the empty (falsy) string exactly when the text is all ECMAScript whitespace |
| JsText.IndexOfFrom | scripts.js:62 | the result is an occurrence of the pattern at or after the start with none before it, or None when there is none |
| JsText.RemoveFirst | scripts.js:62 | `replace` with a string pattern leaves the text unchanged when the pattern is absent; otherwise it removes the first occurrence and keeps everything else, so putting the pattern back at that index rebuilds the text |
| JsText.EndsWithRemovesFirst | scripts.js:57-62 | a name that passed the `.md` filter loses exactly three characters to `replace('.md', '')` |
| ProjectCards.NonBlank | scripts.js:61 | the filter keeps, with their original text, exactly the lines that are not all whitespace; order and multiplicity are stated by `NonBlankSingle` and `NonBlankAppend` |
| ProjectCards.NonBlankSingle | scripts.js:61 | the filter keeps one line, unchanged, exactly when it is not blank |
| ProjectCards.NonBlankAppend | scripts.js:61 | the filter keeps order: filtering two runs of lines is filtering each and concatenating |
| ProjectCards.NonBlankFirst | scripts.js:61-62 | `lines[0]` after the filter is the first line of the document that is not blank, with its text unchanged |
| ProjectCards.KeptLines | scripts.js:61 | every kept line is non-empty and holds no line feed |
| ProjectCards.BlankIffLinesBlank | scripts.js:61 | a document is all whitespace exactly when each of its lines is |
| ProjectCards.NoKeptLinesIffBlank | scripts.js:61-62 | no line survives the filter (so `lines[0]` is undefined) exactly when the document is all whitespace |
| ProjectCards.StripHeadingSpec | scripts.js:62 | a line starting with `#` is that `#`, a whitespace run and the result, and the result does not start with whitespace; any other line is unchanged |
| ProjectCards.StripHeading | scripts.js:62 | `replace(/^#\s*/, '')`; its contract is stated by `StripHeadingSpec`, `StripHeadingKeepsSecondMarker` and `StripHeadingEmptyIff` |
| ProjectCards.CardTitle | scripts.js:62 | the stripped line or the `.md` fallback; its contract is stated by `CardTitleEmptyIff`, `FallbackTitleFromName`, `CardTitleOneLine` and `ExtractCardSpec` |
| ProjectCards.StripHeadingKeepsSecondMarker | scripts.js:62 | `##` followed by X strips to `#` followed by X: only one marker goes |
| ProjectCards.StripHeadingEmptyIff | scripts.js:62 | the stripped line is empty exactly when the line is empty or `#` followed only by whitespace |
| ProjectCards.CardTitleEmptyIff | scripts.js:57-62 | for a `.md` file the title is empty exactly when the first line strips to nothing and the name is `.md` itself |
| ProjectCards.FallbackTitleFromName | scripts.js:62 | the fallback title is the file name with its first `.md` taken out: `.md` occurs at no earlier index, putting it back rebuilds the name, and the title holds a line feed only if the name does |
| ProjectCards.CardTitleOneLine | scripts.js:62 | a title from a line and a file name without line feeds has none |
| ProjectCards.PreviewShape | scripts.js:63 | the preview of kept lines is empty exactly when one line is kept, holds no line feed, and starts with the second kept line |
| ProjectCards.PreviewMarkdown | scripts.js:63 | `lines.slice(1, 5).join(' ')`; its contract is stated by `PreviewShape`, `PreviewWindow`, `PreviewText` and `PreviewSplit` |
| ProjectCards.PreviewWindow | scripts.js:63 | lines after the fifth and the title line do not change the preview |
| ProjectCards.PreviewText | scripts.js:63 | for any two or more kept lines, splitting the preview at spaces gives the space-separated words of kept lines 2 to 5 in order, which fixes the preview's text |
| ProjectCards.PreviewSplit | scripts.js:63 | when kept lines 2 to 5 hold no spaces, splitting the preview at spaces gives exactly those lines, whatever the title line and later lines hold |
| ProjectCards.ExtractCardSpec | scripts.js:57-63 | a document yields no card exactly when it is all whitespace; a card carries the fetched URL; its title is the first non-blank line of the document with the heading marker stripped, or the file name less its first `.md` when that strips to nothing; its preview is one line, empty exactly when one line is kept, and splits at its spaces into the words of kept lines 2 to 5, so into those lines themselves when they hold no spaces; its title is non-empty unless the file is named `.md` |
| ProjectCards.ExtractCard | scripts.js:61-63 | one document's card; its contract is stated by `ExtractCardSpec`, which fixes the title and the preview text of every document |
| ProjectGallery.MarkdownEntries | scripts.js:56-57 | the entries kept are exactly those whose name ends in `.md`; their order is stated by `MarkdownEntriesAppend` |
| ProjectGallery.MarkdownEntriesSingle | scripts.js:57 | one entry is kept exactly when its name ends in `.md` |
| ProjectGallery.MarkdownEntriesAppend | scripts.js:56-57 | the `.md` filter keeps listing order: filtering two runs of entries is filtering each and concatenating |
| ProjectGallery.Step | scripts.js:57-75 | one loop iteration; its contract is stated by the lemmas about `CollectCards` |
| ProjectGallery.CollectCards | scripts.js:56-77 | the loop as a fold; its contract is stated by `NonMarkdownSkipped`, `CollectCardsSucceedsIff`, `CollectCardsInOrder`, `FailureIsFirst` and `FailureIsFinal` |
| ProjectGallery.LoadGallery | scripts.js:52-128 | the listing request, then the loop; a failed or non-iterable listing is a failure; tied to the grid by `FetchAndRenderProjectCards` |
| ProjectGallery.NonMarkdownSkipped | scripts.js:56-57 | entries whose names do not end in `.md` change nothing: the load equals the load over the `.md` entries alone |
| ProjectGallery.CollectCardsSucceedsIff | scripts.js:56-75 | the loop ends without an exception exactly when every `.md` entry was fetched and has a non-blank line |
| ProjectGallery.CollectCardsInOrder | scripts.js:56-75 | a successful load has exactly one card per `.md` entry, in listing order, each built from the document fetched for that entry |
| ProjectGallery.CardsCarryFetchedUrl | scripts.js:58-72 | each card's "View Full" URL is the `download_url` of the entry whose document it shows |
| ProjectGallery.FailureIsFirst | scripts.js:56-75 | a failed load reports the first `.md` entry, in listing order, that could not be loaded, and every `.md` entry before it loaded |
| ProjectGallery.FailureIsFinal | scripts.js:52-128 | once an iteration has thrown, no later entry changes the outcome |
| ProjectGallery.ProjectsGrid.AppendCard | scripts.js:75 | `appendChild` adds one card after the existing children and changes nothing else |
| ProjectGallery.ProjectsGrid.ShowError | scripts.js:128 | setting `innerHTML` leaves the error message as the only child |
| ProjectGallery.Render | scripts.js:75-128 | the container after a load: the old children followed by one card per loaded document, or only the error message; `FetchAndRenderProjectCards` is proved to leave exactly this |
| ProjectGallery.ProjectsGrid.FetchAndRenderProjectCards | scripts.js:49-130 | after the loop the children are the previous children followed by one card per `.md` entry in order, or the error message alone after any exception, with no partial card list left |
| Utf16.CodePointAt | contact.js:95 | reading a code point consumes one or two units within the string, and a code point that is not an unpaired surrogate is a Unicode scalar value |
| Utf16.CodePointAtSpec | contact.js:95 | a surrogate is reported unpaired exactly when it is a low one or a high one without a following low one; otherwise the units read are the code point's UTF-16 encoding |
| Utf16.CodePointAtEncoded | contact.js:95 | reading back an encoded code point gives that code point and consumes its whole encoding |
| Utf16.WellFormedAppend | contact.js:84-92 | unless a high surrogate meets a low one at the seam, a concatenation is free of lone surrogates exactly when both parts are |
| Utf16.EncodeCodePointWellFormed | contact.js:84-92 | the UTF-16 encoding of one code point is well-formed and has no surrogate at an edge that could pair with a neighbour |
| Utf16.FromStringWellFormed | contact.js:84-92 | the UTF-16 form of a string literal is well-formed and has no pairable surrogate at either edge |
| Utf16.FromStringAvoids | contact.js:84-92 | a character below U+D800 that a literal does not contain is not among its UTF-16 units |
| UriComponent.Utf8Encode | contact.js:95 | a code point takes one to four UTF-8 octets |
| UriComponent.EncodeURIComponent | contact.js:95 | `encodeURIComponent`; its contract is stated by `DecodeEncode`, `EncodeSucceedsIff`, `EncodeIsPercentEncoded`, `PercentEncodedUnits`, `EncodeLength`, `EscapedWidth`, `EncodeUnreservedUnchanged`, `EncodeOne` and `EncodeAppend` |
| UriComponent.EscapeOctets | contact.js:95 | each octet is written as three units |
| UriComponent.Utf8Shape | contact.js:95 | a single octet is the code point itself (below U+0080); a longer sequence is led by an octet whose leading ones count the octets and is followed by continuation octets; the length grows with the code point |
| UriComponent.Utf8RoundTrip | contact.js:95 | UTF-8 decoding undoes UTF-8 encoding |
| UriComponent.EscapedOctetsRoundTrip | contact.js:95 | reading the `%HH` triplets back gives the octets that were escaped |
| UriComponent.DecodeEncode | contact.js:95 | when the encoder succeeds, percent-decoding its output gives back exactly the input |
| UriComponent.EncodeSucceedsIff | contact.js:95 | the encoder throws a URIError exactly when the text holds a lone surrogate |
| UriComponent.EncodeIsPercentEncoded | contact.js:95 | the output is made only of unreserved units and `%HH` triplets in uppercase hexadecimal |
| UriComponent.PercentEncodedUnits | contact.js:95 | every unit of such output is unreserved, `%` or an uppercase hexadecimal digit |
| UriComponent.EncodeLength | contact.js:95 | the output is at least as long as the input and at most nine times as long, and it has the same length exactly when every unit is unreserved |
| UriComponent.EscapedWidth | contact.js:95 | an escaped code point takes 3, 6, 9 or 12 units according to its UTF-8 length |
| UriComponent.EncodeUnreservedUnchanged | contact.js:95 | text made only of unreserved units is its own encoding |
| UriComponent.EncodeOne | contact.js:95 | a code point at the front of any text is encoded on its own: an unreserved unit is copied as it is (width 1), any other code point becomes the escapes of its UTF-8 octets (width 3, 6, 9 or 12 by `EscapedWidth`) |
| UriComponent.EncodeAppend | contact.js:95 | the encoding of two texts laid end to end is the encoding of the first followed by that of the second, and it throws when either part throws, unless a high surrogate ending the first pairs with a low one starting the second |
| WhatsAppLink.PhoneFallback | contact.js:79 | the phone line is never empty; any non-empty entry is kept unchanged, and `Not provided` appears exactly when the field is empty or holds that very text |
| WhatsAppLink.PhoneOrDefault | contact.js:79 | the entered phone, or `Not provided` when it is the empty (falsy) string; its contract is stated by `PhoneFallback` |
| WhatsAppLink.MessageLines | contact.js:84-92 | the message's lines; their layout is stated by `MessageLayout` and `MessageSplit` |
| WhatsAppLink.WhatsAppMessage | contact.js:84-92 | the template literal; its contract is stated by `MessageLayout`, `MessageSplit` and `MessageWellFormedIff` |
| WhatsAppLink.WhatsAppUrl | contact.js:95-101 | the link; its contract is stated by `UrlSucceedsIff`, `UrlCarriesMessage` and `SiteUrlSucceedsIff` |
| WhatsAppLink.LiteralIsPlainLine | contact.js:84-92 | a template line without a line feed is a well-formed line with no pairable surrogate at either edge |
| WhatsAppLink.FixedLinesArePlain | contact.js:84-92 | every fixed line of a valid template is such a line, and the phone fallback is non-empty |
| WhatsAppLink.GreetingIsOneLine | contact.js:84 | the greeting holds no line feed |
| WhatsAppLink.LabelsAreOneLine | contact.js:86-89 | the four field labels hold no line feed |
| WhatsAppLink.SiteTemplate | contact.js:84-101 | the fixed text of contact.js: greeting, four-space line, labels, `Not provided` and the `wa.me` prefix with the site's number; `SiteTemplateIsValid` shows it meets the lemmas' assumptions |
| WhatsAppLink.SiteTemplateIsValid | contact.js:84-92 | the template of contact.js, including its four-space second line, meets every assumption of the lemmas below |
| WhatsAppLink.MessageLayout | contact.js:84-92 | when name, e-mail, phone and reason hold no line feed, the message's lines are the greeting, the indentation line, the four labelled fields, an empty line and `*Message:*` in this order, followed by the lines of the message field |
| WhatsAppLink.MessageSplit | contact.js:84-92 | for any field values, line feeds in the fields included, the message's lines are the lines of each of its nine parts in turn |
| WhatsAppLink.JoinWellFormed | contact.js:84-92 | lines joined by line feeds are free of lone surrogates exactly when every line is |
| WhatsAppLink.LabelledWellFormed | contact.js:86-89 | a label in front of a field does not change whether the field is well-formed |
| WhatsAppLink.MessageWellFormedIff | contact.js:84-95 | the message is free of lone surrogates exactly when all five fields are |
| WhatsAppLink.UrlSucceedsIff | contact.js:95-101 | a link is built exactly when no field holds a lone surrogate |
| WhatsAppLink.EncodedHasNoDelimiter | contact.js:95 | the encoded message holds no `&`, `=`, `#`, `?`, `+` or space |
| WhatsAppLink.PrefixedEncoding | contact.js:101 | the link is the prefix followed by the encoded message, which holds no query delimiter, is at least as long as the message and decodes back to it |
| WhatsAppLink.UrlCarriesMessage | contact.js:95-101 | a built link starts with the `wa.me` prefix, and the rest holds no query delimiter, is at least as long as the message and decodes to exactly the message |
| WhatsAppLink.SiteUrl | contact.js:101 | the link contact.js builds; its contract is stated by `SiteUrlSucceedsIff`, and `UrlCarriesMessage` applies to it |
| WhatsAppLink.SiteUrlSucceedsIff | contact.js:76-101 | with the template of contact.js, the link is built exactly when no field holds a lone surrogate |

## Left out

- Network I/O is not performed. The listing response is a `Listing` value: a rejected request or non-JSON body, a non-iterable value, or the entries. The documents are a map from download URL to the text `res.text()` returned. A URL missing from the map stands for a rejected request. An HTTP error status is not a rejection of `fetch`, so its body is simply text in the map.
- Listing entries whose `name` is not a string are not modelled. Such an entry makes `endsWith` throw. Each entry is a name and a download URL.
- `marked.parse` is a Markdown renderer outside the repository. A card therefore carries the preview Markdown, not HTML.
- The card and error markup written through `innerHTML` are not modelled beyond their contents. A card is an element holding its title, preview and URL. The markup is not escaped in the source, and that is not modelled either.
- The reveal animations (IntersectionObserver), the "View Full" popup with its timers, the navigation toggle and the hero interval are left out. They are DOM and timing effects.
- `console.error` in the catch block is left out: it only logs.
- The GSAP animations, focus effects, `window.open` and `reset()` in contact.js are left out. They are side effects of a foreign library and the browser.
- The form's values are parameters: `value` of the inputs, and the display text of the selected reason option.
- Gallery text (documents, names and URLs) is modelled as sequences of Unicode scalar values, not UTF-16 code units. `res.text()` decodes UTF-8 and cannot produce a lone surrogate. The names and `download_url`s come from `res.json()`, where a `\uD800` escape could produce one; the repository's listing reports file names and URLs that are valid Unicode, and the code only compares them with the ASCII pattern `.md` and passes them on unchanged, so a lone surrogate there would only be carried into the title or link unchanged; the model cannot represent such a name. Every character the gallery code inspects (`\n`, `#`, whitespace, `.md`) is a single unit.
- The decoding functions (`HexValue`, `EscapedOctets`, `Utf8Decode`, `DecodeURIComponent`) follow the Decode operation of ECMA-262 with an empty reserved set. They are not called by contact.js. They exist as the partner of the encoder in the round-trip lemmas.
- UriComponent.EncodeLength: bounds the output per code unit, at most nine units per input unit. The per-code-point widths 1, 3, 6, 9 and 12 follow from `UriComponent.EncodeOne` and `UriComponent.EscapedWidth`, and `UriComponent.EncodeAppend` adds them up over a text.
- WhatsAppLink.MessageLayout: requires that name, e-mail, phone and reason hold no line feed. The form's single-line inputs strip line breaks from their values, and an option's text is one line. The page's HTML is not part of this model, so this is a precondition. `WhatsAppLink.MessageSplit` states the message's lines for any field values without it.
