/**
 * The parts of a Gmail API message that the transaction bot reads: the
 * headers, the top-level payload and its list of parts
 * (`_extract_html_body` and the subject lookup of `_process_single_message`
 * in transactions/email.py). A key that is missing from the message is the
 * empty string here, which the source treats the same way as a missing key.
 */
module Message {
  import opened Wrappers
  import opened Text

  datatype Header = Header(name: string, value: string)

  /** One MIME part: its `mimeType` and its `body.data` (base64url text). */
  datatype Part = Part(mimeType: string, data: string)

  datatype Payload = Payload(mimeType: string, data: string, parts: seq<Part>, headers: seq<Header>)

  /** Base64url decoding followed by UTF-8 decoding; `None` when either raises. */
  type Decoder = string -> Option<string>

  /** What a lookup returns or that it raised. */
  datatype Outcome<T> = Returned(value: T) | Raised

  predicate IsHtml(p: Part) {
    p.mimeType == "text/html" && p.data != ""
  }

  /** The first header named `subject` in any letter case. */
  function SubjectIndex(headers: seq<Header>): (r: Option<nat>)
    ensures r.Some? ==> r.value < |headers| && Lower(headers[r.value].name) == "subject"
    ensures r.Some? ==> forall n :: 0 <= n < r.value ==> Lower(headers[n].name) != "subject"
    ensures r.None? ==> forall n :: 0 <= n < |headers| ==> Lower(headers[n].name) != "subject"
  {
    if headers == [] then None
    else if Lower(headers[0].name) == "subject" then Some(0)
    else match SubjectIndex(headers[1..])
      case None => None
      case Some(n) => Some(n + 1)
  }

  /** The subject line, or the empty string without a subject header. */
  function Subject(p: Payload): string {
    match SubjectIndex(p.headers)
    case None => ""
    case Some(n) => p.headers[n].value
  }

  /** The index of the first `text/html` part with data. */
  function HtmlPartIndex(parts: seq<Part>): (r: Option<nat>)
    ensures r.Some? ==> r.value < |parts| && IsHtml(parts[r.value])
    ensures r.Some? ==> forall n :: 0 <= n < r.value ==> !IsHtml(parts[n])
    ensures r.None? ==> forall n :: 0 <= n < |parts| ==> !IsHtml(parts[n])
  {
    if parts == [] then None
    else if IsHtml(parts[0]) then Some(0)
    else match HtmlPartIndex(parts[1..])
      case None => None
      case Some(n) => Some(n + 1)
  }

  function Decode(decode: Decoder, data: string): Outcome<Option<string>> {
    match decode(data)
    case None => Raised
    case Some(html) => Returned(Some(html))
  }

  /** The HTML body: the top-level payload when it is HTML with data, otherwise
      the first HTML part with data, otherwise nothing. */
  function HtmlBody(p: Payload, decode: Decoder): (r: Outcome<Option<string>>)
    ensures IsHtml(Part(p.mimeType, p.data)) ==> r == Decode(decode, p.data)
    ensures !IsHtml(Part(p.mimeType, p.data)) ==>
      r == match HtmlPartIndex(p.parts)
           case None => Returned(None)
           case Some(n) => Decode(decode, p.parts[n].data)
  {
    FirstHtmlPartIndex(p.parts, decode);
    if p.mimeType == "text/html" && p.data != "" then Decode(decode, p.data)
    else FirstHtmlPart(p.parts, decode)
  }

  /** The loop over the parts, which returns from the first HTML part with data. */
  function FirstHtmlPart(parts: seq<Part>, decode: Decoder): Outcome<Option<string>> {
    if parts == [] then Returned(None)
    else if parts[0].mimeType == "text/html" && parts[0].data != "" then Decode(decode, parts[0].data)
    else FirstHtmlPart(parts[1..], decode)
  }

  /** The loop returns the decoded first HTML part with data. */
  lemma {:induction false} FirstHtmlPartIndex(parts: seq<Part>, decode: Decoder)
    ensures FirstHtmlPart(parts, decode) ==
      match HtmlPartIndex(parts)
      case None => Returned(None)
      case Some(n) => Decode(decode, parts[n].data)
  {
    if parts != [] && !IsHtml(parts[0]) {
      FirstHtmlPartIndex(parts[1..], decode);
      match HtmlPartIndex(parts[1..])
      case None =>
      case Some(n) => assert parts[1..][n] == parts[n + 1];
    }
  }
}
