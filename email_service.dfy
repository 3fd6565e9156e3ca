/** The message extractor of the email service: it turns a Gmail message
    resource into a flat email record (headers looked up case-insensitively,
    first text/plain and first text/html body in depth-first pre-order,
    one attachment descriptor per part with a filename), and `HandleEvent`
    resolves the message id of an event, fetches the message, fills in
    missing attachment data and hands the record to the database. */
module EmailService {
  import opened Common

  // ---------------------------------------------------------------------
  // The Gmail message resource, reduced to the keys the service reads.
  // An absent key is `None`.
  // ---------------------------------------------------------------------

  datatype Header = Header(name: Option<string>, value: Option<string>)

  /** `part["body"]`: inline base64url data, its size, and the id under which
      a large attachment must be fetched separately. */
  datatype PartBody = PartBody(data: Option<string>, size: Option<int>, attachmentId: Option<string>)

  /** One node of the MIME tree; the top-level `payload` is a part as well
      (it is the only one whose `headers` are read). */
  datatype Part = Part(
    mimeType: Option<string>,
    headers: seq<Header>,
    body: Option<PartBody>,
    filename: Option<string>,
    parts: seq<Part>)

  datatype Message = Message(
    id: Option<string>,
    threadId: Option<string>,
    historyId: Option<string>,
    internalDate: Option<string>,
    snippet: Option<string>,
    payload: Option<Part>)

  /** An attachment descriptor. `data` is absent until it has been materialised. */
  datatype Attachment = Attachment(
    filename: string,
    mimeType: Option<string>,
    size: Option<int>,
    attachmentId: Option<string>,
    data: Option<string>)

  datatype EmailRecord = EmailRecord(
    id: Option<string>,
    threadId: Option<string>,
    historyId: Option<string>,
    internalDate: Option<string>,
    subject: string,
    sender: string,
    to: string,
    cc: string,
    bcc: string,
    snippet: string,
    bodyText: string,
    bodyHtml: string,
    attachments: seq<Attachment>)

  /** The codecs the service uses, left uninterpreted: base64url-to-UTF-8 text
      decoding (which may fail) and base64 encoding of fetched bytes. */
  datatype Codec = Codec(
    b64DecodeText: string -> Option<string>,
    b64Encode: seq<byte> -> string)

  // ---------------------------------------------------------------------
  // Headers
  // ---------------------------------------------------------------------

  function HeaderKey(h: Header): string {
    Lower(h.name.GetOr(""))
  }

  function HeaderValue(h: Header): string {
    h.value.GetOr("")
  }

  /** The dict comprehension `{name.lower(): value for h in headers}`:
      entries are inserted left to right, so a later duplicate overwrites. */
  function HeaderMap(hs: seq<Header>): (m: map<string, string>)
    ensures forall key :: key in m <==> exists i :: 0 <= i < |hs| && HeaderKey(hs[i]) == key
  {
    if hs == [] then map[]
    else HeaderMap(hs[..|hs| - 1])[HeaderKey(hs[|hs| - 1]) := HeaderValue(hs[|hs| - 1])]
  }

  /** `headers.get(key, "")` */
  function Lookup(m: map<string, string>, key: string): string {
    if key in m then m[key] else ""
  }

  /** When several headers share a lower-cased name, the value of the last one
      is what the map holds. */
  lemma {:induction false} HeaderLastWins(hs: seq<Header>, key: string, i: int)
    requires 0 <= i < |hs| && HeaderKey(hs[i]) == key
    requires forall j :: i < j < |hs| ==> HeaderKey(hs[j]) != key
    ensures Lookup(HeaderMap(hs), key) == HeaderValue(hs[i])
  {
    if i < |hs| - 1 {
      var prefix := hs[..|hs| - 1];
      HeaderLastWins(prefix, key, i);
    }
  }

  /** A name that no header carries (after lower-casing) is looked up as "". */
  lemma {:induction false} HeaderMissing(hs: seq<Header>, key: string)
    requires forall j :: 0 <= j < |hs| ==> HeaderKey(hs[j]) != key
    ensures key !in HeaderMap(hs)
    ensures Lookup(HeaderMap(hs), key) == ""
  {
    if hs != [] {
      HeaderMissing(hs[..|hs| - 1], key);
    }
  }

  /** `v` is what the headers say for `key`: the value of the last header
      whose lower-cased name is `key`, or "" when there is none. */
  predicate HeaderValueOf(hs: seq<Header>, key: string, v: string) {
    (forall i :: 0 <= i < |hs| && HeaderKey(hs[i]) == key && (forall j :: i < j < |hs| ==> HeaderKey(hs[j]) != key) ==>
       v == HeaderValue(hs[i])) &&
    ((forall j :: 0 <= j < |hs| ==> HeaderKey(hs[j]) != key) ==> v == "")
  }

  /** The header map answers every lookup as the headers say. */
  lemma HeaderLookup(hs: seq<Header>, key: string)
    ensures HeaderValueOf(hs, key, Lookup(HeaderMap(hs), key))
  {
    forall i | 0 <= i < |hs| && HeaderKey(hs[i]) == key && (forall j :: i < j < |hs| ==> HeaderKey(hs[j]) != key)
      ensures Lookup(HeaderMap(hs), key) == HeaderValue(hs[i])
    {
      HeaderLastWins(hs, key, i);
    }
    if forall j :: 0 <= j < |hs| ==> HeaderKey(hs[j]) != key {
      HeaderMissing(hs, key);
    }
  }

  /** Every key of the header map is already lower-case, so a lookup with an
      upper-case letter in its key finds nothing. */
  lemma {:induction false} HeaderMapKeysLower(hs: seq<Header>, key: string)
    requires key in HeaderMap(hs)
    ensures Lower(key) == key
  {
    var last := hs[|hs| - 1];
    if key == HeaderKey(last) {
      LowerIdempotent(last.name.GetOr(""));
    } else {
      HeaderMapKeysLower(hs[..|hs| - 1], key);
    }
  }

  /** Lookups ignore the case of header names: a header written in any ASCII
      casing of "Subject" is found under "subject". */
  lemma HeaderCaseInsensitive(name: string, value: string)
    requires Lower(name) == "subject"
    ensures Lookup(HeaderMap([Header(Some(name), Some(value))]), "subject") == value
  {
    assert [Header(Some(name), Some(value))][..0] == [];
  }

  // ---------------------------------------------------------------------
  // The MIME walk: specification
  // ---------------------------------------------------------------------

  /** The nodes of a part tree in depth-first pre-order (parent first). */
  function Preorder(p: Part): (r: seq<Part>)
    ensures |r| > 0 && r[0] == p
    decreases p, 1
  {
    [p] + PreorderAll(p.parts)
  }

  function PreorderAll(ps: seq<Part>): seq<Part>
    decreases ps, 0
  {
    if ps == [] then [] else Preorder(ps[0]) + PreorderAll(ps[1..])
  }

  lemma {:induction false} PreorderAllAppend(ps: seq<Part>, i: int)
    requires 0 <= i < |ps|
    ensures PreorderAll(ps[..i + 1]) == PreorderAll(ps[..i]) + Preorder(ps[i])
    decreases i
  {
    if i == 0 {
      assert ps[..1][1..] == [];
    } else {
      assert ps[..i + 1][0] == ps[..i][0] == ps[0];
      assert ps[..i + 1][1..] == ps[1..][..i];
      assert ps[..i][1..] == ps[1..][..i - 1];
      PreorderAllAppend(ps[1..], i - 1);
    }
  }

  function InlineData(p: Part): Option<string> {
    if p.body.Some? then p.body.value.data else None
  }

  /** `decode_data`: "" for absent or empty input and for a failed decode. */
  function DecodeData(codec: Codec, b64: Option<string>): (r: string)
    ensures !Truthy(b64) ==> r == ""
    ensures Truthy(b64) && codec.b64DecodeText(b64.value).None? ==> r == ""
    ensures Truthy(b64) && codec.b64DecodeText(b64.value).Some? ==> r == codec.b64DecodeText(b64.value).value
  {
    if !Truthy(b64) then ""
    else match codec.b64DecodeText(b64.value)
      case Some(text) => text
      case None => ""
  }

  /** What part `p` would contribute as the body of MIME type `mime`: its
      decoded inline data when it has that type and carries data. */
  function Candidate(p: Part, mime: string, codec: Codec): string {
    if p.mimeType == Some(mime) && Truthy(InlineData(p)) then DecodeData(codec, InlineData(p)) else ""
  }

  /** The first non-empty candidate body of type `mime` along `ps`. */
  function FirstBody(ps: seq<Part>, mime: string, codec: Codec): string {
    if ps == [] then ""
    else if Candidate(ps[0], mime, codec) != "" then Candidate(ps[0], mime, codec)
    else FirstBody(ps[1..], mime, codec)
  }

  /** A body variable that already holds text keeps it; an empty one takes the
      first non-empty candidate of `ps`. */
  function Keep(current: string, ps: seq<Part>, mime: string, codec: Codec): string {
    if current != "" then current else FirstBody(ps, mime, codec)
  }

  lemma {:induction false} FirstBodyAppend(a: seq<Part>, b: seq<Part>, mime: string, codec: Codec)
    ensures FirstBody(a + b, mime, codec) == Keep(FirstBody(a, mime, codec), b, mime, codec)
  {
    if a != [] {
      assert (a + b)[0] == a[0];
      assert (a + b)[1..] == a[1..] + b;
      FirstBodyAppend(a[1..], b, mime, codec);
    } else {
      assert a + b == b;
    }
  }

  lemma KeepAppend(current: string, a: seq<Part>, b: seq<Part>, mime: string, codec: Codec)
    ensures Keep(Keep(current, a, mime, codec), b, mime, codec) == Keep(current, a + b, mime, codec)
  {
    FirstBodyAppend(a, b, mime, codec);
  }

  /** "First wins", in both directions: a non-empty result is the candidate of
      some part of `ps` and every part before it contributes nothing; an empty
      result means that no part contributes. */
  lemma {:induction false} FirstBodyIsFirst(ps: seq<Part>, mime: string, codec: Codec)
    ensures FirstBody(ps, mime, codec) == "" <==>
      forall j :: 0 <= j < |ps| ==> Candidate(ps[j], mime, codec) == ""
    ensures FirstBody(ps, mime, codec) != "" ==>
      exists i :: 0 <= i < |ps| && FirstBody(ps, mime, codec) == Candidate(ps[i], mime, codec) &&
        forall j :: 0 <= j < i ==> Candidate(ps[j], mime, codec) == ""
  {
    if ps != [] {
      FirstBodyIsFirst(ps[1..], mime, codec);
      if Candidate(ps[0], mime, codec) == "" {
        assert forall j :: 1 <= j < |ps| ==> ps[j] == ps[1..][j - 1];
        if FirstBody(ps, mime, codec) != "" {
          var k :| 0 <= k < |ps[1..]| && FirstBody(ps[1..], mime, codec) == Candidate(ps[1..][k], mime, codec) &&
            forall j :: 0 <= j < k ==> Candidate(ps[1..][j], mime, codec) == "";
          assert FirstBody(ps, mime, codec) == Candidate(ps[k + 1], mime, codec);
          assert forall j :: 0 <= j < k + 1 ==> Candidate(ps[j], mime, codec) == "" by {
            forall j | 0 <= j < k + 1 ensures Candidate(ps[j], mime, codec) == "" {
              if j > 0 { assert ps[j] == ps[1..][j - 1]; }
            }
          }
        }
      }
    }
  }

  /** The descriptor `walk` appends for a part with a filename: inline data
      is kept only when non-empty. */
  function Descriptor(p: Part): (a: Attachment)
    requires Truthy(p.filename)
    ensures a.filename == p.filename.value && a.filename != ""
    ensures a.data.Some? <==> Truthy(InlineData(p))
    ensures a.data.Some? ==> a.data == InlineData(p)
  {
    var body := p.body.GetOr(PartBody(None, None, None));
    Attachment(p.filename.value, p.mimeType, body.size, body.attachmentId,
               if Truthy(body.data) then body.data else None)
  }

  /** One descriptor per part with a filename, in the order of `ps`. */
  function Descriptors(ps: seq<Part>): seq<Attachment> {
    if ps == [] then []
    else (if Truthy(ps[0].filename) then [Descriptor(ps[0])] else []) + Descriptors(ps[1..])
  }

  lemma {:induction false} DescriptorsAppend(a: seq<Part>, b: seq<Part>)
    ensures Descriptors(a + b) == Descriptors(a) + Descriptors(b)
  {
    if a != [] {
      assert (a + b)[0] == a[0];
      assert (a + b)[1..] == a[1..] + b;
      DescriptorsAppend(a[1..], b);
    } else {
      assert a + b == b;
    }
  }

  /** Every descriptor comes from a part of `ps` that carries a filename. */
  lemma {:induction false} DescriptorsFromFilenames(ps: seq<Part>, a: Attachment)
    requires a in Descriptors(ps)
    ensures exists i :: 0 <= i < |ps| && Truthy(ps[i].filename) && a == Descriptor(ps[i])
  {
    if a !in (if Truthy(ps[0].filename) then [Descriptor(ps[0])] else []) {
      DescriptorsFromFilenames(ps[1..], a);
      var k :| 0 <= k < |ps[1..]| && Truthy(ps[1..][k].filename) && a == Descriptor(ps[1..][k]);
      assert ps[k + 1] == ps[1..][k];
    }
  }

  /** Every part of `ps` that carries a filename yields a descriptor. */
  lemma {:induction false} FilenamesYieldDescriptors(ps: seq<Part>, i: int)
    requires 0 <= i < |ps| && Truthy(ps[i].filename)
    ensures Descriptor(ps[i]) in Descriptors(ps)
  {
    if i > 0 {
      assert ps[i] == ps[1..][i - 1];
      FilenamesYieldDescriptors(ps[1..], i - 1);
    }
  }

  /** A parent's descriptor precedes those of its children. */
  lemma ParentBeforeChildren(p: Part)
    requires Truthy(p.filename)
    ensures Descriptors(Preorder(p)) == [Descriptor(p)] + Descriptors(PreorderAll(p.parts))
  {
    DescriptorsAppend([p], PreorderAll(p.parts));
  }

  /** The nodes `_parse_payload` visits: none for an absent payload. */
  function Nodes(payload: Option<Part>): seq<Part> {
    if payload.Some? then Preorder(payload.value) else []
  }

  // ---------------------------------------------------------------------
  // The MIME walk: the recursive procedure
  // ---------------------------------------------------------------------

  /** `walk(part)`, with the three variables it updates through `nonlocal`
      passed in and out. */
  method Walk(part: Part, codec: Codec, text: string, html: string, atts: seq<Attachment>)
    returns (text': string, html': string, atts': seq<Attachment>)
    ensures text' == Keep(text, Preorder(part), "text/plain", codec)
    ensures html' == Keep(html, Preorder(part), "text/html", codec)
    ensures atts' == atts + Descriptors(Preorder(part))
    decreases part
  {
    text', html', atts' := Visit(part, codec, text, html, atts);
    ghost var visited := [part];
    var i := 0;
    while i < |part.parts|
      invariant 0 <= i <= |part.parts|
      invariant visited == [part] + PreorderAll(part.parts[..i])
      invariant text' == Keep(text, visited, "text/plain", codec)
      invariant html' == Keep(html, visited, "text/html", codec)
      invariant atts' == atts + Descriptors(visited)
    {
      ghost var before := visited;
      text', html', atts' := Walk(part.parts[i], codec, text', html', atts');
      PreorderAllAppend(part.parts, i);
      visited := before + Preorder(part.parts[i]);
      WalkStep(text, html, atts, before, Preorder(part.parts[i]), codec);
      i := i + 1;
    }
    assert part.parts[..i] == part.parts;
  }

  /** The part of `walk` that looks at one node: its inline body fills the
      first empty slot of its type, and a named part becomes an attachment. */
  method Visit(part: Part, codec: Codec, text: string, html: string, atts: seq<Attachment>)
    returns (text': string, html': string, atts': seq<Attachment>)
    ensures text' == Keep(text, [part], "text/plain", codec)
    ensures html' == Keep(html, [part], "text/html", codec)
    ensures atts' == atts + Descriptors([part])
  {
    text', html', atts' := text, html, atts;
    var data := InlineData(part);
    if Truthy(data) {
      var decoded := DecodeData(codec, data);
      if part.mimeType == Some("text/plain") && text' == "" {
        text' := decoded;
      } else if part.mimeType == Some("text/html") && html' == "" {
        html' := decoded;
      }
    }
    if Truthy(part.filename) {
      atts' := atts' + [Descriptor(part)];
    }
    ghost var visited := [part];
    assert text' == Keep(text, visited, "text/plain", codec) by {
      assert visited[1..] == [];
      assert FirstBody(visited, "text/plain", codec) == Candidate(part, "text/plain", codec);
    }
    assert html' == Keep(html, visited, "text/html", codec) by {
      assert visited[1..] == [];
      assert FirstBody(visited, "text/html", codec) == Candidate(part, "text/html", codec);
    }
    assert atts' == atts + Descriptors(visited) by {
      assert visited[1..] == [];
    }
  }

  /** Walking one more subtree after the nodes `before` extends the visited
      sequence by its nodes. */
  lemma WalkStep(text: string, html: string, atts: seq<Attachment>, before: seq<Part>, sub: seq<Part>, codec: Codec)
    ensures Keep(Keep(text, before, "text/plain", codec), sub, "text/plain", codec) == Keep(text, before + sub, "text/plain", codec)
    ensures Keep(Keep(html, before, "text/html", codec), sub, "text/html", codec) == Keep(html, before + sub, "text/html", codec)
    ensures atts + Descriptors(before) + Descriptors(sub) == atts + Descriptors(before + sub)
  {
    KeepAppend(text, before, sub, "text/plain", codec);
    KeepAppend(html, before, sub, "text/html", codec);
    DescriptorsAppend(before, sub);
  }

  /** `_parse_payload`: the first non-empty text/plain and text/html bodies and
      the attachment descriptors, all along the pre-order of the payload. */
  method ParsePayload(payload: Option<Part>, codec: Codec)
    returns (text: string, html: string, atts: seq<Attachment>)
    ensures text == FirstBody(Nodes(payload), "text/plain", codec)
    ensures html == FirstBody(Nodes(payload), "text/html", codec)
    ensures atts == Descriptors(Nodes(payload))
  {
    text, html, atts := "", "", [];
    if payload.Some? {
      text, html, atts := Walk(payload.value, codec, text, html, atts);
    }
  }

  /** An absent payload yields no bodies and no attachments. */
  lemma EmptyPayload(codec: Codec)
    ensures FirstBody(Nodes(None), "text/plain", codec) == ""
    ensures FirstBody(Nodes(None), "text/html", codec) == ""
    ensures Descriptors(Nodes(None)) == []
  {
  }

  // ---------------------------------------------------------------------
  // `_extract_email_details`
  // ---------------------------------------------------------------------

  function TopHeaders(msg: Message): seq<Header> {
    if msg.payload.Some? then msg.payload.value.headers else []
  }

  /** The normalised record. Each header field is the value of the last
      header whose lower-cased name matches, or "" when there is none; the
      bodies and attachments come from the pre-order walk of the payload. */
  function ExtractEmailDetails(msg: Message, codec: Codec): (r: EmailRecord)
    ensures r.id == msg.id && r.threadId == msg.threadId
    ensures r.historyId == msg.historyId && r.internalDate == msg.internalDate
    ensures r.snippet == msg.snippet.GetOr("")
    ensures HeaderValueOf(TopHeaders(msg), "subject", r.subject) && HeaderValueOf(TopHeaders(msg), "from", r.sender)
    ensures HeaderValueOf(TopHeaders(msg), "to", r.to) && HeaderValueOf(TopHeaders(msg), "cc", r.cc)
    ensures HeaderValueOf(TopHeaders(msg), "bcc", r.bcc)
    ensures r.bodyText == FirstBody(Nodes(msg.payload), "text/plain", codec)
    ensures r.bodyHtml == FirstBody(Nodes(msg.payload), "text/html", codec)
    ensures r.attachments == Descriptors(Nodes(msg.payload))
  {
    var headers := HeaderMap(TopHeaders(msg));
    var r := EmailRecord(
      msg.id, msg.threadId, msg.historyId, msg.internalDate,
      Lookup(headers, "subject"), Lookup(headers, "from"), Lookup(headers, "to"),
      Lookup(headers, "cc"), Lookup(headers, "bcc"),
      msg.snippet.GetOr(""),
      FirstBody(Nodes(msg.payload), "text/plain", codec),
      FirstBody(Nodes(msg.payload), "text/html", codec),
      Descriptors(Nodes(msg.payload)));
    HeaderLookup(TopHeaders(msg), "subject");
    HeaderLookup(TopHeaders(msg), "from");
    HeaderLookup(TopHeaders(msg), "to");
    HeaderLookup(TopHeaders(msg), "cc");
    HeaderLookup(TopHeaders(msg), "bcc");
    r
  }

  // ---------------------------------------------------------------------
  // `handle_event`
  // ---------------------------------------------------------------------

  /** `payload["message"]`: a dict (whose "id" is read) or some other value. */
  datatype MessageField = MessageDict(id: Option<string>) | NotADict

  /** The event payload, reduced to the three places a message id may sit. */
  datatype EventPayload = EventPayload(
    messageId: Option<string>,
    gmailMessageId: Option<string>,
    message: Option<MessageField>)

  /** `message_id or gmailMessageId or message.id` (the last only when
      `message` is a dict); an empty string counts as missing. */
  function ResolveMessageId(p: EventPayload): (r: Option<string>)
    ensures r.Some? ==> r.value != ""
    ensures Truthy(p.messageId) ==> r == p.messageId
    ensures !Truthy(p.messageId) && Truthy(p.gmailMessageId) ==> r == p.gmailMessageId
    ensures !Truthy(p.messageId) && !Truthy(p.gmailMessageId) ==>
      (r.Some? <==> p.message.Some? && p.message.value.MessageDict? && Truthy(p.message.value.id))
    ensures r.Some? ==>
      (r == p.messageId || r == p.gmailMessageId ||
       (p.message.Some? && p.message.value.MessageDict? && r == p.message.value.id))
  {
    if Truthy(p.messageId) then p.messageId
    else if Truthy(p.gmailMessageId) then p.gmailMessageId
    else match p.message
      case Some(MessageDict(id)) => if Truthy(id) then id else None
      case _ => None
  }

  /** What `fetch_attachment` hands back. */
  datatype Blob = Bytes(bytes: seq<byte>) | Text(text: string) | OtherValue

  /** The Gmail client as the service sees it: whether it is there at all,
      the messages `fetch_message` returns (an absent id raises), whether it
      offers `fetch_attachment`, and what that returns per (message id,
      attachment id) (an absent pair raises). */
  datatype GmailClient = GmailClient(
    available: bool,
    messages: map<string, Message>,
    canFetchAttachment: bool,
    attachments: map<(string, string), Blob>)

  /** The database: whether it offers `save_email`. A save that raises is
      logged and swallowed, so whether it raises changes neither the result
      nor the calls made. */
  datatype Database = Database(hasSaveEmail: bool)

  /** The calls `handle_event` makes on its collaborators, in order. */
  datatype Effect =
    | FetchMessage(messageId: string)
    | FetchAttachment(messageId: string, attachmentId: string)
    | SaveEmail(email: EmailRecord)

  predicate WantsFetch(a: Attachment, gmail: GmailClient) {
    a.data.None? && Truthy(a.attachmentId) && gmail.canFetchAttachment
  }

  /** One attachment after the lazy fetch: bytes are stored base64-encoded, a
      string as it is; a failed fetch or any other value leaves it as it was. */
  function Materialize(a: Attachment, mid: string, gmail: GmailClient, codec: Codec): (r: Attachment)
    ensures r.(data := a.data) == a
    ensures !WantsFetch(a, gmail) ==> r == a
    ensures a.data.Some? ==> r.data == a.data
    ensures WantsFetch(a, gmail) && (mid, a.attachmentId.value) !in gmail.attachments ==> r.data.None?
    ensures WantsFetch(a, gmail) && (mid, a.attachmentId.value) in gmail.attachments ==>
      match gmail.attachments[(mid, a.attachmentId.value)]
      case Bytes(b) => r.data == Some(codec.b64Encode(b))
      case Text(s) => r.data == Some(s)
      case OtherValue => r.data.None?
  {
    if WantsFetch(a, gmail) && (mid, a.attachmentId.value) in gmail.attachments then
      match gmail.attachments[(mid, a.attachmentId.value)]
      case Bytes(b) => a.(data := Some(codec.b64Encode(b)))
      case Text(s) => a.(data := Some(s))
      case OtherValue => a
    else a
  }

  function MaterializeAll(atts: seq<Attachment>, mid: string, gmail: GmailClient, codec: Codec): (r: seq<Attachment>)
    ensures |r| == |atts|
    ensures forall k :: 0 <= k < |atts| ==> r[k] == Materialize(atts[k], mid, gmail, codec)
  {
    seq(|atts|, k requires 0 <= k < |atts| => Materialize(atts[k], mid, gmail, codec))
  }

  function FetchOf(a: Attachment, mid: string, gmail: GmailClient): seq<Effect> {
    if WantsFetch(a, gmail) then [FetchAttachment(mid, a.attachmentId.value)] else []
  }

  /** The attachment fetches of the loop, in order. */
  function AttachmentFetches(atts: seq<Attachment>, mid: string, gmail: GmailClient): seq<Effect> {
    if atts == [] then []
    else AttachmentFetches(atts[..|atts| - 1], mid, gmail) + FetchOf(atts[|atts| - 1], mid, gmail)
  }

  /** An attachment is fetched exactly when its data is missing, it has an
      attachment id, and the client can fetch attachments. */
  lemma {:induction false} AttachmentFetchesExactly(atts: seq<Attachment>, mid: string, gmail: GmailClient, e: Effect)
    ensures e in AttachmentFetches(atts, mid, gmail) <==>
      exists k :: 0 <= k < |atts| && WantsFetch(atts[k], gmail) &&
        e == FetchAttachment(mid, atts[k].attachmentId.value)
  {
    if atts != [] {
      var init := atts[..|atts| - 1];
      AttachmentFetchesExactly(init, mid, gmail, e);
      if exists k :: (0 <= k < |atts| && WantsFetch(atts[k], gmail) &&
                      e == FetchAttachment(mid, atts[k].attachmentId.value))
      {
        var k :| 0 <= k < |atts| && WantsFetch(atts[k], gmail) &&
          e == FetchAttachment(mid, atts[k].attachmentId.value);
        if k < |atts| - 1 { assert atts[k] == init[k]; }
      }
      if e in AttachmentFetches(init, mid, gmail) {
        var k :| 0 <= k < |init| && WantsFetch(init[k], gmail) &&
          e == FetchAttachment(mid, init[k].attachmentId.value);
        assert atts[k] == init[k];
      }
    }
  }

  /** The loop of `handle_event` that fills in missing attachment data in
      place. Returns the attachment fetches it made, in order. */
  lemma AttachmentFetchesStep(atts: seq<Attachment>, i: nat, mid: string, gmail: GmailClient)
    requires i < |atts|
    ensures AttachmentFetches(atts[..i + 1], mid, gmail) == AttachmentFetches(atts[..i], mid, gmail) + FetchOf(atts[i], mid, gmail)
  {
    assert atts[..i + 1][..i] == atts[..i];
  }

  /** The loop body for one attachment: fetch it when it has no data but an
      id, and fill in the data the client returns. */
  method FetchOne(attachment: Attachment, mid: string, gmail: GmailClient, codec: Codec)
    returns (updated: Attachment, fetch: seq<Effect>)
    ensures updated == Materialize(attachment, mid, gmail, codec)
    ensures fetch == FetchOf(attachment, mid, gmail)
  {
    updated, fetch := attachment, [];
    if attachment.data.None? && Truthy(attachment.attachmentId) && gmail.canFetchAttachment {
      fetch := [FetchAttachment(mid, attachment.attachmentId.value)];
      var key := (mid, attachment.attachmentId.value);
      if key in gmail.attachments {
        match gmail.attachments[key]
        case Bytes(b) => updated := attachment.(data := Some(codec.b64Encode(b)));
        case Text(s) => updated := attachment.(data := Some(s));
        case OtherValue =>
      }
    }
  }

  method FetchMissingAttachments(attachments: array<Attachment>, mid: string, gmail: GmailClient, codec: Codec)
    returns (fetches: seq<Effect>)
    modifies attachments
    ensures attachments[..] == MaterializeAll(old(attachments[..]), mid, gmail, codec)
    ensures fetches == AttachmentFetches(old(attachments[..]), mid, gmail)
  {
    ghost var original := attachments[..];
    fetches := [];
    var i := 0;
    while i < attachments.Length
      invariant 0 <= i <= attachments.Length
      invariant forall k :: 0 <= k < i ==> attachments[k] == Materialize(original[k], mid, gmail, codec)
      invariant forall k :: i <= k < attachments.Length ==> attachments[k] == original[k]
      invariant fetches == AttachmentFetches(original[..i], mid, gmail)
    {
      var updated, fetch := FetchOne(attachments[i], mid, gmail, codec);
      attachments[i] := updated;
      fetches := fetches + fetch;
      AttachmentFetchesStep(original, i, mid, gmail);
      i := i + 1;
    }
    assert original[..i] == original;
  }

  /** `handle_event`. Returns the record (or None) and the calls made on the
      Gmail client and the database. A missing id or client, or a failed
      fetch, returns None before any attachment fetch or save; otherwise the
      record is the extracted one with attachments materialised, and it is
      returned whether or not the save raises. */
  method HandleEvent(payload: EventPayload, gmail: GmailClient, db: Database, codec: Codec)
    returns (r: Option<EmailRecord>, effects: seq<Effect>)
    ensures ResolveMessageId(payload).None? || !gmail.available ==> r.None? && effects == []
    ensures (ResolveMessageId(payload).Some? && gmail.available &&
             ResolveMessageId(payload).value !in gmail.messages) ==>
      r.None? && effects == [FetchMessage(ResolveMessageId(payload).value)]
    ensures (ResolveMessageId(payload).Some? && gmail.available &&
             ResolveMessageId(payload).value in gmail.messages) ==>
      var id := ResolveMessageId(payload).value;
      var extracted := ExtractEmailDetails(gmail.messages[id], codec);
      && r == Some(extracted.(attachments := MaterializeAll(extracted.attachments, id, gmail, codec)))
      && effects == [FetchMessage(id)] + AttachmentFetches(extracted.attachments, id, gmail) +
                    (if db.hasSaveEmail then [SaveEmail(r.value)] else [])
  {
    var messageId := ResolveMessageId(payload);
    if messageId.None? {
      return None, [];
    }
    var id := messageId.value;
    if !gmail.available {
      return None, [];
    }
    effects := [FetchMessage(id)];
    if id !in gmail.messages {
      return None, effects;
    }
    var email := ExtractEmailDetails(gmail.messages[id], codec);
    var original := email.attachments;
    var attachments := new Attachment[|original|](k requires 0 <= k < |original| => original[k]);
    assert attachments[..] == original;
    var fetches := FetchMissingAttachments(attachments, id, gmail, codec);
    effects := effects + fetches;
    email := email.(attachments := attachments[..]);
    if db.hasSaveEmail {
      // `save_email` is attempted; an exception it raises is logged and swallowed.
      effects := effects + [SaveEmail(email)];
    }
    r := Some(email);
  }
}
