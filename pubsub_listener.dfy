/** The Pub/Sub listener's per-message decision: decode the payload, hand the
    parsed JSON (or the raw text) to the handler, and settle the message with
    exactly one ack or nack: nack for a transient handler error or a failure
    before the handler, ack otherwise. */
module PubSubListener {
  import opened Common

  /** The retryable exception types of google.api_core, and the rest. */
  datatype ApiCoreError = ServiceUnavailable | DeadlineExceeded | InternalServerError | TooManyRequests | OtherApiCoreError

  /** The exception a message handler raises, by kind. `Http` is
      googleapiclient's HttpError with its status, absent when the status
      cannot be read as an integer. */
  datatype HandlerError =
    | Timeout
    | ConnectionFailure
    | ApiCore(kind: ApiCoreError)
    | Http(status: Option<int>)
    | OtherError

  /** `_is_transient_error`, checked in the source's order: timeouts and
      connection errors, then the four retryable api_core types, then an
      HttpError whose status is a 5xx or 429. Transient are exactly timeouts,
      connection errors, the four api_core kinds, and HttpErrors with a
      retryable status; everything else is terminal. */
  function IsTransientError(e: HandlerError): (r: bool)
    ensures r <==>
      match e
      case Timeout => true
      case ConnectionFailure => true
      case ApiCore(k) => !k.OtherApiCoreError?
      case Http(status) => status.Some? && RetryableStatus(status.value)
      case OtherError => false
  {
    if e.Timeout? || e.ConnectionFailure? then true
    else if e.ApiCore? && e.kind in {ServiceUnavailable, DeadlineExceeded, InternalServerError, TooManyRequests} then true
    else if e.Http? && e.status.Some? && e.status.value != 0 && (e.status.value >= 500 || e.status.value == 429) then true
    else false
  }

  /** The HTTP statuses worth a retry. */
  predicate RetryableStatus(status: int) {
    status == 429 || 500 <= status
  }

  /** A JSON value as produced by the parser; numbers are integers here
      (floats, NaN and Infinity are not represented). */
  datatype Json =
    | JNull
    | JBool(b: bool)
    | JNumber(n: int)
    | JString(s: string)
    | JArray(items: seq<Json>)
    | JObject(fields: map<string, Json>)

  /** What the handler receives: the parsed JSON, or the raw text when it
      does not parse. */
  datatype Payload = Parsed(json: Json) | Raw(text: string)

  /** A delivered message: its data (absent or empty when there is none) and
      its attributes. */
  datatype Delivery = Delivery(data: Option<seq<byte>>, attributes: map<string, string>)

  /** The decoders, left uninterpreted; each may fail. */
  datatype Decoders = Decoders(utf8Decode: seq<byte> -> Option<string>, jsonLoads: string -> Option<Json>)

  /** What the handler did with a payload. */
  datatype HandlerOutcome = Returned | Raised(error: HandlerError)

  type Handler = (Payload, map<string, string>) -> HandlerOutcome

  datatype Settlement = Ack | Nack

  /** The effects of one `_on_message` call: the payload handed to the
      handler (if it was called) and how the message was settled. */
  datatype Dispatch = Dispatch(handled: Option<Payload>, settlement: Settlement)

  /** `message.data.decode("utf-8") if message.data else ""`; None when the
      UTF-8 decoding fails. */
  function DecodePayload(m: Delivery, dec: Decoders): (r: Option<string>)
    ensures (m.data.None? || m.data.value == []) ==> r == Some("")
    ensures m.data.Some? && m.data.value != [] ==> r == dec.utf8Decode(m.data.value)
  {
    if m.data.None? || m.data.value == [] then Some("") else dec.utf8Decode(m.data.value)
  }

  /** `json.loads(payload)`, falling back to the raw text. */
  function ParseOrRaw(text: string, dec: Decoders): (r: Payload)
    ensures dec.jsonLoads(text).None? ==> r == Raw(text)
    ensures dec.jsonLoads(text).Some? ==> r == Parsed(dec.jsonLoads(text).value)
  {
    match dec.jsonLoads(text)
    case Some(j) => Parsed(j)
    case None => Raw(text)
  }

  /** `_on_message`. A message whose data does not decode is nacked without
      reaching the handler. Otherwise the handler (when there is one) gets the
      parsed or raw payload and the attributes; the message is nacked iff the
      handler raised a transient error, and acked in every other case. */
  function OnMessage(m: Delivery, handler: Option<Handler>, dec: Decoders): (r: Dispatch)
    ensures r.handled.Some? <==> DecodePayload(m, dec).Some? && handler.Some?
    ensures r.handled.Some? ==> r.handled.value == ParseOrRaw(DecodePayload(m, dec).value, dec)
    ensures r.settlement == Nack <==>
      DecodePayload(m, dec).None? ||
      (handler.Some? &&
       var outcome := handler.value(ParseOrRaw(DecodePayload(m, dec).value, dec), m.attributes);
       outcome.Raised? && IsTransientError(outcome.error))
  {
    match DecodePayload(m, dec)
    case None => Dispatch(None, Nack)
    case Some(text) =>
      var payload := ParseOrRaw(text, dec);
      match handler
      case None => Dispatch(None, Ack)
      case Some(h) =>
        match h(payload, m.attributes)
        case Returned => Dispatch(Some(payload), Ack)
        case Raised(e) => Dispatch(Some(payload), if IsTransientError(e) then Nack else Ack)
  }

  /** Poison-message protection: a handler that raises a terminal error gets
      its message acked, so it is not redelivered forever. */
  lemma TerminalErrorIsAcked(m: Delivery, h: Handler, dec: Decoders, e: HandlerError)
    requires DecodePayload(m, dec).Some?
    requires h(ParseOrRaw(DecodePayload(m, dec).value, dec), m.attributes) == Raised(e)
    requires !IsTransientError(e)
    ensures OnMessage(m, Some(h), dec) == Dispatch(Some(ParseOrRaw(DecodePayload(m, dec).value, dec)), Ack)
  {
  }

  /** An empty message reaches the handler as the empty string when that does
      not parse as JSON. */
  lemma EmptyDataIsEmptyText(attributes: map<string, string>, h: Handler, dec: Decoders)
    requires dec.jsonLoads("").None?
    ensures OnMessage(Delivery(None, attributes), Some(h), dec).handled == Some(Raw(""))
    ensures OnMessage(Delivery(Some([]), attributes), Some(h), dec).handled == Some(Raw(""))
  {
  }
}
