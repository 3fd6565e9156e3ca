/** The older, top-level Pub/Sub listener. Its constructor resolves the
    subscription exactly as the infrastructure listener does (module
    Subscription); its message callback has no handler and an older settle
    policy: ack once the payload has been decoded, whether or not it parses
    as JSON, and settle nothing when anything raises. */
module LegacyListener {
  import opened Common
  import PubSubListener

  datatype Settlement = Acked | Unsettled

  /** `_on_message` of the legacy listener. The JSON parse is attempted but
      its result is not used. */
  function OnMessage(m: PubSubListener.Delivery, dec: PubSubListener.Decoders): (r: Settlement)
    ensures r == Acked <==> PubSubListener.DecodePayload(m, dec).Some?
  {
    match PubSubListener.DecodePayload(m, dec)
    case Some(text) =>
      var _ := dec.jsonLoads(text);
      Acked
    case None => Unsettled
  }

  /** The JSON parser has no say in the settlement. */
  lemma JsonDoesNotMatter(m: PubSubListener.Delivery, utf8: seq<byte> -> Option<string>,
                          json1: string -> Option<PubSubListener.Json>, json2: string -> Option<PubSubListener.Json>)
    ensures OnMessage(m, PubSubListener.Decoders(utf8, json1)) == OnMessage(m, PubSubListener.Decoders(utf8, json2))
  {
  }

  /** Absent or empty data decodes to "", so such a message is always acked. */
  lemma EmptyDataIsAcked(attributes: map<string, string>, dec: PubSubListener.Decoders)
    ensures OnMessage(PubSubListener.Delivery(None, attributes), dec) == Acked
    ensures OnMessage(PubSubListener.Delivery(Some([]), attributes), dec) == Acked
  {
  }

  /** Where the infrastructure listener nacks a message whose data fails to
      decode, the legacy one leaves it unsettled. */
  lemma DecodeFailureDiffers(m: PubSubListener.Delivery, dec: PubSubListener.Decoders,
                             handler: Option<PubSubListener.Handler>)
    requires PubSubListener.DecodePayload(m, dec).None?
    ensures OnMessage(m, dec) == Unsettled
    ensures PubSubListener.OnMessage(m, handler, dec).settlement == PubSubListener.Nack
  {
  }
}
