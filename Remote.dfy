/**
 * The card API client: `fetchCardDescription` and `saveCardDescription`.
 * The network is not modelled; what the server answers is an input, and the
 * request the client sends is recorded as an effect.
 */
module Remote {
  import opened Wrappers
  import opened Effects

  /**
   * What the GET request produced: a failure (transport error, a response
   * that is not ok, or a body that is not JSON), or a JSON body whose `desc`
   * field may be missing.
   */
  datatype FetchReply = FetchFailed | FetchBody(desc: Option<string>)

  datatype FetchOutcome = FetchOutcome(text: Option<string>, effects: seq<Effect>)

  /**
   * `fetchCardDescription`: one GET request; failure yields no text and a
   * console diagnostic; a missing or empty `desc` yields the empty text. It
   * never reloads the page or alerts.
   */
  function FetchCardDescription(shortLink: string, reply: FetchReply): (o: FetchOutcome)
    ensures Requests(o.effects) == [FetchRequest(shortLink)]
    ensures o.text.None? <==> reply.FetchFailed?
    ensures reply.FetchBody? ==> o.text == Some(reply.desc.GetOr(""))
    ensures Occurrences(o.effects, ConsoleError(FetchErrorMessage)) == if reply.FetchFailed? then 1 else 0
    ensures forall k :: 0 <= k < |o.effects| ==> !o.effects[k].Reload? && !o.effects[k].Alert?
  {
    var get, log := FetchRequest(shortLink), ConsoleError(FetchErrorMessage);
    Single(get, log);
    match reply
    case FetchFailed =>
      Pair(get, log, log);
      Single(log, log);
      FetchOutcome(None, [get, log])
    case FetchBody(desc) =>
      FetchOutcome(Some(desc.GetOr("")), [get])
  }

  datatype SaveOutcome = SaveOutcome(success: bool, effects: seq<Effect>)

  /**
   * The token check of `saveCardDescription`: `!dsc` holds for a missing and
   * for an empty token, so only a non-empty token is usable.
   */
  predicate HasUsableToken(dsc: Option<string>) {
    dsc.Some? && dsc.value != ""
  }

  /**
   * The PUT of `saveCardDescription` once a usable token is known: one
   * request carrying the text and the token; a rejected request is logged.
   */
  function PutDescription(shortLink: string, desc: string, token: string, putOk: bool): (o: SaveOutcome)
    ensures Requests(o.effects) == [PutRequest(shortLink, desc, token)]
    ensures o.success <==> putOk
    ensures Occurrences(o.effects, ConsoleError(SaveErrorMessage)) == if putOk then 0 else 1
    ensures Occurrences(o.effects, Reload) == 0 && Occurrences(o.effects, Alert(SaveFailedAlert)) == 0
    ensures forall k :: 0 <= k < |o.effects| ==> !o.effects[k].Reload? && !o.effects[k].Alert?
  {
    var put, log := PutRequest(shortLink, desc, token), ConsoleError(SaveErrorMessage);
    Single(put, Reload);
    Single(put, Alert(SaveFailedAlert));
    Single(put, log);
    if putOk then
      SaveOutcome(true, [put])
    else
      Single(log, Reload);
      Single(log, Alert(SaveFailedAlert));
      Single(log, log);
      Pair(put, log, Reload);
      Pair(put, log, Alert(SaveFailedAlert));
      Pair(put, log, log);
      SaveOutcome(false, [put, log])
  }

  /**
   * `saveCardDescription`, given what `getCsrfToken()` returned: without a
   * usable token it fails before any request; otherwise it sends exactly one
   * PUT carrying the given text and the token, and succeeds exactly when the
   * server accepts it.
   */
  function SaveCardDescription(shortLink: string, desc: string, dsc: Option<string>, putOk: bool): (o: SaveOutcome)
    ensures !HasUsableToken(dsc) ==> !o.success && Requests(o.effects) == []
                                     && Occurrences(o.effects, ConsoleError(NoTokenMessage)) == 1
    ensures HasUsableToken(dsc) ==>
              Requests(o.effects) == [PutRequest(shortLink, desc, dsc.value)] && (o.success <==> putOk)
    ensures Occurrences(o.effects, Reload) == 0 && Occurrences(o.effects, Alert(SaveFailedAlert)) == 0
    ensures forall k :: 0 <= k < |o.effects| ==> !o.effects[k].Reload? && !o.effects[k].Alert?
  {
    if dsc.None? || dsc.value == "" then
      var log := ConsoleError(NoTokenMessage);
      Single(log, Reload);
      Single(log, Alert(SaveFailedAlert));
      Single(log, log);
      SaveOutcome(false, [log])
    else
      PutDescription(shortLink, desc, dsc.value, putOk)
  }
}
