/**
 The allowlist engine of the door controller: the in-memory list of
 authorised card identifiers, the case-insensitive access decision, the
 refresh protocol against the access-point server, and the path of the
 notification sent for a rejected card.

 The server is abstracted to the parsed outcome of each `/allcardsid`
 request, supplied as a script consumed one response per request.
 */
module RFIDUtils {
  import opened Wrappers
  import opened ArduinoString
  import opened Effects

  /** Capacity of the EEPROM card table. */
  const MaxCards: nat := 10
  /**
   Interval of the refresh timer: two hours, in milliseconds. Kept only to
   document the timer; the model takes the timer's answer as an input.
   */
  const RefreshIntervalMs: nat := 7200000
  /** The identifiers the constructor writes into the EEPROM table. */
  const SeedCards: seq<string> := ["B1EE2C2B", "2644C832", "F5766A6C"]
  /** Path of the request that fetches every authorised card. */
  const AllCardsPath: string := "/allcardsid"
  /** Prefix of the path that displays a message on the server. */
  const MessagePathPrefix: string := "/displaymessagetosever?message="

  /**
   The state of the `RFIDUtils` object: the live allowlist and the EEPROM
   card table (a slot is `None` when its pointer was never set).
   */
  datatype Rfid = Rfid(cardsIdList: seq<string>, eeprom: seq<Option<string>>)

  /** The constructor: an empty live list and the seeded EEPROM table. */
  function New(): (u: Rfid)
    ensures u.cardsIdList == []
    ensures |u.eeprom| == MaxCards
    ensures forall i :: 0 <= i < |SeedCards| ==> u.eeprom[i] == Some(SeedCards[i])
    ensures forall i :: |SeedCards| <= i < MaxCards ==> u.eeprom[i] == None
  {
    Rfid([], seq(MaxCards, i => if 0 <= i < |SeedCards| then Some(SeedCards[i]) else None))
  }

  // ---------------------------------------------------------------------
  // Access decision

  /** Some entry of the list equals the query up to ASCII case. */
  ghost predicate Listed(cards: seq<string>, cardId: string) {
    exists i :: 0 <= i < |cards| && EqualsIgnoreCase(cards[i], cardId)
  }

  /** The linear scan from position `i`: true at the first matching entry. */
  function ScanFrom(cards: seq<string>, cardId: string, i: nat): (r: bool)
    requires i <= |cards|
    ensures r <==> exists j :: i <= j < |cards| && EqualsIgnoreCase(cards[j], cardId)
    decreases |cards| - i
  {
    if i == |cards| then false
    else if EqualsIgnoreCase(cards[i], cardId) then true
    else ScanFrom(cards, cardId, i + 1)
  }

  /**
   `isCardIdAllowed`: false at once on an empty list, otherwise true exactly
   when some entry matches ignoring case. It returns only a boolean: the
   state it reads is not changed.
   */
  function IsCardIdAllowed(u: Rfid, cardIdParam: string): (r: bool)
    ensures |u.cardsIdList| == 0 ==> !r
    ensures r <==> Listed(u.cardsIdList, cardIdParam)
  {
    if |u.cardsIdList| == 0 then false
    else ScanFrom(u.cardsIdList, cardIdParam, 0)
  }

  // ---------------------------------------------------------------------
  // Refresh protocol

  /**
   The parsed outcome of one `/allcardsid` request: either the outer
   `{statusCode, data}` document failed to parse, or it carries a status
   code and the `card_id` values of the `cards` array inside `data`
   (`None` when that array is null, missing, or `data` did not parse).
   */
  datatype Response =
    | EnvelopeParseError
    | Envelope(statusCode: int, cards: Option<seq<string>>)

  /** A 200 response whose `cards` array is null or empty: the retry case. */
  predicate EmptySuccess(resp: Response) {
    resp.Envelope? && resp.statusCode == 200 && (resp.cards.None? || |resp.cards.value| == 0)
  }

  /**
   The list a response that ends the refresh leaves behind, given the backup
   taken before the request: nothing after a parse error, the server's cards
   after a 200, the backup after any other status.
   */
  function Settle(backup: seq<string>, resp: Response): seq<string>
    requires !EmptySuccess(resp)
  {
    match resp
    case EnvelopeParseError => []
    case Envelope(code, cards) => if code == 200 then cards.value else backup
  }

  /** The entries a `for (JsonObject card : cards)` loop appends. */
  function CardIds(cards: Option<seq<string>>): seq<string> {
    match cards
    case None => []
    case Some(ids) => ids
  }

  /**
   The result of a refresh: the new state, how many requests it sent, the
   responses left unconsumed, and whether it is still blocked waiting for a
   response the script does not hold (the live list is cleared meanwhile).
   */
  datatype Sync = Sync(state: Rfid, requests: nat, rest: seq<Response>, blocked: bool)

  /**
   `updateCardsIdList`: back up the list, clear it, send one request, then
   leave the list empty on a parse error, restore the backup on a status
   other than 200, take the server's cards on a 200 with cards, or restore
   the backup and start over on a 200 without cards.

   In closed form: every response before the last one consumed was an empty
   success, and the last one decides the list through `Settle` applied to
   the list as it was before the refresh.
   */
  function UpdateCardsIdList(u: Rfid, script: seq<Response>): (r: Sync)
    ensures r.state.eeprom == u.eeprom
    ensures 1 <= r.requests <= |script| + 1
    ensures r.blocked <==> r.requests == |script| + 1
    ensures forall j :: 0 <= j < r.requests - 1 ==> EmptySuccess(script[j])
    ensures r.blocked ==> r.state.cardsIdList == [] && r.rest == []
    ensures !r.blocked ==>
              && r.rest == script[r.requests..]
              && !EmptySuccess(script[r.requests - 1])
              && r.state.cardsIdList == Settle(u.cardsIdList, script[r.requests - 1])
    decreases |script|
  {
    var backup := u.cardsIdList;
    var cleared := u.(cardsIdList := []);
    if |script| == 0 then Sync(cleared, 1, [], true)
    else
      match script[0]
      case EnvelopeParseError => Sync(cleared, 1, script[1..], false)
      case Envelope(statusCode, data) =>
        if statusCode == 200 then
          var filled := cleared.(cardsIdList := cleared.cardsIdList + CardIds(data));
          if data.None? || |data.value| == 0 then
            var again := UpdateCardsIdList(filled.(cardsIdList := filled.cardsIdList + backup), script[1..]);
            again.(requests := again.requests + 1)
          else Sync(filled, 1, script[1..], false)
        else Sync(cleared.(cardsIdList := cleared.cardsIdList + backup), 1, script[1..], false)
  }

  /** `updateCardsIdListOnSetup`: the refresh, without condition. */
  function UpdateCardsIdListOnSetup(u: Rfid, script: seq<Response>): (r: Sync)
    ensures r.requests >= 1
    ensures r == UpdateCardsIdList(u, script)
  {
    UpdateCardsIdList(u, script)
  }

  /**
   `updateCardsIdListOnTime`: the refresh only when the timer fires; `fire`
   stands for the timer's answer.
   */
  function UpdateCardsIdListOnTime(u: Rfid, fire: bool, script: seq<Response>): (r: Sync)
    ensures r.requests > 0 <==> fire
    ensures fire ==> r == UpdateCardsIdList(u, script)
    ensures !fire ==> r.state == u && r.rest == script && !r.blocked
  {
    if fire then UpdateCardsIdList(u, script) else Sync(u, 0, script, false)
  }

  /**
   Whatever the timer says, a refresh leaves the list it started from, the
   empty list, or a list the server sent in a 200 response, and consumes a
   prefix of the script.
   */
  lemma RefreshProvenance(u: Rfid, fire: bool, script: seq<Response>)
    ensures var r := UpdateCardsIdListOnTime(u, fire, script);
            && |r.rest| <= |script| && r.rest == script[|script| - |r.rest|..]
            && (r.state.cardsIdList == u.cardsIdList || r.state.cardsIdList == []
                || Envelope(200, Some(r.state.cardsIdList)) in script)
  {
    var r := UpdateCardsIdListOnTime(u, fire, script);
    if fire && !r.blocked {
      assert script[r.requests - 1].Envelope? && script[r.requests - 1].statusCode == 200 ==>
               script[r.requests - 1] == Envelope(200, Some(r.state.cardsIdList));
    }
  }

  // ---------------------------------------------------------------------
  // Notification

  /**
   `sendMessageToServer`: the request it sends, whose path is the fixed
   prefix followed by the message with every space written as `%20`.
   */
  function SendMessageToServer(message: string): (a: Action)
    ensures a.HttpGet? && ' ' !in a.path
    ensures a.path == MessagePathPrefix + EncodeSpaces(message)
    ensures |a.path| >= |MessagePathPrefix| && a.path[..|MessagePathPrefix|] == MessagePathPrefix
    ensures '%' !in message ==> DecodeSpaces(a.path[|MessagePathPrefix|..]) == message
    ensures ' ' !in message ==> a.path == MessagePathPrefix + message
  {
    var encoded := EncodeSpaces(message);
    var path := MessagePathPrefix + encoded;
    assert ' ' !in MessagePathPrefix;
    SplitConcat(MessagePathPrefix, encoded, ' ');
    assert '%' !in message ==> DecodeSpaces(EncodeSpaces(message)) == message by {
      if '%' !in message { EncodeSpacesRoundTrip(message); }
    }
    assert ' ' !in message ==> EncodeSpaces(message) == message by {
      if ' ' !in message { EncodeSpacesWithoutSpaces(message); }
    }
    HttpGet(path)
  }
}
