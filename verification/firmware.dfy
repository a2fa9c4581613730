/**
 The sketch that drives the door: `setup()` locks the door and loads the
 allowlist once, and every pass of `loop()` turns a scanned UID into a card
 identifier, opens the door or reports the card, locks the door again and
 gives the timer a chance to refresh the allowlist.

 The card reader is abstracted to two booleans (a new card is present; its
 serial was read) and the UID bytes; the timer to the boolean `fire`.
 */
module Firmware {
  import opened Wrappers
  import opened ArduinoString
  import opened Effects
  import opened RFIDUtils

  /** The concatenated, unpadded hexadecimal digits of the UID bytes, in order. */
  function HexConcat(uid: seq<Byte>): (id: string)
    ensures |uid| <= |id| <= 2 * |uid|
    ensures forall i :: 0 <= i < |id| ==> IsLowerHexDigit(id[i])
  {
    if |uid| == 0 then [] else HexConcat(uid[..|uid| - 1]) + ByteToHex(uid[|uid| - 1])
  }

  /** The identifier of a scanned card: the hex concatenation, then `trim`. */
  function ReadCardId(uid: seq<Byte>): (cardId: string)
    ensures cardId == HexConcat(uid)
  {
    var raw := HexConcat(uid);
    assert forall i :: 0 <= i < |raw| ==> !IsSpace(raw[i]);
    TrimWithoutSpaces(raw);
    Trim(raw)
  }

  /** The text reported to the server for a card that is not allowed. */
  function RejectionMessage(cardId: string): string {
    "Card id " + cardId + " is not allowed!"
  }

  /**
   What a pass of `loop()` or `setup()` leaves: the new state, the effects
   in the order they happened, the unconsumed server responses, and whether
   the pass is still blocked on a refresh request.
   */
  datatype Pass = Pass(state: Rfid, actions: seq<Action>, rest: seq<Response>, blocked: bool)

  /**
   `setup()`: the object has been constructed; the relay is switched off,
   then the allowlist is refreshed unconditionally.
   */
  function Setup(script: seq<Response>): (r: Pass)
    ensures |r.actions| >= 2 && r.actions[0] == RelayOff
    ensures forall i :: 1 <= i < |r.actions| ==> r.actions[i] == HttpGet(AllCardsPath)
    ensures r.state.eeprom == New().eeprom
    ensures r.state.cardsIdList != [] ==> Envelope(200, Some(r.state.cardsIdList)) in script
    ensures var refresh := UpdateCardsIdList(New(), script);
            && r.state == refresh.state && r.rest == refresh.rest && r.blocked == refresh.blocked
            && |r.actions| == 1 + refresh.requests
  {
    var refresh := UpdateCardsIdListOnSetup(New(), script);
    assert !refresh.blocked && refresh.state.cardsIdList != [] ==>
             script[refresh.requests - 1] == Envelope(200, Some(refresh.state.cardsIdList));
    Pass(refresh.state, [RelayOff] + Requests(AllCardsPath, refresh.requests), refresh.rest, refresh.blocked)
  }

  /**
   The effects of a handled card: the decision's effect, the relay locked,
   then `n` refresh requests. The relay is opened only if the decision was
   to open it.
   */
  function Actuate(decision: Action, n: nat): (acts: seq<Action>)
    ensures |acts| == n + 2 && acts[0] == decision && acts[1] == RelayOff
    ensures forall i :: 2 <= i < |acts| ==> acts[i] == HttpGet(AllCardsPath)
    ensures RelayOn in acts <==> decision == RelayOn
  {
    var acts := [decision, RelayOff] + Requests(AllCardsPath, n);
    assert RelayOn in acts ==> decision == RelayOn by {
      if RelayOn in acts {
        var k :| 0 <= k < |acts| && acts[k] == RelayOn;
        assert k == 0;
      }
    }
    acts
  }

  /**
   One pass of `loop()`. Without a new card, or when its serial cannot be
   read, nothing happens. Otherwise the decision is taken on the list as it
   stands, the door is opened or the card is reported, the door is locked,
   and the timer-gated refresh runs last.
   */
  function Loop(u: Rfid, cardPresent: bool, serialRead: bool, uid: seq<Byte>,
                fire: bool, script: seq<Response>): (r: Pass)
    ensures !cardPresent || !serialRead ==> r == Pass(u, [], script, false)
    ensures cardPresent && serialRead ==>
              && |r.actions| >= 2
              && (RelayOn in r.actions <==> IsCardIdAllowed(u, HexConcat(uid)))
              && (IsCardIdAllowed(u, HexConcat(uid)) ==> r.actions[0] == RelayOn)
              && (!IsCardIdAllowed(u, HexConcat(uid)) ==>
                    r.actions[0] == SendMessageToServer(RejectionMessage(HexConcat(uid))))
              && r.actions[1] == RelayOff
              && (forall i :: 2 <= i < |r.actions| ==> r.actions[i] == HttpGet(AllCardsPath))
              && (|r.actions| > 2 <==> fire)
    ensures !fire ==> r.state == u && r.rest == script && !r.blocked
    ensures cardPresent && serialRead && fire ==>
              var refresh := UpdateCardsIdList(u, script);
              && r.state == refresh.state && r.rest == refresh.rest && r.blocked == refresh.blocked
              && |r.actions| == 2 + refresh.requests
    ensures r.state.eeprom == u.eeprom
  {
    if !cardPresent || !serialRead then Pass(u, [], script, false)
    else
      var cardId := ReadCardId(uid);
      var decision :=
        if IsCardIdAllowed(u, cardId) then RelayOn
        else SendMessageToServer(RejectionMessage(cardId));
      var refresh := UpdateCardsIdListOnTime(u, fire, script);
      var acts := Actuate(decision, refresh.requests);
      Pass(refresh.state, acts, refresh.rest, refresh.blocked)
  }

  /** What the reader and the timer answer in one pass of `loop()`. */
  datatype Scan = Scan(cardPresent: bool, serialRead: bool, uid: seq<Byte>, fire: bool)

  /** Successive passes of `loop()`, stopping early if a refresh is left waiting. */
  function Run(u: Rfid, scans: seq<Scan>, script: seq<Response>): Pass
    decreases |scans|
  {
    if |scans| == 0 then Pass(u, [], script, false)
    else
      var p := Loop(u, scans[0].cardPresent, scans[0].serialRead, scans[0].uid, scans[0].fire, script);
      if p.blocked then p
      else
        var q := Run(p.state, scans[1..], p.rest);
        Pass(q.state, p.actions + q.actions, q.rest, q.blocked)
  }

  /** `rest` is what is left of `script` after a prefix was consumed. */
  ghost predicate IsSuffix<T>(rest: seq<T>, script: seq<T>) {
    |rest| <= |script| && rest == script[|script| - |rest|..]
  }

  /** A suffix of a suffix is a suffix, and what a suffix holds the whole script holds. */
  lemma SuffixOfSuffix<T>(rest: seq<T>, mid: seq<T>, script: seq<T>, x: T)
    requires IsSuffix(rest, mid) && IsSuffix(mid, script)
    ensures IsSuffix(rest, script)
    ensures x in mid ==> x in script
  {
    assert script[|script| - |rest|..] == mid[|mid| - |rest|..];
    if x in mid {
      var j :| 0 <= j < |mid| && mid[j] == x;
      assert script[|script| - |mid| + j] == x;
    }
  }

  /** One pass: the list is the old one, empty, or one the server sent with status 200. */
  lemma LoopProvenance(u: Rfid, scan: Scan, script: seq<Response>)
    ensures var p := Loop(u, scan.cardPresent, scan.serialRead, scan.uid, scan.fire, script);
            && IsSuffix(p.rest, script)
            && (p.state.cardsIdList == u.cardsIdList || p.state.cardsIdList == []
                || Envelope(200, Some(p.state.cardsIdList)) in script)
  {
    RefreshProvenance(u, scan.fire, script);
  }

  /**
   However many passes run, the allowlist is the one they started from, the
   empty list, or a list the server sent in a 200 response; the EEPROM table
   is never written; the responses left are a suffix of the script.
   */
  lemma {:induction false} RunListProvenance(u: Rfid, scans: seq<Scan>, script: seq<Response>)
    ensures var r := Run(u, scans, script);
            && r.state.eeprom == u.eeprom
            && IsSuffix(r.rest, script)
            && (r.state.cardsIdList == u.cardsIdList || r.state.cardsIdList == []
                || Envelope(200, Some(r.state.cardsIdList)) in script)
    decreases |scans|
  {
    if |scans| == 0 {
      assert script[|script| - |script|..] == script;
    } else {
      var p := Loop(u, scans[0].cardPresent, scans[0].serialRead, scans[0].uid, scans[0].fire, script);
      LoopProvenance(u, scans[0], script);
      if !p.blocked {
        var q := Run(p.state, scans[1..], p.rest);
        RunListProvenance(p.state, scans[1..], p.rest);
        SuffixOfSuffix(q.rest, p.rest, script, Envelope(200, Some(q.state.cardsIdList)));
      }
    }
  }

  /** Every pass that handles a card ends with the door locked, whatever the relay was. */
  lemma LoopEndsLocked(u: Rfid, uid: seq<Byte>, fire: bool, script: seq<Response>, high: bool)
    ensures !RelayAfter(high, Loop(u, true, true, uid, fire, script).actions)
  {
    var acts := Loop(u, true, true, uid, fire, script).actions;
    RelayAfterLastWrite(high, acts, 1);
  }

  /**
   The allowlist after `setup()`: the first response that is not a 200
   without cards decides it, starting from the constructor's empty list, so
   it holds the server's cards after a 200 and nothing otherwise; one
   request was sent per response up to that one.
   */
  lemma SetupFirstDecisiveResponse(script: seq<Response>, k: int)
    requires 0 <= k < |script| && !EmptySuccess(script[k])
    requires forall j :: 0 <= j < k ==> EmptySuccess(script[j])
    ensures Setup(script).state.cardsIdList == Settle([], script[k])
    ensures |Setup(script).actions| == k + 2
    ensures Setup(script).rest == script[k + 1..] && !Setup(script).blocked
  {
    var refresh := UpdateCardsIdList(New(), script);
    assert refresh.requests == k + 1;
    assert !refresh.blocked && refresh.rest == script[k + 1..];
    assert refresh.state.cardsIdList == Settle([], script[k]);
  }

  /** `setup()` leaves the door locked: the refresh requests do not touch the relay. */
  lemma SetupEndsLocked(script: seq<Response>, high: bool)
    ensures !RelayAfter(high, Setup(script).actions)
  {
    RelayAfterLastWrite(high, Setup(script).actions, 0);
  }

  /** The identifier of a longer UID extends the identifier of its prefix. */
  lemma {:induction false} HexConcatAppend(a: seq<Byte>, b: seq<Byte>)
    ensures HexConcat(a + b) == HexConcat(a) + HexConcat(b)
    decreases |b|
  {
    if |b| == 0 {
      assert a + b == a;
    } else {
      var b' := b[..|b| - 1];
      assert (a + b)[..|a + b| - 1] == a + b';
      HexConcatAppend(a, b');
    }
  }

  /** Each byte contributes its own digits: a one-byte UID gives exactly `String(b, HEX)`. */
  lemma HexConcatSingle(b: Byte)
    ensures HexConcat([b]) == ByteToHex(b)
  {
    assert [b][..0] == [];
  }

  /**
   Without padding, different UIDs can give the same identifier:
   01 23 and 12 03 both read as "123".
   */
  lemma HexConcatNotInjective()
    ensures HexConcat([0x01, 0x23]) == HexConcat([0x12, 0x03]) == "123"
  {
    var a: seq<Byte> := [0x01, 0x23];
    var b: seq<Byte> := [0x12, 0x03];
    assert a[..1] == [0x01];
    assert b[..1] == [0x12];
    HexConcatSingle(0x01);
    HexConcatSingle(0x12);
    assert ByteToHex(0x01) == "1";
    assert ByteToHex(0x23) == "23";
    assert ByteToHex(0x12) == "12";
    assert ByteToHex(0x03) == "3";
    assert HexConcat(a) == HexConcat([0x01]) + ByteToHex(0x23);
    assert HexConcat(b) == HexConcat([0x12]) + ByteToHex(0x03);
  }

  /**
   The rejection request of `loop()`: the identifier is hex, so only the
   spaces of the fixed text are encoded.
   */
  lemma RejectionPath(cardId: string)
    requires forall i :: 0 <= i < |cardId| ==> IsLowerHexDigit(cardId[i])
    ensures SendMessageToServer(RejectionMessage(cardId)).path[|MessagePathPrefix|..]
            == EncodeSpaces("Card id ") + cardId + EncodeSpaces(" is not allowed!")
  {
    var message := RejectionMessage(cardId);
    assert SendMessageToServer(message).path[|MessagePathPrefix|..] == EncodeSpaces(message);
    HexHasNoSpace(cardId);
    EncodeSpacesAround("Card id ", cardId, " is not allowed!");
  }

  /** Hexadecimal digits include no space. */
  lemma HexHasNoSpace(id: string)
    requires forall i :: 0 <= i < |id| ==> IsLowerHexDigit(id[i])
    ensures ' ' !in id
  {
  }
}
