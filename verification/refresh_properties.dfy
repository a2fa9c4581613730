/**
 Properties of the allowlist engine that relate several calls: the access
 decision under case changes and list changes, each outcome of a refresh
 request, idempotence of a successful refresh, and the worked scenarios.
 */
module RefreshProperties {
  import opened Wrappers
  import opened ArduinoString
  import opened RFIDUtils

  // ---------------------------------------------------------------------
  // Access decision

  /** Queries that differ only in letter case get the same answer. */
  lemma AllowedIgnoresCase(u: Rfid, a: string, b: string)
    requires EqualsIgnoreCase(a, b)
    ensures IsCardIdAllowed(u, a) == IsCardIdAllowed(u, b)
  {
    if IsCardIdAllowed(u, a) {
      var i :| 0 <= i < |u.cardsIdList| && EqualsIgnoreCase(u.cardsIdList[i], a);
      EqualsIgnoreCaseIsEquivalence(u.cardsIdList[i], a, b);
    }
    if IsCardIdAllowed(u, b) {
      var i :| 0 <= i < |u.cardsIdList| && EqualsIgnoreCase(u.cardsIdList[i], b);
      EqualsIgnoreCaseIsEquivalence(a, b, b);
      EqualsIgnoreCaseIsEquivalence(u.cardsIdList[i], b, a);
    }
  }

  /** Every entry of the list is allowed, whatever the case of its letters in the query. */
  lemma ListedEntryAllowed(u: Rfid, i: int, query: string)
    requires 0 <= i < |u.cardsIdList|
    requires Fold(query) == Fold(u.cardsIdList[i])
    ensures IsCardIdAllowed(u, query)
  {
    EqualsIgnoreCaseIsFoldEquality(u.cardsIdList[i], query);
  }

  /**
   The answer depends only on which identifiers are listed, not on their
   order or repetition: a list that holds every entry of another allows at
   least what that one allows.
   */
  lemma AllowedMonotone(u: Rfid, v: Rfid, query: string)
    requires forall x :: x in u.cardsIdList ==> x in v.cardsIdList
    ensures IsCardIdAllowed(u, query) ==> IsCardIdAllowed(v, query)
  {
    if IsCardIdAllowed(u, query) {
      var i :| 0 <= i < |u.cardsIdList| && EqualsIgnoreCase(u.cardsIdList[i], query);
      assert u.cardsIdList[i] in v.cardsIdList;
    }
  }

  // ---------------------------------------------------------------------
  // One refresh request, by outcome

  /** A status other than 200 gives back the list exactly as it was, with no retry. */
  lemma StatusErrorRestores(u: Rfid, code: int, cards: Option<seq<string>>, rest: seq<Response>)
    requires code != 200
    ensures UpdateCardsIdList(u, [Envelope(code, cards)] + rest) == Sync(u, 1, rest, false)
  {
    assert ([Envelope(code, cards)] + rest)[1..] == rest;
  }

  /** An outer parse error leaves the list empty, even if it held cards before. */
  lemma ParseErrorEmpties(u: Rfid, rest: seq<Response>)
    ensures UpdateCardsIdList(u, [EnvelopeParseError] + rest) == Sync(u.(cardsIdList := []), 1, rest, false)
  {
    assert ([EnvelopeParseError] + rest)[1..] == rest;
  }

  /**
   A 200 with a non-empty `cards` array replaces the list by the server's
   identifiers, in order and with duplicates, dropping what was there.
   */
  lemma SuccessReplaces(u: Rfid, ids: seq<string>, rest: seq<Response>)
    requires |ids| > 0
    ensures UpdateCardsIdList(u, [Envelope(200, Some(ids))] + rest) == Sync(u.(cardsIdList := ids), 1, rest, false)
  {
    assert ([Envelope(200, Some(ids))] + rest)[1..] == rest;
  }

  /**
   A 200 whose `cards` array is null or empty restores the backup and starts
   over: the refresh continues exactly as a fresh one from the list as it
   was, one request later.
   */
  lemma EmptySuccessReenters(u: Rfid, resp: Response, rest: seq<Response>)
    requires EmptySuccess(resp)
    ensures var again := UpdateCardsIdList(u, rest);
            UpdateCardsIdList(u, [resp] + rest) == again.(requests := again.requests + 1)
  {
    var script := [resp] + rest;
    assert script[0] == resp && script[1..] == rest;
    assert CardIds(resp.cards) == [];
    assert [] + CardIds(resp.cards) + u.cardsIdList == u.cardsIdList;
    assert u.(cardsIdList := u.cardsIdList) == u;
  }

  /**
   The first response that is not an empty success decides the refresh, and
   it is applied to the list as it was before the refresh started.
   */
  lemma FirstDecisiveResponseDecides(u: Rfid, script: seq<Response>, k: int)
    requires 0 <= k < |script| && !EmptySuccess(script[k])
    requires forall j :: 0 <= j < k ==> EmptySuccess(script[j])
    ensures UpdateCardsIdList(u, script)
            == Sync(u.(cardsIdList := Settle(u.cardsIdList, script[k])), k + 1, script[k + 1..], false)
  {
    var r := UpdateCardsIdList(u, script);
    assert r.requests == k + 1;
  }

  /** A server that only ever answers 200 without cards keeps the refresh waiting with the list cleared. */
  lemma EmptySuccessesStall(u: Rfid, script: seq<Response>)
    requires forall j :: 0 <= j < |script| ==> EmptySuccess(script[j])
    ensures UpdateCardsIdList(u, script) == Sync(u.(cardsIdList := []), |script| + 1, [], true)
  {
  }

  /**
   A list that held cards is lost only through an outer parse error (or
   while a request is still outstanding): no other outcome empties it.
   */
  lemma EmptiedOnlyByParseError(u: Rfid, script: seq<Response>)
    requires |u.cardsIdList| > 0
    ensures var r := UpdateCardsIdList(u, script);
            r.state.cardsIdList == [] ==> r.blocked || script[r.requests - 1] == EnvelopeParseError
  {
  }

  /** Applying the same successful response twice gives the same list as applying it once. */
  lemma SuccessIdempotent(u: Rfid, ids: seq<string>)
    requires |ids| > 0
    ensures var once := UpdateCardsIdList(u, [Envelope(200, Some(ids))]);
            UpdateCardsIdList(once.state, [Envelope(200, Some(ids))]).state == once.state
  {
  }

  /** The refresh never writes the EEPROM table, whichever trigger ran it. */
  lemma RefreshKeepsSnapshot(u: Rfid, fire: bool, script: seq<Response>)
    ensures UpdateCardsIdListOnSetup(u, script).state.eeprom == u.eeprom
    ensures UpdateCardsIdListOnTime(u, fire, script).state.eeprom == u.eeprom
  {
  }

  // ---------------------------------------------------------------------
  // Worked scenarios

  /** A listed upper-case identifier is allowed when queried in lower case. */
  lemma ScenarioLowerCaseQuery()
    ensures IsCardIdAllowed(Rfid(["B1EE2C2B", "2644C832"], []), "b1ee2c2b")
  {
    var u := Rfid(["B1EE2C2B", "2644C832"], []);
    var q := "b1ee2c2b";
    assert forall i :: 0 <= i < 8 ==> ToLower(u.cardsIdList[0][i]) == ToLower(q[i]);
    assert EqualsIgnoreCase(u.cardsIdList[0], q);
  }

  /** A 200 carrying one card makes that card the whole list. */
  lemma ScenarioOneCard(u: Rfid)
    ensures UpdateCardsIdList(u, [Envelope(200, Some(["AA11BB22"]))]).state.cardsIdList == ["AA11BB22"]
  {
  }

  /** A 500 keeps the list that was there. */
  lemma ScenarioServerError(u: Rfid)
    requires u.cardsIdList == ["AA11BB22"]
    ensures UpdateCardsIdList(u, [Envelope(500, Some([]))]).state.cardsIdList == ["AA11BB22"]
  {
  }

  /** A 200 without cards followed by a 500: two requests, and the list as it was. */
  lemma ScenarioRetryThenError(u: Rfid)
    ensures UpdateCardsIdList(u, [Envelope(200, Some([])), Envelope(500, None)])
            == Sync(u, 2, [], false)
  {
    FirstDecisiveResponseDecides(u, [Envelope(200, Some([])), Envelope(500, None)], 1);
  }
}
