# RFID door lock: allowlist engine

A Dafny model of the access-control core of an ESP8266 RFID door lock. The
firmware keeps an in-memory list of authorised card identifiers
(`RFIDUtils::cardsIdList`), answers "is this card allowed?" with a
case-insensitive linear scan, and refreshes the list from an access-point
server at boot and, after that, on the first handled scan once the
two-hour timer has fired. Each pass of the sketch's `loop()` turns
the scanned UID bytes into a hexadecimal identifier, opens the door relay or
reports the card to the server, locks the relay again, and lets the timer
trigger a refresh.

Modules, one per concern of the source:

- `Wrappers` (`wrappers.dfy`): `Option`, used for a JSON field that is null and for an
  EEPROM table slot that was never set.
- `ArduinoString` (`arduino_string.dfy`): the Arduino `String` operations the
  core relies on: `equalsIgnoreCase`, `trim`, `String(b, HEX)`, and
  `replace(" ", "%20")`, with their partners (folding to lower case, reading
  hex digits back, decoding `%20`).
- `Effects` (`effects.dfy`): the observable effects: relay writes and GET
  requests. Also the relay level after a sequence of effects.
- `RFIDUtils` (`rfid_utils.dfy`): the `RFIDUtils` object as an immutable
  value. It covers the constructor, `isCardIdAllowed`, `updateCardsIdList`
  and its two triggers, and the path `sendMessageToServer` requests.
- `Firmware` (`firmware.dfy`): `setup()` and one pass of `loop()` as pure
  functions from inputs to the new state plus the ordered effects. `Run`
  chains many passes.
- `RefreshProperties` (`refresh_properties.dfy`): lemmas relating several
  calls. These cover each refresh outcome, idempotence, the decision under
  case and list changes, and worked scenarios.

How the I/O is abstracted:

- Each `/allcardsid` response is the already-parsed
  `Response = EnvelopeParseError | Envelope(statusCode, cards: Option<seq<string>>)`.
  `cards` is `None` when the `cards` array is null or missing. It is also
  `None` when the inner `data` string does not parse, since that parse
  result is ignored.
- A missing `statusCode` field reads as 0. A transport failure reports a
  negative code. Both are just an `Envelope` whose status is not 200.
- A refresh consumes one response per request from a script. This bounds
  the self-call on an empty success. If the script runs out while a request
  is outstanding, the result is marked `blocked`. In that state the live
  list is empty, because it was cleared before the request.
- The timer's `fire()` is a boolean input. The card reader is two booleans
  (new card present, serial read) plus the UID bytes.

## Model

| member | source | states |
|---|---|---|
| ArduinoString.ToLower | src/lib/RFIDUtils.cpp:46 | only 'A'..'Z' change, each to the letter 32 code points higher |
| ArduinoString.EqualsIgnoreCase | src/lib/RFIDUtils.cpp:46 | true iff the lengths agree and every character pair agrees after lower-casing |
| ArduinoString.EqualsIgnoreCaseIsFoldEquality | src/lib/RFIDUtils.cpp:46 | case-insensitive equality holds iff the two lower-cased strings are equal |
| ArduinoString.EqualsIgnoreCaseIsEquivalence | src/lib/RFIDUtils.cpp:46 | the comparison is reflexive, symmetric and transitive |
| ArduinoString.TrimKeepsCore | src/RFID_SIMPLE_v2.cpp:111 | trim keeps a contiguous slice and drops only whitespace at the two ends |
| ArduinoString.TrimEndsNonSpace | src/RFID_SIMPLE_v2.cpp:111 | what trim keeps starts and ends with a non-space |
| ArduinoString.TrimWithoutSpaces | src/RFID_SIMPLE_v2.cpp:111 | a string without whitespace is unchanged by trim |
| ArduinoString.ByteToHex | src/RFID_SIMPLE_v2.cpp:109 | one or two lower-case hex digits, one exactly when the byte is below 16, no leading zero except for 0 |
| ArduinoString.ByteToHexRoundTrip | src/RFID_SIMPLE_v2.cpp:109 | reading the digits back as base 16 gives the byte |
| ArduinoString.EncodeSpaces | src/lib/RFIDUtils.cpp:63 | the result contains no space and is no shorter than the message |
| ArduinoString.EncodeSpacesRoundTrip | src/lib/RFIDUtils.cpp:63 | for a message without '%', turning every %20 back into a space gives the message: nothing but spaces changed |
| ArduinoString.EncodeSpacesWithoutSpaces | src/lib/RFIDUtils.cpp:63 | a message without spaces is not changed |
| ArduinoString.EncodeSpacesAppend | src/lib/RFIDUtils.cpp:63 | the replacement of a concatenation is the concatenation of the replacements |
| ArduinoString.EncodeSpacesAround | src/lib/RFIDUtils.cpp:63 | a space-free middle part passes through the replacement verbatim |
| Effects.RelayAfterLastWrite | src/RFID_SIMPLE_v2.cpp:50-59 | the relay ends at the level of the last relay write; requests do not move it |
| RFIDUtils.New | src/lib/RFIDUtils.cpp:18-34 | the constructor leaves the live list empty and writes the three seed identifiers into the first slots of the 10-slot EEPROM table, the rest unset |
| RFIDUtils.ScanFrom | src/lib/RFIDUtils.cpp:44-57 | the scan from position i is true iff some later entry matches the query ignoring case |
| RFIDUtils.IsCardIdAllowed | src/lib/RFIDUtils.cpp:36-58 | false on an empty list whatever the query; otherwise true iff some entry equals the query ignoring case; only a boolean is returned |
| RFIDUtils.UpdateCardsIdList | src/lib/RFIDUtils.cpp:82-162 | all responses before the last one consumed were 200 without cards; the last one decides the list from the pre-refresh list: empty on a parse error, the backup on a status other than 200, the server's cards on a 200 with cards; the EEPROM table is not written; the rest of the script is returned; with the script exhausted the refresh is blocked with the list empty |
| RFIDUtils.UpdateCardsIdListOnSetup | src/lib/RFIDUtils.cpp:69-72 | the refresh runs unconditionally and sends at least one request |
| RFIDUtils.UpdateCardsIdListOnTime | src/lib/RFIDUtils.cpp:74-80 | a request is sent iff the timer fires; without a fire the state and the script are untouched |
| RFIDUtils.RefreshProvenance | src/lib/RFIDUtils.cpp:82-156 | after a timer-gated refresh the list is the old list, the empty list, or a list the server sent with status 200; the responses left are a suffix of the script |
| RFIDUtils.SendMessageToServer | src/lib/RFIDUtils.cpp:60-67 | one GET whose path is /displaymessagetosever?message= followed by the message with every space replaced by %20, whatever the message holds, so it contains no space; the part after the prefix decodes back to the message when it has no '%'; a space-free message is appended verbatim |
| Firmware.HexConcat | src/RFID_SIMPLE_v2.cpp:106-110 | the identifier has between one and two lower-case hex digits per UID byte |
| Firmware.ReadCardId | src/RFID_SIMPLE_v2.cpp:106-111 | the trim after the concatenation changes nothing |
| Firmware.HexConcatAppend | src/RFID_SIMPLE_v2.cpp:106-110 | the identifier of a longer UID is the identifier of its prefix followed by that of the rest, in byte order |
| Firmware.HexConcatSingle | src/RFID_SIMPLE_v2.cpp:109 | a one-byte UID gives exactly that byte's hex digits |
| Firmware.HexConcatNotInjective | src/RFID_SIMPLE_v2.cpp:106-110 | without zero padding, UIDs 01 23 and 12 03 both give "123" |
| Firmware.Actuate | src/RFID_SIMPLE_v2.cpp:122-134 | the decision's effect comes first, then the relay is locked, then only refresh requests; the relay is opened iff the decision opened it |
| Firmware.Setup | src/RFID_SIMPLE_v2.cpp:70-90 | the relay is switched off before anything else; then at least one refresh request follows unconditionally; the EEPROM table is the constructor's; a non-empty list after setup was sent by the server with status 200; the new list, the remaining responses, the blocked flag and the request count are those of the boot refresh, so a server that only answers 200 without cards leaves setup blocked |
| Firmware.SetupFirstDecisiveResponse | src/RFID_SIMPLE_v2.cpp:70-90 | after setup the list is decided by the first response that is not a 200 without cards, applied to the empty list: the server's cards after a 200, empty otherwise; one request per response up to it |
| Firmware.Loop | src/RFID_SIMPLE_v2.cpp:92-139 | without a new card or a serial read nothing happens; otherwise the relay is opened iff the card is allowed by the list before the refresh, a rejected card is reported and never opens the door, the relay is then locked, and refresh requests follow only when the timer fires; on a fired pass the new list, the remaining responses, the blocked flag and the request count are those of the refresh; the EEPROM table is untouched |
| Firmware.LoopProvenance | src/RFID_SIMPLE_v2.cpp:122-134 | after one pass the list is the old one, empty, or one the server sent with status 200, and the responses left are a suffix of the script |
| Firmware.RunListProvenance | src/RFID_SIMPLE_v2.cpp:92-139 | over any number of passes the list is the starting one, empty, or a list the server sent with status 200; the EEPROM table is never written |
| Firmware.LoopEndsLocked | src/RFID_SIMPLE_v2.cpp:132 | every pass that handles a card leaves the relay off, whatever its level before |
| Firmware.SetupEndsLocked | src/RFID_SIMPLE_v2.cpp:74-83 | setup leaves the relay off; the refresh after it does not move the relay |
| Firmware.RejectionPath | src/RFID_SIMPLE_v2.cpp:126-130 | the rejection path carries the hex identifier verbatim between the encoded fixed texts "Card id " and " is not allowed!" |
| RefreshProperties.AllowedIgnoresCase | src/lib/RFIDUtils.cpp:44-57 | queries that differ only in letter case get the same answer |
| RefreshProperties.ListedEntryAllowed | src/lib/RFIDUtils.cpp:44-57 | every listed identifier is allowed, whatever the case of the query's letters |
| RefreshProperties.AllowedMonotone | src/lib/RFIDUtils.cpp:44-57 | the decision depends on which identifiers are listed, not on their order or repetition |
| RefreshProperties.StatusErrorRestores | src/lib/RFIDUtils.cpp:150-156 | a status other than 200 restores the list exactly, in contents and order, after one request with no retry |
| RefreshProperties.ParseErrorEmpties | src/lib/RFIDUtils.cpp:100-107 | an outer parse error ends the refresh with the list empty, even if it held cards |
| RefreshProperties.SuccessReplaces | src/lib/RFIDUtils.cpp:134-139 | a 200 with a non-empty cards array makes the list exactly the server's identifiers in array order, duplicates kept, previous contents dropped |
| RefreshProperties.EmptySuccessReenters | src/lib/RFIDUtils.cpp:141-148 | a 200 with a null or empty cards array restores the backup and re-enters: the result is that of a fresh refresh from the pre-refresh list, one request later |
| RefreshProperties.FirstDecisiveResponseDecides | src/lib/RFIDUtils.cpp:82-162 | the first response that is not an empty success decides the result, applied to the pre-refresh list |
| RefreshProperties.EmptySuccessesStall | src/lib/RFIDUtils.cpp:141-148 | a server that only answers 200 without cards gets one request after another with no bound, and the list stays cleared while waiting |
| RefreshProperties.EmptiedOnlyByParseError | src/lib/RFIDUtils.cpp:100-107 | a list that held cards becomes empty only on an outer parse error or while a request is outstanding |
| RefreshProperties.SuccessIdempotent | src/lib/RFIDUtils.cpp:134-139 | applying the same successful response twice leaves the same list as applying it once |
| RefreshProperties.RefreshKeepsSnapshot | src/lib/RFIDUtils.cpp:159-161 | neither trigger writes the EEPROM table; the refresh only reads it back |
| RefreshProperties.ScenarioLowerCaseQuery | src/lib/RFIDUtils.cpp:46 | with B1EE2C2B and 2644C832 listed, the query b1ee2c2b is allowed |
| RefreshProperties.ScenarioOneCard | src/lib/RFIDUtils.cpp:134-139 | a 200 carrying card AA11BB22 makes the list exactly that card |
| RefreshProperties.ScenarioServerError | src/lib/RFIDUtils.cpp:150-156 | a 500 keeps the list AA11BB22 |
| RefreshProperties.ScenarioRetryThenError | src/lib/RFIDUtils.cpp:141-156 | a 200 without cards followed by a 500 sends two requests and gives back the state unchanged |

Notes on the code that the model follows:

- The code never writes the EEPROM table after a successful refresh. It only
  reads the table back for a log line. The model keeps the table unchanged
  across every refresh.
- The identifier is lower-case hex, because `String(b, HEX)` uses lower-case
  digits, without zero padding.
- The "list empty" answer of `isCardIdAllowed` shows up only in the log. The
  model returns `false`, like any other rejection.

## Left out

- HTTP and Wi-Fi transport (`WebServerUtils`, `setupWifi`) and the
  `{statusCode, data}` serialisation are I/O. Only the parsed outcome of
  each request is modelled, and the answer to the notification request is
  ignored as in the code.
- ArduinoJson parsing internals are not modelled. Each `cards` element's
  `card_id` is taken as a given string. What `as<String>()` yields for an
  element without `card_id` is not modelled.
- FireTimer internals are left out. `fire()` is a boolean input, and the
  two-hour interval is only the constant `RFIDUtils.RefreshIntervalMs`.
- EEPROM: the table is modelled as strings, although the code stores
  pointers to string literals. The commit result is not modelled, and
  neither is the read-back for logging.
- Serial logging, the `Debugger` class, `delay`, SPI and MFRC522
  initialisation, and `displayContentFromArray` are not modelled. Pin
  writes appear as `RelayOn`/`RelayOff` effects.
- The MFRC522 limit of at most 10 UID bytes is not modelled. `HexConcat`
  accepts any length.
- Arduino `String` is a byte string; the model uses sequences of `char`.
  This changes no result of the core: `tolower`, `isspace` and
  `replace(" ", "%20")` act only on ASCII characters, and identifiers and
  the fixed texts are ASCII.
- ArduinoString.EqualsIgnoreCase: the C loop stops at an embedded NUL
  character. The model compares whole strings. Identifiers never contain
  NUL.
- Memory is not modelled. Arduino `String` operations can fail silently
  when the heap is exhausted. The recursion on an empty success uses stack
  for each level's frame, and each level holds two 1024-byte JSON documents
  allocated on the heap. The model counts neither.
- Concurrency and timeouts: the code is single-threaded and sets no
  timeout of its own. A timeout of the HTTP client library yields a negative
  code, which is the status-other-than-200 path. A request the script cannot answer is shown as a
  `blocked` result rather than as a hang.
- A bounded retry for the empty-success case is not modelled, since the
  code has none. `EmptySuccessesStall` states the unbounded behaviour.
