/**
 The observable effects of the firmware: writes to the door relay pin and
 GET requests sent to the access-point server.
 */
module Effects {

  datatype Action =
    | RelayOn              // relay pin driven HIGH: the door opens
    | RelayOff             // relay pin driven LOW: the door is locked
    | HttpGet(path: string) // one request through the web-server client

  /** `n` requests for the same path, in a row. */
  function Requests(path: string, n: nat): seq<Action> {
    seq(n, i => HttpGet(path))
  }

  /** The level of the relay pin after `acts`, starting at `high`. */
  function RelayAfter(high: bool, acts: seq<Action>): bool
    decreases |acts|
  {
    if |acts| == 0 then high
    else
      var next := match acts[0]
        case RelayOn => true
        case RelayOff => false
        case HttpGet(_) => high;
      RelayAfter(next, acts[1..])
  }

  /**
   The relay ends at the level of the last relay write; requests never move
   it, so with no write at all it stays where it was.
   */
  lemma {:induction false} RelayAfterLastWrite(high: bool, acts: seq<Action>, k: int)
    requires -1 <= k < |acts|
    requires k >= 0 ==> !acts[k].HttpGet?
    requires forall i :: k < i < |acts| ==> acts[i].HttpGet?
    ensures RelayAfter(high, acts) == if k < 0 then high else acts[k].RelayOn?
    decreases |acts|
  {
    if |acts| > 0 {
      var next := match acts[0]
        case RelayOn => true
        case RelayOff => false
        case HttpGet(_) => high;
      assert RelayAfter(high, acts) == RelayAfter(next, acts[1..]);
      if k == 0 {
        RelayAfterLastWrite(next, acts[1..], -1);
      } else {
        RelayAfterLastWrite(next, acts[1..], if k < 0 then -1 else k - 1);
      }
    }
  }
}
