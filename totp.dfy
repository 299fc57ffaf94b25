/** The time-window validator of sections 4 and 5.2 of RFC 6238: the static
    `authorize(secret, code, window)` with its argument checks, and `checkCode`,
    which searches `window` consecutive time steps for the code. The clock
    read is the parameter `tm`; Base32 decoding is the parameter `decode`. */
module Totp {
  import opened Bytes
  import opened Outcomes
  import opened Hotp

  /** `KEY_VALIDATION_INTERVAL_MS`: thirty seconds. */
  const KeyValidationIntervalMs := 30_000
  const MinWindow := 1
  const MaxWindow := 17

  /** Base32 decoding of the textual secret (Apache Commons `Base32.decode`). */
  type Base32Decoder = string -> seq<byte>

  /** `tm / KEY_VALIDATION_INTERVAL_MS` with Java's division, which truncates
      toward zero: the step is the floor for instants at or after the epoch
      and the ceiling before it. */
  function TimeStep(tm: int64): (step: int64)
    ensures 0 <= tm ==> step * KeyValidationIntervalMs <= tm < (step + 1) * KeyValidationIntervalMs
    ensures tm < 0 ==> (step - 1) * KeyValidationIntervalMs < tm <= step * KeyValidationIntervalMs
  {
    if tm >= 0 then tm / KeyValidationIntervalMs
    else -((-(tm as int)) / KeyValidationIntervalMs)
  }

  /** The first offset examined, `-((window - 1) / 2)`. */
  function FirstOffset(window: int): (first: int)
    requires MinWindow <= window
    ensures first <= 0
  {
    -((window - 1) / 2)
  }

  /** The last offset examined, `window / 2`: the offsets from `FirstOffset`
      to here are exactly `window` steps, and one more lies in the future
      than in the past when `window` is even. */
  function LastOffset(window: int): (last: int)
    requires MinWindow <= window
    ensures 0 <= last
    ensures last - FirstOffset(window) + 1 == window
    ensures last == -FirstOffset(window) + (if window % 2 == 0 then 1 else 0)
  {
    window / 2
  }

  /** The key is usable: the MAC provider succeeds on every message. */
  ghost predicate KeyAccepted(mac: Mac, key: seq<byte>)
  {
    forall msg :: mac(key, msg).Some?
  }

  /** The outcome of trying the counters `counter .. last` in order: `true` at
      the first counter whose code is `code`, a failure at the first counter
      where the MAC fails, `false` when every counter was tried. */
  function Scan(mac: Mac, key: seq<byte>, code: int, counter: int, last: int): (r: Result<bool>)
    requires Int64Min <= counter && last <= Int64Max
    decreases last + 1 - counter
    ensures r.Err? ==> r.error == OperationUnavailable
    ensures r == Ok(true) ==> exists c: int64 :: counter <= c <= last && HotpValue(mac, key, c) == Some(code)
    ensures r == Ok(false) ==> forall c: int64 :: counter <= c <= last ==> HotpValue(mac, key, c).Some?
    ensures r == Ok(false) ==> forall c: int64 :: counter <= c <= last ==> HotpValue(mac, key, c) != Some(code)
    ensures r.Err? ==> exists c: int64 :: counter <= c <= last && HotpValue(mac, key, c).None?
                         && forall d: int64 :: counter <= d < c ==> HotpValue(mac, key, d) != Some(code)
  {
    if counter > last then Ok(false)
    else
      match HotpValue(mac, key, counter)
      case None => Err(OperationUnavailable)
      case Some(value) =>
        if value == code then Ok(true) else Scan(mac, key, code, counter + 1, last)
  }

  /** The steps `checkCode` examines at instant `tm` run from `TimeStep(tm) +
      FirstOffset(window)` to `TimeStep(tm) + LastOffset(window)`. */
  function Check(mac: Mac, key: seq<byte>, code: int, tm: int64, window: int): (r: Result<bool>)
    requires MinWindow <= window <= MaxWindow
    ensures r == Ok(true) ==>
      exists c: int64 :: TimeStep(tm) - c <= (window - 1) / 2 && c - TimeStep(tm) <= window / 2
                         && HotpValue(mac, key, c) == Some(code)
  {
    var step := TimeStep(tm);
    Scan(mac, key, code, step + FirstOffset(window), step + LastOffset(window))
  }

  /** `checkCode(secret, code, tm, window)` on the decoded key: the loop over
      the offsets, returning at the first match. */
  method CheckCode(mac: Mac, key: seq<byte>, code: int, tm: int64, window: int32)
    returns (r: Result<bool>)
    requires MinWindow <= window <= MaxWindow
    ensures r == Check(mac, key, code, tm, window)
  {
    var timeWindow := TimeStep(tm);
    ghost var last := timeWindow + LastOffset(window);
    var i := -((window - 1) / 2);
    while i <= window / 2
      invariant FirstOffset(window) <= i <= LastOffset(window) + 1
      invariant Check(mac, key, code, tm, window) == Scan(mac, key, code, timeWindow + i, last)
      decreases window / 2 - i
    {
      var hash := CalculateCode(mac, key, timeWindow + i);
      if hash.None? {
        return Err(OperationUnavailable);
      }
      if hash.value == code {
        return Ok(true);
      }
      i := i + 1;
    }
    return Ok(false);
  }

  /** `authorize(secret, verificationCode, window)` at instant `tm`; a null
      secret is `None`. The checks run in the source's order: the secret,
      then the code's range (a wrong answer, not an error), then the window. */
  function Authorization(secret: Option<string>, code: int32, window: int32, tm: int64,
                         decode: Base32Decoder, mac: Mac): (r: Result<bool>)
    ensures r == Ok(true) ==> secret.Some? && 0 < code < SecretKeyModule && MinWindow <= window <= MaxWindow
    ensures r == Err(InvalidArgument) ==>
      secret.None? || (0 < code < SecretKeyModule && !(MinWindow <= window <= MaxWindow))
  {
    if secret.None? then Err(InvalidArgument)
    else if code <= 0 || code >= SecretKeyModule then Ok(false)
    else if window < MinWindow || window > MaxWindow then Err(InvalidArgument)
    else Check(mac, decode(secret.value), code, tm, window)
  }

  method Authorize(secret: Option<string>, code: int32, window: int32, tm: int64,
                   decode: Base32Decoder, mac: Mac) returns (r: Result<bool>)
    ensures r == Authorization(secret, code, window, tm, decode, mac)
  {
    if secret.None? {
      return Err(InvalidArgument);
    }
    if code <= 0 || code >= SecretKeyModule {
      return Ok(false);
    }
    if window < MinWindow || window > MaxWindow {
      return Err(InvalidArgument);
    }
    r := CheckCode(mac, decode(secret.value), code, tm, window);
  }

  /** With a usable key, the scan answers whether some counter in range has
      the code. */
  lemma {:induction false} ScanComplete(mac: Mac, key: seq<byte>, code: int, counter: int, last: int)
    requires Int64Min <= counter && last <= Int64Max
    requires KeyAccepted(mac, key)
    decreases last + 1 - counter
    ensures Scan(mac, key, code, counter, last)
      == Ok(exists c: int64 :: counter <= c <= last && HotpValue(mac, key, c) == Some(code))
  {
    if counter <= last {
      assert mac(key, CounterBytes(counter)).Some?;
      if HotpValue(mac, key, counter) != Some(code) {
        ScanComplete(mac, key, code, counter + 1, last);
        if exists c: int64 :: counter <= c <= last && HotpValue(mac, key, c) == Some(code) {
          var c: int64 :| counter <= c <= last && HotpValue(mac, key, c) == Some(code);
          assert counter + 1 <= c;
        }
      }
    }
  }

  /** With a usable key, a code in range and a valid window, `authorize`
      accepts exactly when the code is the HOTP value of one of the `window`
      steps around the current one. */
  lemma AuthorizationAccepts(secret: string, code: int32, window: int32, tm: int64,
                             decode: Base32Decoder, mac: Mac)
    requires KeyAccepted(mac, decode(secret))
    requires 0 < code < SecretKeyModule && MinWindow <= window <= MaxWindow
    ensures var step := TimeStep(tm);
      Authorization(Some(secret), code, window, tm, decode, mac)
        == Ok(exists c: int64 :: step + FirstOffset(window) <= c <= step + LastOffset(window)
                                 && HotpValue(mac, decode(secret), c) == Some(code))
  {
    var step := TimeStep(tm);
    ScanComplete(mac, decode(secret), code, step + FirstOffset(window), step + LastOffset(window));
  }

  /** A null secret is an argument error, whatever the code and window. */
  lemma MissingSecretRejected(code: int32, window: int32, tm: int64, decode: Base32Decoder, mac: Mac)
    ensures Authorization(None, code, window, tm, decode, mac) == Err(InvalidArgument)
  {
  }

  /** A code outside (0, 1000000) is refused for every window, even an
      invalid one, because that check comes before the window check. */
  lemma OutOfRangeCodeRejected(secret: string, code: int32, window: int32, tm: int64,
                               decode: Base32Decoder, mac: Mac)
    requires code <= 0 || code >= SecretKeyModule
    ensures Authorization(Some(secret), code, window, tm, decode, mac) == Ok(false)
  {
  }

  /** With a code in range, the window must lie in [1, 17]: 0 and 18 are
      argument errors, 1 and 17 are not, and in general a window is an
      argument error exactly when it is outside [1, 17]. */
  lemma WindowBounds(secret: string, code: int32, tm: int64, decode: Base32Decoder, mac: Mac)
    requires 0 < code < SecretKeyModule
    ensures Authorization(Some(secret), code, 0, tm, decode, mac) == Err(InvalidArgument)
    ensures Authorization(Some(secret), code, 18, tm, decode, mac) == Err(InvalidArgument)
    ensures Authorization(Some(secret), code, 1, tm, decode, mac) != Err(InvalidArgument)
    ensures Authorization(Some(secret), code, 17, tm, decode, mac) != Err(InvalidArgument)
    ensures forall window: int32 ::
      (Authorization(Some(secret), code, window, tm, decode, mac) == Err(InvalidArgument))
      <==> !(MinWindow <= window <= MaxWindow)
  {
  }

  /** A code that is right for the current step is accepted under every
      valid window. */
  lemma CurrentStepAccepted(secret: string, code: int32, window: int32, tm: int64,
                            decode: Base32Decoder, mac: Mac)
    requires KeyAccepted(mac, decode(secret))
    requires 0 < code && MinWindow <= window <= MaxWindow
    requires HotpValue(mac, decode(secret), TimeStep(tm)) == Some(code)
    ensures Authorization(Some(secret), code, window, tm, decode, mac) == Ok(true)
  {
    AuthorizationAccepts(secret, code, window, tm, decode, mac);
    var c: int64 := TimeStep(tm);
    assert TimeStep(tm) + FirstOffset(window) <= c <= TimeStep(tm) + LastOffset(window);
  }

  /** Window 3, the default: steps S - 1, S and S + 1 are tried, nothing else. */
  lemma WindowOfThree(secret: string, code: int32, tm: int64, decode: Base32Decoder, mac: Mac)
    requires KeyAccepted(mac, decode(secret))
    requires 0 < code < SecretKeyModule
    ensures var s, key := TimeStep(tm), decode(secret);
      Authorization(Some(secret), code, 3, tm, decode, mac)
        == Ok(HotpValue(mac, key, s - 1) == Some(code as int) || HotpValue(mac, key, s) == Some(code as int)
              || HotpValue(mac, key, s + 1) == Some(code as int))
  {
    AuthorizationAccepts(secret, code, 3, tm, decode, mac);
  }

  /** An even window leans one step into the future: window 2 tries the
      current step and the next, not the previous one. */
  lemma EvenWindowLeansForward(secret: string, code: int32, tm: int64, decode: Base32Decoder, mac: Mac)
    requires KeyAccepted(mac, decode(secret))
    requires 0 < code < SecretKeyModule
    ensures var s, key := TimeStep(tm), decode(secret);
      Authorization(Some(secret), code, 2, tm, decode, mac)
        == Ok(HotpValue(mac, key, s) == Some(code as int) || HotpValue(mac, key, s + 1) == Some(code as int))
  {
    AuthorizationAccepts(secret, code, 2, tm, decode, mac);
  }

  /** `authorize` refuses the code 0 under every window and at every
      instant, although the HOTP computation can produce it (`ZeroCodeDigest`):
      a step whose HOTP value is 0 can never be authorized. */
  lemma ZeroCodeNeverAccepted(secret: string, window: int32, tm: int64, decode: Base32Decoder, mac: Mac)
    ensures Authorization(Some(secret), 0, window, tm, decode, mac) == Ok(false)
  {
  }
}
