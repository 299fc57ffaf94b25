/** The `GoogleAuthenticator` object: its mutable default window size, the
    instance `authorize(secret, code)` that uses it, and secret-key
    generation. The secure random source is the parameter `random` (the
    bytes `nextBytes` delivers); Base32 encoding is the parameter `encode`. */
module Authenticator {
  import opened Bytes
  import opened Outcomes
  import opened Hotp
  import opened Totp

  const SecretBits := 80
  const ScratchCodes := 5
  const BytesPerScratchCode := 4
  /** `SECRET_BITS / 8`: the secret is 10 bytes. */
  const SecretLength := SecretBits / 8
  /** The buffer drawn from the random source: the secret and the scratch codes. */
  const BufferLength := SecretBits / 8 + ScratchCodes * BytesPerScratchCode
  /** The window size a new instance starts with. */
  const DefaultWindowSize := 3

  /** Base32 encoding of the raw secret (Apache Commons `Base32.encode`). */
  type Base32Encoder = seq<byte> -> string

  /** `GoogleAuthenticatorKey`: the encoded secret and its code at counter 0. */
  datatype GeneratedKey = GeneratedKey(key: string, verificationCode: int)

  class GoogleAuthenticator {
    var windowSize: int32

    ghost predicate Valid()
      reads this
    {
      MinWindow <= windowSize <= MaxWindow
    }

    constructor ()
      ensures Valid() && GetWindowSize() == DefaultWindowSize
    {
      windowSize := DefaultWindowSize;
    }

    /** `getWindowSize()`: always a valid window. */
    function GetWindowSize(): (s: int32)
      reads this
      requires Valid()
      ensures MinWindow <= s <= MaxWindow
    {
      windowSize
    }

    /** `setWindowSize(s)`: a size in [1, 17] replaces the current one; any
        other value is an argument error and changes nothing. */
    method SetWindowSize(s: int32) returns (outcome: Result<()>)
      requires Valid()
      modifies this
      ensures Valid()
      ensures outcome.Ok? <==> MinWindow <= s <= MaxWindow
      ensures outcome.Ok? ==> GetWindowSize() == s
      ensures outcome.Err? ==> outcome.error == InvalidArgument && GetWindowSize() == old(GetWindowSize())
    {
      if s >= MinWindow && s <= MaxWindow {
        windowSize := s;
        outcome := Ok(());
      } else {
        outcome := Err(InvalidArgument);
      }
    }

    /** `authorize(secret, verificationCode)`: the static `authorize` with the
        instance's window, which is always valid, so the only argument error
        left is a missing secret. */
    method Authorize(secret: Option<string>, code: int32, tm: int64, decode: Base32Decoder, mac: Mac)
      returns (r: Result<bool>)
      requires Valid()
      ensures r == Authorization(secret, code, GetWindowSize(), tm, decode, mac)
      ensures r == Err(InvalidArgument) <==> secret.None?
    {
      r := Totp.Authorize(secret, code, windowSize, tm, decode, mac);
    }

    /** `generateSecretKey()`: the first 10 of the 30 random bytes are the
        secret; the key returned is its Base32 text and its HOTP value at
        counter 0. A provider failure is reported without detail. */
    method GenerateSecretKey(random: seq<byte>, encode: Base32Encoder, mac: Mac)
      returns (r: Result<GeneratedKey>)
      requires |random| == BufferLength
      ensures r.Ok? <==> HotpValue(mac, random[..SecretLength], 0).Some?
      ensures r.Err? ==> r.error == OperationUnavailable
      ensures r.Ok? ==> r.value.key == encode(random[..SecretLength])
      ensures r.Ok? ==> HotpValue(mac, random[..SecretLength], 0) == Some(r.value.verificationCode)
    {
      var buffer := new byte[SecretBits / 8 + ScratchCodes * BytesPerScratchCode]
        (i requires 0 <= i < |random| => random[i]);
      var secretKey := buffer[..SecretBits / 8];
      assert secretKey == random[..SecretLength];
      var generatedKey := encode(secretKey);
      var generateCode := CalculateCode(mac, secretKey, 0);
      if generateCode.None? {
        return Err(OperationUnavailable);
      }
      r := Ok(GeneratedKey(generatedKey, generateCode.value));
    }
  }

  /** A generated key authorizes its own code during the step that contains
      the epoch (instants within 30 seconds either side of it, because the
      step division truncates toward zero), under every valid window, as
      long as Base32 decoding undoes encoding and the code is not 0. */
  lemma GeneratedKeyAuthorizes(secretKey: seq<byte>, code: int32, window: int32, tm: int64,
                               encode: Base32Encoder, decode: Base32Decoder, mac: Mac)
    requires decode(encode(secretKey)) == secretKey
    requires KeyAccepted(mac, secretKey)
    requires HotpValue(mac, secretKey, 0) == Some(code as int) && code != 0
    requires MinWindow <= window <= MaxWindow
    requires -KeyValidationIntervalMs < tm < KeyValidationIntervalMs
    ensures Authorization(Some(encode(secretKey)), code, window, tm, decode, mac) == Ok(true)
  {
    assert TimeStep(tm) == 0;
    CurrentStepAccepted(encode(secretKey), code, window, tm, decode, mac);
  }
}
