# GoogleAuthenticator TOTP engine, modelled in Dafny

This project models the core of `GoogleAuthenticator`. That class is a server-side
implementation of TOTP (RFC 6238) built on HOTP (RFC 4226), compatible with the
Google Authenticator app. The model covers three parts:

- **HOTP value computation (`calculateCode`).** The signed 64-bit counter is
  laid out as 8 big-endian two's-complement bytes. The bytes are keyed-hashed
  into a 20-byte digest. Dynamic truncation then takes the offset from the low
  nibble of the last byte, reads a 4-byte big-endian word there, clears its top
  bit and reduces it modulo 1,000,000 (section 5.3 of RFC 4226).
- **Time-window validation (`authorize`, `checkCode`).** The arguments are
  checked in the source's order: null secret, then code range, then window
  range. The current time step is `tm / 30000` with Java's truncating division.
  The offsets `-((window-1)/2) .. window/2` are then tried in order, returning
  at the first match.
- **Instance state and key generation.** A mutable default window size starts
  at 3, with a validating setter and a getter. `generateSecretKey` keeps the
  first 10 of 30 random bytes as the secret and computes its code at counter 0.

Modules, leaves first:

- `Outcomes` (outcomes.dfy): `Option`, `Result` and the two failure kinds.
  `InvalidArgument` is a missing secret or a bad window.
  `OperationUnavailable` is a crypto provider failure, surfaced without detail.
- `Bytes` (bytes.dfy): Java's `int`/`long`/byte widths, the unsigned reading of
  a `long` and `>>>`, and big-endian layout with its two round-trip lemmas.
- `Hotp` (hotp.dfy): `calculateCode`.
- `Totp` (totp.dfy): `checkCode` and the static `authorize`.
- `Authenticator` (authenticator.dfy): the `GoogleAuthenticator` class.

Representation choices:

- A byte is its unsigned value 0..255, i.e. its bit pattern. The source reads
  every byte back through `& 0xFF`.
- `value >>>= 8` on the counter is division of the unsigned 64-bit pattern by 256.
- `(byte) value` is that pattern modulo 256.
- `truncatedHash <<= 8; truncatedHash |= b` is `* 256 + b`, because the low
  byte is zero after the shift and the value stays below 2^32 (`TruncationWord`).
- `& 0x7FFFFFFF` on that non-negative `long` is `% 2^31`.

The HMAC provider, Base32 and the random source are parameters:

- `Mac`, a function from key and message to an optional 20-byte digest.
  `None` stands for the provider throwing.
- `Base32Decoder` and `Base32Encoder`.
- The random bytes, passed in as a sequence.

The clock is the parameter `tm`.

The model follows the code where its comments or its description say otherwise:

- The comment on `authorize` claims a symmetric window `[-(window-1)/2, +(window-1)/2]`.
  The loop actually tries `window` steps and leans one step into the future when
  `window` is even (`LastOffset`, `EvenWindowLeansForward`).
- The comment on `setWindowSize` says that out-of-range values "are ignored".
  The code throws, so `SetWindowSize` returns `Err(InvalidArgument)` and leaves
  the size unchanged.
- The time step uses Java's truncating division, not the floor. Instants up to
  30 seconds before the epoch still fall in step 0 (`TimeStep`, `GeneratedKeyAuthorizes`).
- The secret check rejects only a null secret (`None`). An empty string passes
  it and reaches the crypto provider.
- `authorize` refuses the code 0 (`verificationCode <= 0`), although
  `calculateCode` can return 0 (`ZeroCodeDigest`). A step whose HOTP value is 0
  therefore never authorizes (`ZeroCodeNeverAccepted`).

## Model

| member | source | states |
|---|---|---|
| `Hotp.EncodeCounter` | src/main/java/com/warrenstrange/googleauth/GoogleAuthenticator.java:211-218 | the shifting loop fills exactly `CounterBytes(tm)`: byte `i` is `(tm >>> 8*(7-i)) & 0xFF` |
| `Hotp.CounterRoundTrip` | src/main/java/com/warrenstrange/googleauth/GoogleAuthenticator.java:211-218 | the 8 bytes read back big-endian give `tm mod 2^64`, and read as a signed `long` give `tm` itself, negative counters included |
| `Hotp.CounterBytesOnto` | src/main/java/com/warrenstrange/googleauth/GoogleAuthenticator.java:211-218 | every 8-byte message is the encoding of the counter it decodes to (the other direction of the round trip) |
| `Hotp.CounterBytesInjective` | src/main/java/com/warrenstrange/googleauth/GoogleAuthenticator.java:211-218 | distinct counters are hashed over distinct messages |
| `Hotp.CounterBytesMinusOne` | src/main/java/com/warrenstrange/googleauth/GoogleAuthenticator.java:216-218 | counter -1 (one step before the epoch) is sent as eight 0xFF bytes, by two's complement and not rejected |
| `Hotp.Offset` | src/main/java/com/warrenstrange/googleauth/GoogleAuthenticator.java:233 | `hash[19] & 0xF` plus 4 stays inside the 20-byte digest, so the four reads are in bounds |
| `Hotp.DynamicTruncation` | src/main/java/com/warrenstrange/googleauth/GoogleAuthenticator.java:233-248 | after `& 0x7FFFFFFF` the truncated word is below 2^31 |
| `Hotp.Truncate` | src/main/java/com/warrenstrange/googleauth/GoogleAuthenticator.java:249 | the code is below 1,000,000 |
| `Hotp.TruncationWord` | src/main/java/com/warrenstrange/googleauth/GoogleAuthenticator.java:235-244 | the assembled word is `b0*2^24 + b1*2^16 + b2*2^8 + b3` of the bytes at the offset, and fits in 32 bits |
| `Hotp.TruncateAt` | src/main/java/com/warrenstrange/googleauth/GoogleAuthenticator.java:233-248 | given the offset nibble and the four bytes there, the truncated value is their word with the top bit cleared |
| `Hotp.TruncateDigest` | src/main/java/com/warrenstrange/googleauth/GoogleAuthenticator.java:233-252 | the accumulating loop, mask and reduction return `Truncate(hash)`, in [0, 1000000), so the `(int)` cast is lossless |
| `Hotp.HotpValue` | src/main/java/com/warrenstrange/googleauth/GoogleAuthenticator.java:207-253 | the HOTP value is in [0, 1000000) and is absent exactly when the MAC fails on the counter's bytes |
| `Hotp.CalculateCode` | src/main/java/com/warrenstrange/googleauth/GoogleAuthenticator.java:207-253 | `calculateCode` returns `HotpValue(mac, key, tm)`, and a provider failure becomes `None` |
| `Hotp.Rfc4226Example` | src/main/java/com/warrenstrange/googleauth/GoogleAuthenticator.java:233-249 | the worked example of section 5.4 of RFC 4226 truncates to 0x50ef7f19 and code 872921 |
| `Hotp.Rfc4226Counter0` | src/main/java/com/warrenstrange/googleauth/GoogleAuthenticator.java:233-249 | the digest for counter 0 in appendix D of RFC 4226 gives 1284755224 and code 755224 |
| `Hotp.Rfc4226Counter1` | src/main/java/com/warrenstrange/googleauth/GoogleAuthenticator.java:233-249 | the digest for counter 1 in appendix D of RFC 4226 gives 1094287082 and code 287082 |
| `Hotp.ZeroCodeDigest` | src/main/java/com/warrenstrange/googleauth/GoogleAuthenticator.java:233-249 | a digest whose masked word is 1000000 has code 0, so 0 is a value the computation returns |
| `Totp.TimeStep` | src/main/java/com/warrenstrange/googleauth/GoogleAuthenticator.java:397 | `tm / 30000` truncates: floor of the 30-second interval at or after the epoch, ceiling before it |
| `Totp.FirstOffset` | src/main/java/com/warrenstrange/googleauth/GoogleAuthenticator.java:402 | the scan starts at or before the current step |
| `Totp.LastOffset` | src/main/java/com/warrenstrange/googleauth/GoogleAuthenticator.java:402 | the scan ends at or after the current step, covers exactly `window` steps, and has one more future step than past steps when `window` is even |
| `Totp.Scan` | src/main/java/com/warrenstrange/googleauth/GoogleAuthenticator.java:402-414 | a `true` answer has a counter in range with the code; a `false` answer means the MAC succeeded on every counter in range and none has the code; a failure is the provider's, at a counter with no match before it |
| `Totp.ScanComplete` | src/main/java/com/warrenstrange/googleauth/GoogleAuthenticator.java:402-414 | with a usable key, the scan is `true` if and only if some counter in range has the code |
| `Totp.Check` | src/main/java/com/warrenstrange/googleauth/GoogleAuthenticator.java:397-414 | acceptance means a step at most `(window-1)/2` before and at most `window/2` after the current step has the code |
| `Totp.CheckCode` | src/main/java/com/warrenstrange/googleauth/GoogleAuthenticator.java:385-415 | the loop with early return computes `Check`: the first match answers `true`, the first provider failure is an error |
| `Totp.Authorization` | src/main/java/com/warrenstrange/googleauth/GoogleAuthenticator.java:327-368 | acceptance needs a secret, a code in (0, 1000000) and a window in [1, 17]; an argument error is a null secret, or a bad window with an in-range code |
| `Totp.Authorize` | src/main/java/com/warrenstrange/googleauth/GoogleAuthenticator.java:327-368 | the static `authorize` with the clock as `tm` returns `Authorization(...)` |
| `Totp.AuthorizationAccepts` | src/main/java/com/warrenstrange/googleauth/GoogleAuthenticator.java:327-368 | for a usable key, an in-range code and a valid window, `authorize` is `true` exactly when one of the `window` steps around the current one has the code |
| `Totp.MissingSecretRejected` | src/main/java/com/warrenstrange/googleauth/GoogleAuthenticator.java:333-335 | a null secret is an argument error for every code and window |
| `Totp.OutOfRangeCodeRejected` | src/main/java/com/warrenstrange/googleauth/GoogleAuthenticator.java:338-340 | a code `<= 0` or `>= 1000000` gives `false` under every window, invalid windows included |
| `Totp.WindowBounds` | src/main/java/com/warrenstrange/googleauth/GoogleAuthenticator.java:343-345 | with an in-range code, a window is an argument error exactly when it lies outside [1, 17]: 0 and 18 are, 1 and 17 are not |
| `Totp.CurrentStepAccepted` | src/main/java/com/warrenstrange/googleauth/GoogleAuthenticator.java:397-411 | a code right for the current step is accepted under every valid window |
| `Totp.WindowOfThree` | src/main/java/com/warrenstrange/googleauth/GoogleAuthenticator.java:402-411 | with window 3, acceptance is exactly a match at step S-1, S or S+1, so S-2 and S+2 are not tried |
| `Totp.EvenWindowLeansForward` | src/main/java/com/warrenstrange/googleauth/GoogleAuthenticator.java:402 | with window 2, acceptance is exactly a match at S or S+1, not at S-1 |
| `Totp.ZeroCodeNeverAccepted` | src/main/java/com/warrenstrange/googleauth/GoogleAuthenticator.java:338-340 | the code 0 is refused under every window and at every instant |
| `Authenticator.GoogleAuthenticator.constructor` | src/main/java/com/warrenstrange/googleauth/GoogleAuthenticator.java:93 | a new instance has window size 3 |
| `Authenticator.GoogleAuthenticator.GetWindowSize` | src/main/java/com/warrenstrange/googleauth/GoogleAuthenticator.java:279-281 | the current window size is always in [1, 17] |
| `Authenticator.GoogleAuthenticator.SetWindowSize` | src/main/java/com/warrenstrange/googleauth/GoogleAuthenticator.java:264-271 | a size in [1, 17] becomes the window size; any other size is an argument error and leaves it unchanged |
| `Authenticator.GoogleAuthenticator.Authorize` | src/main/java/com/warrenstrange/googleauth/GoogleAuthenticator.java:301-304 | the instance `authorize` uses the current window size, so its only argument error is a null secret |
| `Authenticator.GoogleAuthenticator.GenerateSecretKey` | src/main/java/com/warrenstrange/googleauth/GoogleAuthenticator.java:151-191 | the secret is the first 10 of the 30 random bytes; the key is its Base32 text with its HOTP value at counter 0; it fails only when that computation fails |
| `Authenticator.GeneratedKeyAuthorizes` | src/main/java/com/warrenstrange/googleauth/GoogleAuthenticator.java:169-173 | a generated secret authorizes its own non-zero code within 30 seconds of the epoch under every valid window, when Base32 decoding undoes encoding |

## Left out

- HMAC-SHA1 itself (`Mac.getInstance`, `SecretKeySpec`, `doFinal`): a foreign
  crypto call. It is the parameter `mac`, which returns a 20-byte digest or fails.
- Failure kinds are merged. `NoSuchAlgorithmException`, `InvalidKeyException`
  and the `IllegalArgumentException` that `SecretKeySpec` throws for an empty
  key are all one `OperationUnavailable`. In the source that last one escapes
  `authorize` uncaught instead of being rethrown.
- The exception class of a provider failure is not kept. `generateSecretKey`
  rethrows it as `GoogleAuthenticatorException`, the class of the argument
  errors, and `authorize` as `UnsupportedOperationException`; both are
  `OperationUnavailable` here.
- Base32 encoding and decoding (Apache Commons): a foreign library. They are the
  parameters `encode` and `decode`. `GeneratedKeyAuthorizes` assumes that
  decoding undoes encoding.
- `SecureRandom` creation, the constructor's `reSeed()`, `reSeed` itself and
  `nextBytes`: entropy. The 30 bytes `nextBytes` delivers are the parameter
  `random`. The constructor's failure when SHA1PRNG is missing is not modelled.
- The wall-clock read `new Date().getTime()`: it is the parameter `tm`.
- Logging and exception message texts: only the failure kind is kept.
- The `AtomicInteger` holding the window size: concurrency. It is a plain field.
- Scratch codes: the last 20 buffer bytes are drawn but never used in this class.
- `Totp.ScanComplete`, `Totp.AuthorizationAccepts` and the window lemmas assume
  the MAC accepts the key for every message (`KeyAccepted`). Without that,
  `Scan`'s own contract still fixes the early-return behaviour: `false` means
  every counter in range was hashed and none has the code, and a failure
  means the MAC failed at some counter with no match before it.
- `Totp.CheckCode` requires a window in [1, 17]. Its only caller checks this
  first.
