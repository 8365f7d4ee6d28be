# trustee: verifying an Ethereum-signed claim

A model of the `verify` path of the trustee Vault plugin. A caller submits a JWT whose issuer
(`iss`) is an Ethereum address. The token also carries a nonce (`jti`) and a detached
signature over the Keccak-256 hash of that nonce (`eth`). The plugin:

1. strips trailing whitespace from the token;
2. parses it without checking its signature and reads `iss`, `jti` and `eth`;
3. hex-decodes `eth` and recovers the secp256k1 public key that signed the hash of `jti`;
4. derives that key's address and compares its `0x`-prefixed EIP-55 rendering with `iss`,
   ignoring case;
5. only on a match, parses the token again, this time checking its signature, with the
   recovered key as the only key offered;
6. runs the standard validity checks on the claims (`exp`, `nbf`, `iat`).

The first failure ends the run. A failure returns nil claims, a nil key and an error. A
success returns the checked claims, unfiltered, together with the recovered key. The path
handler turns every verifier error into the single error "Error verifying token", so a caller
cannot tell which step failed. On success it returns the claims unchanged as the response data.

The model is pure, as the Go code is: one straight-line chain of calls with early returns.

- `text.dfy`, module `Text`: the two string operations written out in full. Trailing-whitespace
  stripping is the effect of replacing `\s*$` with nothing, where RE2's `\s` is
  tab, newline, form feed, carriage return and space. Lower-casing covers ASCII.
- `collaborators.dfy`, modules `Results` and `Collaborators`: the results of Go calls, with a
  separate `Panic` outcome for failed type assertions, and the `Library` datatype. Its
  function-valued fields stand for the foreign calls: jwt-go's two parsers, Keccak-256,
  `hexutil.Decode`, `crypto.SigToPub`, `crypto.PubkeyToAddress`, `Address.Hex` and
  `MapClaims.Valid`. Every property below is proved for every library, except three lemmas
  that also assume one of the predicates described below. The module also gives
  the shape of an EIP-55 rendering: `0x` followed by the address's hexadecimal digits, each
  letter in either case.
- `path_verify.dfy`, module `PathVerify`: `VerifyClaim` (`verifyClaim`), `PathVerifyClaim`
  (all of `pathVerifyClaim` except reading the `token` field, with the configuration check's
  error as a parameter) and the lemmas about them.

That a failing step ends the run is stated as independence: replacing every library call
after the failing step changes nothing in the result.

Modelling decision for the type assertions at path_verify.go:83, 85 and 86: a claim that is
missing or is not a string makes Go panic. The model keeps this as an explicit `Panic` outcome,
distinct from an error return, and the handler passes the panic on. The assertions at lines 79
and 106 cannot fail, because jwt-go always builds `MapClaims` when it is given `MapClaims`. The
unverified parse has a nil-claims outcome, `Token(None)`, for the check at line 80; which
payloads, if any, produce it is up to jwt-go.

Facts about the code that the model keeps:
- the claims read are `iss`, `jti` and `eth`;
- errors are plain messages;
- a missing or mistyped claim panics, with no error result;
- the hex decoder does not check the signature's length; any length rule belongs to key
  recovery, inside `crypto.SigToPub`;
- `hexutil.Decode` is a foreign partial function, so whether `eth` may omit its `0x` prefix is
  up to the library;
- the binding compares lower-cased strings, and the `0x` prefix takes part in the comparison,
  so an issuer written `0X…` also matches.

Three lemmas take assumptions about the libraries, stated as predicates:
VerifiedIssuerIsSignerAddress and UnprefixedIssuerNeverVerifies assume `RendersEip55`, and
ReturnedClaimsCarryTheBinding assumes `SameDecoding`. `RendersEip55` says that
`Address.Hex` renders every address as `0x` followed by its digits. `SameDecoding` says that
the signature-checking parse decodes a token into the same claims as the unverified parse.

## Model

| member | source | states |
|---|---|---|
| Text.TrimTrailingSpace | path_verify.go:72-73 | the result is a prefix of the token, only RE2 whitespace follows it, and it does not end in whitespace itself |
| Text.TrimStartsAtLeftmostMatch | path_verify.go:72 | the trim stops at the leftmost match of `\s*$`: every non-whitespace character of the token is kept |
| Text.TrimUnique | path_verify.go:72-73 | those three properties determine the stripped token uniquely |
| Text.TrimIgnoresAppendedSpace | path_verify.go:72-73 | a token followed by any run of tab, newline, form feed, carriage return or space strips to the same string as the bare token |
| Text.TrimKeepsAllButTrailingSpace | path_verify.go:72-73 | leading and internal whitespace is left untouched: only the trailing run goes |
| Text.TrimIdempotent | path_verify.go:72-73 | stripping an already stripped token changes nothing |
| Text.ToLower | path_verify.go:99 | the lower-cased string has the same length, no upper-case ASCII letter, and each character equal to the original up to case |
| PathVerify.IssuerMatches | path_verify.go:99 | the binding `strings.ToLower(iss) == strings.ToLower(address.Hex())` holds exactly when both strings have the same length and agree character by character up to ASCII case |
| Text.LowerEqualIff | path_verify.go:99 | lower-cased strings are equal exactly when the strings have the same length and agree character by character up to ASCII case (both directions) |
| Text.OneEditMatchesIffCaseChange | path_verify.go:99 | replacing one character keeps the lower-cased string exactly when the new character is the old one up to case |
| Collaborators.ChecksumHexLowers | path_verify.go:98-99 | lower-casing an EIP-55 rendering of an address gives `0x` and the address's plain lower-case digits |
| PathVerify.StringClaim | path_verify.go:83-86 | a claim's type assertion returns its text exactly when the claim is present and a string; otherwise it panics |
| PathVerify.ReadAsserted | path_verify.go:83-86 | `iss`, `jti` and `eth` are read only when all three are strings, with their exact values; otherwise the panic is that of the first failing assertion, in the order `iss`, `jti`, `eth` |
| PathVerify.KeyLookup | path_verify.go:100-102 | the key-lookup callback answers every token with the one recovered key |
| PathVerify.VerifyClaim | path_verify.go:71-114 | every error return carries nil claims and a nil key; success carries claims and key, and implies the whole trust chain: the signature over Keccak-256 of `jti` alone recovers the returned key, its address matches `iss` up to case, the signature-checking parse with that key as the only key gives exactly the returned claims, and they are valid; a panic happens exactly when a parsed token lacks a string `iss`, `jti` or `eth` |
| PathVerify.TrustedChainVerifies | path_verify.go:75-111 | conversely, when every link of the trust chain holds, the verifier succeeds with exactly those claims and that key |
| PathVerify.VerifyIgnoresTrailingSpace | path_verify.go:72-73 | a token followed by whitespace goes through every later step exactly as the bare token |
| PathVerify.ParseFailureShortCircuits | path_verify.go:75-82 | a parse error or a nil token fails with "cannot parse token", nil claims fail with "cannot get claims", and in both cases the result does not depend on any later library call |
| PathVerify.DecodeFailureShortCircuits | path_verify.go:88-92 | a hex-decode failure of `eth` returns that error with no claims or key, and no recovery, address, parse or validity call affects it |
| PathVerify.RecoveryFailureShortCircuits | path_verify.go:93-97 | a key-recovery failure returns that error with no claims or key, and nothing after recovery affects it |
| PathVerify.OnlyTheNonceIsHashed | path_verify.go:85-87 | the only hashed message is `jti`: any hash function that agrees with Keccak-256 on `jti` gives the same result, whatever it does to the token |
| PathVerify.MismatchDiscardsRecoveredKey | path_verify.go:98-99 | an issuer that does not match the recovered key's address gives "Error verifying token", and the key never reaches the signature-checking parse or the validity check |
| PathVerify.CheckFailureReturnsNothing | path_verify.go:103-110 | after a match, a failed signature-checking parse or failed validity check returns that error with no claims or key |
| PathVerify.IssuerMatchIsAddressEquality | path_verify.go:98-99 | against an EIP-55 rendering, the binding holds exactly when the lower-cased issuer is `0x` followed by the address's lower-case digits |
| PathVerify.UnprefixedIssuerNeverMatches | path_verify.go:99 | an issuer that does not start with `0x` or `0X` never matches an address rendering |
| PathVerify.IssuerEditMatchesIffCaseOnly | path_verify.go:98-99 | an issuer that is an EIP-55 address rendering with one character replaced matches exactly when the new character lower-cases to the address's own lower-case character there |
| PathVerify.VerifiedIssuerIsSignerAddress | path_verify.go:93-111 | when addresses are rendered the EIP-55 way, a verified token's issuer is, up to case, `0x` followed by the digits of the returned key's address |
| PathVerify.UnprefixedIssuerNeverVerifies | path_verify.go:98-113 | when addresses are rendered the EIP-55 way, a token whose issuer does not start with `0x` or `0X` never verifies |
| PathVerify.ReturnedClaimsCarryTheBinding | path_verify.go:83-111 | when both parses decode alike, the returned claims hold a string `iss` that matches the returned key's address, and a `jti` and `eth` whose signature recovers that key |
| PathVerify.PathVerifyClaim | path_verify.go:56-69 | a configuration error is returned as it is; otherwise the handler panics exactly when the verifier does, fails exactly when the verifier fails, always with "Error verifying token", and on success returns the verifier's claims unchanged as the response data |
| PathVerify.HandlerHidesFailingStep | path_verify.go:62-68 | any two requests the verifier rejects get the same answer from the handler, whatever step failed |

## Left out

- Path registration, the field schema and the existence check (path_verify.go:32-54): they are
  configuration of the Vault framework and hold no logic.
- The backend configuration read `b.configured` (path_verify.go:57-60): it is storage I/O, so
  the model takes only its error (or none) as a parameter.
- `data.Get("token").(string)` (path_verify.go:61): with a string field schema the assertion
  cannot fail, so the token is a string parameter.
- The insides of jwt-go's `ParseUnverified` and `Parse`: base64url and JSON decoding, the
  signing-algorithm check, and the validity check `Parse` runs itself. These are foreign calls
  in the `Library` datatype.
- The insides of Keccak-256, `hexutil.Decode` (its prefix and length rules),
  `crypto.SigToPub` (secp256k1 recovery, the recovery-id range and the 65-byte length check),
  `crypto.PubkeyToAddress` and EIP-55 checksumming. These are foreign calls. `hashKeccak256` is
  not part of this model, so its encoding of the string into bytes is the library's concern.
- The time rules inside `MapClaims.Valid` (`exp`, `nbf`, `iat`): they read the wall clock, so
  `valid` is a function of the claims that the library supplies.
- The signature-checking parse's claims are taken to be a non-nil map; the model gives that
  parse no nil-claims outcome. Nothing links the two parses unless `SameDecoding` is assumed,
  which only ReturnedClaimsCarryTheBinding does.
- Text.ToLower: covers ASCII only, where Go's `strings.ToLower` covers all of Unicode. No
  non-ASCII character lower-cases to `0`-`9`, `a`-`f` or `x`, so the binding against an ASCII
  address rendering reaches the same verdict.
- PathVerify.VerifyClaim: the error at path_verify.go:104 is modelled as carrying the parse
  error's message. `fmt.Errorf` would also read any `%` verbs in that message as formatting
  directives; this is not modelled, because the handler discards the message anyway.
- How a panic ends the request (recovery by the plugin framework or the end of the plugin
  process) lies outside the plugin and is not modelled.
- The regular-expression engine in general: only the effect of `\s*$` is modelled.
