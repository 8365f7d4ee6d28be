/** The `verify` path of the trustee plugin: a JWT whose issuer is an Ethereum address is
    accepted only when a detached signature over its `jti` claim recovers a key whose address
    is that issuer, and the token's own signature checks out against that same key. */
module PathVerify {
  import opened Results
  import opened Text
  import opened Collaborators

  /** The one error the path handler reports, and the verifier's own issuer-mismatch error. */
  const GenericError: string := "Error verifying token"
  const CannotParse: string := "cannot parse token"
  const CannotGetClaims: string := "cannot get claims"

  /** What the token asserts before anything in it is trusted: the issuer address, the nonce
      that was signed, and the hex-encoded detached signature over the nonce's hash. */
  datatype Asserted = Asserted(iss: string, jti: string, eth: string)

  /** The verifier's three Go results: claims, public key and error, with nil as `None`. */
  datatype VerifyReturn = VerifyReturn(claims: Option<Claims>, key: Option<PublicKey>, err: Option<string>)

  /** A failure: nil claims, nil key and an error. */
  function Failure(msg: string): VerifyReturn {
    VerifyReturn(None, None, Some(msg))
  }

  /** A success: the claims, the key and a nil error. */
  function Success(claims: Claims, key: PublicKey): VerifyReturn {
    VerifyReturn(Some(claims), Some(key), None)
  }

  predicate HasStringClaim(u: Claims, name: string) {
    name in u && u[name].JString?
  }

  /** The type assertion `u[name].(string)`: the claim's text, or a panic when the claim is
      missing (a nil interface) or holds something other than a string. The panic message is
      the model's own wording, naming the claim; Go's runtime words it differently
      ("interface conversion: interface {} is nil, not string"). */
  function StringClaim(u: Claims, name: string): (r: Outcome<string>)
    ensures r.Return? <==> HasStringClaim(u, name)
    ensures r.Return? ==> u[name] == JString(r.value)
  {
    if HasStringClaim(u, name) then Return(u[name].s)
    else Panic("interface conversion: claim " + name + " is not a string")
  }

  /** Reading `iss`, then `jti`, then `eth`; the first assertion that fails panics. */
  function ReadAsserted(u: Claims): (r: Outcome<Asserted>)
    ensures r.Return? <==> HasStringClaim(u, "iss") && HasStringClaim(u, "jti") && HasStringClaim(u, "eth")
    ensures r.Return? ==>
              u["iss"] == JString(r.value.iss) && u["jti"] == JString(r.value.jti) && u["eth"] == JString(r.value.eth)
    ensures r.Panic? ==>
              r.reason == (if !HasStringClaim(u, "iss") then StringClaim(u, "iss")
                           else if !HasStringClaim(u, "jti") then StringClaim(u, "jti")
                           else StringClaim(u, "eth")).reason
  {
    match StringClaim(u, "iss")
    case Panic(p) => Panic(p)
    case Return(iss) =>
      match StringClaim(u, "jti")
      case Panic(p) => Panic(p)
      case Return(jti) =>
        match StringClaim(u, "eth")
        case Panic(p) => Panic(p)
        case Return(eth) => Return(Asserted(iss, jti, eth))
  }

  /** The key-lookup callback handed to the checking parse: whatever token it is asked about,
      it answers with the one key it was built from. */
  function KeyLookup(key: PublicKey): (f: KeyFunc)
    ensures forall t :: f(t) == Ok(key)
  {
    (t: TokenView) => Ok(key)
  }

  /** The trust binding: the asserted issuer and the rendered address agree after lower-casing,
      that is, they have the same length and agree character by character up to ASCII case. */
  predicate IssuerMatches(iss: string, addressHex: string): (m: bool)
    ensures m <==> |iss| == |addressHex|
                   && forall i :: 0 <= i < |iss| ==> SameIgnoringCase(iss[i], addressHex[i])
  {
    LowerEqualIff(iss, addressHex);
    ToLower(iss) == ToLower(addressHex)
  }

  /** The whole chain of trust, stated step by step for a token already stripped of trailing
      whitespace: the token parses to claims carrying string `iss`, `jti` and `eth`; `eth`
      decodes to a signature; the signature over the Keccak-256 hash of `jti` alone recovers
      `key`; the address of `key` renders to the issuer up to case; the token's own signature
      checks out with `key` as the only key offered; and the claims it yields, exactly `claims`,
      are currently valid. */
  ghost predicate Trusted(lib: Library, token: string, claims: Claims, key: PublicKey) {
    var p := lib.parseUnverified(token);
    p.Token? && p.claims.Some? &&
    var a := ReadAsserted(p.claims.value);
    a.Return? &&
    var sig := lib.hexDecode(a.value.eth);
    sig.Ok? &&
    lib.sigToPub(lib.keccak256(a.value.jti), sig.value) == Ok(key) &&
    IssuerMatches(a.value.iss, lib.hex(lib.pubkeyToAddress(key))) &&
    lib.parse(token, KeyLookup(key)) == Ok(claims) &&
    lib.valid(claims).None?
  }

  /** The verifier panics exactly when the unverified parse produced claims and one of `iss`,
      `jti`, `eth` is missing or not a string. */
  ghost predicate PanicsOn(lib: Library, token: string) {
    var p := lib.parseUnverified(token);
    p.Token? && p.claims.Some? &&
    !(HasStringClaim(p.claims.value, "iss") && HasStringClaim(p.claims.value, "jti")
      && HasStringClaim(p.claims.value, "eth"))
  }

  /** `verifyClaim`: strip trailing whitespace, read the asserted claims without checking
      anything, recover the signer of the nonce, bind it to the issuer, and only then check the
      token's signature with the recovered key and the claims' validity. Every failure returns
      nil claims and a nil key; success returns the checked claims and the recovered key. */
  function VerifyClaim(lib: Library, rawToken: string): (r: Outcome<VerifyReturn>)
    ensures r.Return? && r.value.err.Some? ==> r.value.claims.None? && r.value.key.None?
    ensures r.Return? && r.value.err.None? ==>
              r.value.claims.Some? && r.value.key.Some? &&
              Trusted(lib, TrimTrailingSpace(rawToken), r.value.claims.value, r.value.key.value)
    ensures r.Panic? <==> PanicsOn(lib, TrimTrailingSpace(rawToken))
  {
    var token := TrimTrailingSpace(rawToken);
    match lib.parseUnverified(token)
    case ParseError(_) => Return(Failure(CannotParse))
    case NilToken => Return(Failure(CannotParse))
    case Token(None) => Return(Failure(CannotGetClaims))
    case Token(Some(unverified)) =>
      match ReadAsserted(unverified)
      case Panic(p) => Panic(p)
      case Return(asserted) =>
        var hash := lib.keccak256(asserted.jti);
        match lib.hexDecode(asserted.eth)
        case Err(e) => Return(Failure(e))
        case Ok(signature) =>
          match lib.sigToPub(hash, signature)
          case Err(e) => Return(Failure(e))
          case Ok(pubkey) =>
            var address := lib.pubkeyToAddress(pubkey);
            if IssuerMatches(asserted.iss, lib.hex(address)) then
              match lib.parse(token, KeyLookup(pubkey))
              case Err(e) => Return(Failure(e))
              case Ok(claims) =>
                match lib.valid(claims)
                case Some(e) => Return(Failure(e))
                case None => Return(Success(claims, pubkey))
            else
              Return(Failure(GenericError))
  }

  /** The converse of VerifyClaim's success clause: when every link of the chain holds, the
      verifier succeeds with exactly those claims and that key. */
  lemma TrustedChainVerifies(lib: Library, rawToken: string, claims: Claims, key: PublicKey)
    requires Trusted(lib, TrimTrailingSpace(rawToken), claims, key)
    ensures VerifyClaim(lib, rawToken) == Return(Success(claims, key))
  {
  }

  /** A token followed by any run of whitespace is verified exactly as the bare token. */
  lemma VerifyIgnoresTrailingSpace(lib: Library, rawToken: string, w: string)
    requires AllSpace(w)
    ensures VerifyClaim(lib, rawToken + w) == VerifyClaim(lib, rawToken)
  {
    TrimIgnoresAppendedSpace(rawToken, w);
  }

  /** A token the unverified parse rejects, or whose claims are nil, fails with no claims and no
      key, and no later call is consulted: any library that parses the same way gives the same
      result. */
  lemma ParseFailureShortCircuits(lib: Library, rawToken: string, later: Library)
    requires !(lib.parseUnverified(TrimTrailingSpace(rawToken)).Token?
               && lib.parseUnverified(TrimTrailingSpace(rawToken)).claims.Some?)
    ensures !lib.parseUnverified(TrimTrailingSpace(rawToken)).Token? ==>
              VerifyClaim(lib, rawToken) == Return(Failure(CannotParse))
    ensures lib.parseUnverified(TrimTrailingSpace(rawToken)).Token? ==>
              VerifyClaim(lib, rawToken) == Return(Failure(CannotGetClaims))
    ensures VerifyClaim(later.(parseUnverified := lib.parseUnverified), rawToken) == VerifyClaim(lib, rawToken)
  {
  }

  /** A detached signature that is not valid hex fails with the decoder's error, before any key
      recovery, address derivation or token check. */
  lemma DecodeFailureShortCircuits(lib: Library, rawToken: string, u: Claims, a: Asserted, later: Library)
    requires lib.parseUnverified(TrimTrailingSpace(rawToken)) == Token(Some(u))
    requires ReadAsserted(u) == Return(a)
    requires lib.hexDecode(a.eth).Err?
    ensures VerifyClaim(lib, rawToken) == Return(Failure(lib.hexDecode(a.eth).msg))
    ensures VerifyClaim(later.(parseUnverified := lib.parseUnverified, hexDecode := lib.hexDecode), rawToken)
            == VerifyClaim(lib, rawToken)
  {
  }

  /** A signature from which no key can be recovered fails with the recovery error, before any
      address derivation or token check. */
  lemma RecoveryFailureShortCircuits(lib: Library, rawToken: string, u: Claims, a: Asserted, later: Library)
    requires lib.parseUnverified(TrimTrailingSpace(rawToken)) == Token(Some(u))
    requires ReadAsserted(u) == Return(a)
    requires lib.hexDecode(a.eth).Ok?
    requires lib.sigToPub(lib.keccak256(a.jti), lib.hexDecode(a.eth).value).Err?
    ensures VerifyClaim(lib, rawToken)
            == Return(Failure(lib.sigToPub(lib.keccak256(a.jti), lib.hexDecode(a.eth).value).msg))
    ensures VerifyClaim(later.(parseUnverified := lib.parseUnverified, keccak256 := lib.keccak256,
                               hexDecode := lib.hexDecode, sigToPub := lib.sigToPub), rawToken)
            == VerifyClaim(lib, rawToken)
  {
  }

  /** The only message that is hashed is `jti`: a hash function that agrees with Keccak-256 on
      `jti`, whatever it does on every other input (the token itself included), changes nothing. */
  lemma OnlyTheNonceIsHashed(lib: Library, rawToken: string, u: Claims, a: Asserted, h: string -> Hash)
    requires lib.parseUnverified(TrimTrailingSpace(rawToken)) == Token(Some(u))
    requires ReadAsserted(u) == Return(a)
    requires h(a.jti) == lib.keccak256(a.jti)
    ensures VerifyClaim(lib.(keccak256 := h), rawToken) == VerifyClaim(lib, rawToken)
  {
  }

  /** When the recovered key's address does not match the issuer, the result is the generic
      error and the key is discarded: it never reaches the checking parse or the validity check,
      whatever those would do. */
  lemma MismatchDiscardsRecoveredKey(lib: Library, rawToken: string, u: Claims, a: Asserted, key: PublicKey, later: Library)
    requires lib.parseUnverified(TrimTrailingSpace(rawToken)) == Token(Some(u))
    requires ReadAsserted(u) == Return(a)
    requires lib.hexDecode(a.eth).Ok?
    requires lib.sigToPub(lib.keccak256(a.jti), lib.hexDecode(a.eth).value) == Ok(key)
    requires !IssuerMatches(a.iss, lib.hex(lib.pubkeyToAddress(key)))
    ensures VerifyClaim(lib, rawToken) == Return(Failure(GenericError))
    ensures VerifyClaim(lib.(parse := later.parse, valid := later.valid), rawToken) == VerifyClaim(lib, rawToken)
  {
  }

  /** After a match, a token whose own signature does not check out against the recovered key,
      or whose claims are not currently valid, fails with that error and no claims or key. */
  lemma CheckFailureReturnsNothing(lib: Library, rawToken: string, u: Claims, a: Asserted, key: PublicKey)
    requires lib.parseUnverified(TrimTrailingSpace(rawToken)) == Token(Some(u))
    requires ReadAsserted(u) == Return(a)
    requires lib.hexDecode(a.eth).Ok?
    requires lib.sigToPub(lib.keccak256(a.jti), lib.hexDecode(a.eth).value) == Ok(key)
    requires IssuerMatches(a.iss, lib.hex(lib.pubkeyToAddress(key)))
    ensures lib.parse(TrimTrailingSpace(rawToken), KeyLookup(key)).Err? ==>
              VerifyClaim(lib, rawToken)
              == Return(Failure(lib.parse(TrimTrailingSpace(rawToken), KeyLookup(key)).msg))
    ensures lib.parse(TrimTrailingSpace(rawToken), KeyLookup(key)).Ok? ==>
              var claims := lib.parse(TrimTrailingSpace(rawToken), KeyLookup(key)).value;
              lib.valid(claims).Some? ==> VerifyClaim(lib, rawToken) == Return(Failure(lib.valid(claims).value))
  {
  }

  /** With an address rendered the EIP-55 way, the binding holds exactly when the issuer is
      `0x` (either case of `x`) followed by the address's digits, each letter in either case. */
  lemma IssuerMatchIsAddressEquality(iss: string, addressHex: string, address: Address)
    requires IsChecksumHex(addressHex, address)
    ensures IssuerMatches(iss, addressHex) <==> ToLower(iss) == "0x" + LowerHex(address)
  {
    ChecksumHexLowers(addressHex, address);
  }

  /** An issuer that does not start with `0x` or `0X` never matches an EIP-55 rendering. */
  lemma UnprefixedIssuerNeverMatches(iss: string, addressHex: string, address: Address)
    requires IsChecksumHex(addressHex, address)
    requires !(|iss| >= 2 && iss[0] == '0' && (iss[1] == 'x' || iss[1] == 'X'))
    ensures !IssuerMatches(iss, addressHex)
  {
    ChecksumHexLowers(addressHex, address);
    if |iss| >= 2 {
      assert ToLower(iss)[0] == LowerChar(iss[0]);
      assert ToLower(iss)[1] == LowerChar(iss[1]);
      assert ("0x" + LowerHex(address))[0] == '0';
      assert ("0x" + LowerHex(address))[1] == 'x';
    }
  }

  /** An issuer that is the EIP-55 rendering of the address with one character replaced still
      matches exactly when the new character lower-cases to the address's own character there:
      a change of case keeps the binding, a different digit or letter breaks it. */
  lemma IssuerEditMatchesIffCaseOnly(addressHex: string, address: Address, i: nat, c: char)
    requires IsChecksumHex(addressHex, address)
    requires i < |addressHex|
    ensures IssuerMatches(addressHex[i := c], addressHex) <==> LowerChar(c) == ("0x" + LowerHex(address))[i]
  {
    OneEditMatchesIffCaseChange(addressHex, i, c);
    LowerCharEqualIff(c, addressHex[i]);
    ChecksumHexLowers(addressHex, address);
    assert ToLower(addressHex)[i] == LowerChar(addressHex[i]);
  }

  /** The library renders every address the EIP-55 way. */
  ghost predicate RendersEip55(lib: Library) {
    forall a: Address :: IsChecksumHex(lib.hex(a), a)
  }

  /** With EIP-55 rendering, a verified token's issuer is, up to case, `0x` followed by the
      lower-case digits of the address of the key that signed its nonce and is returned. */
  lemma VerifiedIssuerIsSignerAddress(lib: Library, rawToken: string, u: Claims, a: Asserted)
    requires RendersEip55(lib)
    requires lib.parseUnverified(TrimTrailingSpace(rawToken)) == Token(Some(u))
    requires ReadAsserted(u) == Return(a)
    requires VerifyClaim(lib, rawToken).Return? && VerifyClaim(lib, rawToken).value.err.None?
    ensures ToLower(a.iss) == "0x" + LowerHex(lib.pubkeyToAddress(VerifyClaim(lib, rawToken).value.key.value))
  {
    var address := lib.pubkeyToAddress(VerifyClaim(lib, rawToken).value.key.value);
    IssuerMatchIsAddressEquality(a.iss, lib.hex(address), address);
  }

  /** With EIP-55 rendering, a token whose issuer does not start with `0x` or `0X` never
      verifies: it ends in an error (or a panic), never with claims and a key. */
  lemma UnprefixedIssuerNeverVerifies(lib: Library, rawToken: string, u: Claims, a: Asserted)
    requires RendersEip55(lib)
    requires lib.parseUnverified(TrimTrailingSpace(rawToken)) == Token(Some(u))
    requires ReadAsserted(u) == Return(a)
    requires !(|a.iss| >= 2 && a.iss[0] == '0' && (a.iss[1] == 'x' || a.iss[1] == 'X'))
    ensures VerifyClaim(lib, rawToken).Return? && VerifyClaim(lib, rawToken).value.err.Some?
  {
    var r := VerifyClaim(lib, rawToken);
    if r.Return? && r.value.err.None? {
      var address := lib.pubkeyToAddress(r.value.key.value);
      UnprefixedIssuerNeverMatches(a.iss, lib.hex(address), address);
    }
  }

  /** The two parses decode a token the same way: whenever the signature-checking parse yields
      claims, the unverified parse of the same token yields those very claims. */
  ghost predicate SameDecoding(lib: Library) {
    forall t, k, c :: lib.parse(t, k) == Ok(c) ==> lib.parseUnverified(t) == Token(Some(c))
  }

  /** When both parses decode alike, the claims handed back on success are the ones the trust
      chain checked: their `iss` matches the returned key's address, and their `eth`, decoded,
      is a signature over the Keccak-256 hash of their `jti` that recovers the returned key. */
  lemma ReturnedClaimsCarryTheBinding(lib: Library, rawToken: string)
    requires SameDecoding(lib)
    requires VerifyClaim(lib, rawToken).Return? && VerifyClaim(lib, rawToken).value.err.None?
    ensures var claims := VerifyClaim(lib, rawToken).value.claims.value;
            var key := VerifyClaim(lib, rawToken).value.key.value;
            HasStringClaim(claims, "iss") && HasStringClaim(claims, "jti") && HasStringClaim(claims, "eth")
            && IssuerMatches(claims["iss"].s, lib.hex(lib.pubkeyToAddress(key)))
            && lib.hexDecode(claims["eth"].s).Ok?
            && lib.sigToPub(lib.keccak256(claims["jti"].s), lib.hexDecode(claims["eth"].s).value) == Ok(key)
  {
  }

  /** The response of the path: the claims as its data. */
  datatype Response = Response(data: Claims)

  /** The handler's two Go results: response and error. */
  datatype HandlerReturn = HandlerReturn(resp: Option<Response>, err: Option<string>)

  /** `pathVerifyClaim`: after the backend's configuration check (`configError`, the error it
      returns, if any), run the verifier on the `token` field. Any verifier error becomes the one
      generic error, so a caller cannot tell which step failed; on success the claims are the
      response data, unchanged. */
  function PathVerifyClaim(lib: Library, configError: Option<string>, token: string): (r: Outcome<HandlerReturn>)
    ensures configError.Some? ==> r == Return(HandlerReturn(None, configError))
    ensures configError.None? ==> (r.Panic? <==> VerifyClaim(lib, token).Panic?)
    ensures configError.None? && r.Return? ==>
              (r.value.err.None? <==> VerifyClaim(lib, token).value.err.None?)
    ensures configError.None? && r.Return? && r.value.err.Some? ==>
              r.value == HandlerReturn(None, Some(GenericError))
    ensures configError.None? && r.Return? && r.value.err.None? ==>
              r.value.resp == Some(Response(VerifyClaim(lib, token).value.claims.value))
  {
    match configError
    case Some(e) => Return(HandlerReturn(None, Some(e)))
    case None =>
      match VerifyClaim(lib, token)
      case Panic(p) => Panic(p)
      case Return(VerifyReturn(claims, _, err)) =>
        if err.None? then Return(HandlerReturn(Some(Response(claims.value)), None))
        else Return(HandlerReturn(None, Some(GenericError)))
  }

  /** No oracle: two requests that the verifier rejects, for whatever reasons and at whatever
      steps, get the same answer from the path. */
  lemma HandlerHidesFailingStep(lib1: Library, token1: string, lib2: Library, token2: string)
    requires VerifyClaim(lib1, token1).Return? && VerifyClaim(lib1, token1).value.err.Some?
    requires VerifyClaim(lib2, token2).Return? && VerifyClaim(lib2, token2).value.err.Some?
    ensures PathVerifyClaim(lib1, None, token1) == PathVerifyClaim(lib2, None, token2)
  {
  }
}
