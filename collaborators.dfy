/** Results, and the values and calls that the verification pipeline borrows from its libraries. */
module Results {

  datatype Option<+T> = None | Some(value: T)

  /** A call that returns an error value, as Go functions do: `Ok` or an error message. */
  datatype Result<+T> = Ok(value: T) | Err(msg: string)

  /** How a Go call ends: it returns normally, or it panics (a failed type assertion). */
  datatype Outcome<+T> = Return(value: T) | Panic(reason: string)
}

/** The JWT library (jwt-go), the Ethereum libraries (Keccak-256, hexutil, secp256k1 key recovery,
    address derivation and rendering) and the clock behind the claims' validity check. None of
    them is modelled inside: each is a function-valued field of `Library`, and every property of
    the pipeline is proved for every library, except where a lemma names an assumption about
    the library as a predicate. */
module Collaborators {
  import opened Results
  import opened Text

  type byte = x: int | 0 <= x < 256

  /** A Keccak-256 digest. */
  type Hash = h: seq<byte> | |h| == 32 witness seq(32, i => 0)

  /** An Ethereum account address: the last 20 bytes of the Keccak-256 digest of a public key. */
  type Address = a: seq<byte> | |a| == 20 witness seq(20, i => 0)

  /** A secp256k1 public key, as the point's coordinates. */
  datatype PublicKey = PublicKey(x: nat, y: nat)

  /** A value decoded from the token's JSON payload. */
  datatype Json =
    | JNull
    | JBool(b: bool)
    | JNumber(n: real)
    | JString(s: string)
    | JArray(items: seq<Json>)
    | JObject(fields: map<string, Json>)

  /** jwt-go's `MapClaims`: the payload's claims by name. */
  type Claims = map<string, Json>

  /** The parsed but not yet trusted token that jwt-go hands to a key-lookup callback. */
  datatype TokenView = TokenView(header: map<string, Json>, claims: Claims)

  /** jwt-go's `Keyfunc`: given the parsed token, the key to check its signature with. */
  type KeyFunc = TokenView -> Result<PublicKey>

  /** What `Parser.ParseUnverified` gives back: an error, no token and no error, or a token
      whose claims map may be nil (the case path_verify.go:80 checks for). */
  datatype Unverified = ParseError(msg: string) | NilToken | Token(claims: Option<Claims>)

  /** The foreign calls, one field each.
      - parseUnverified: `new(jwt.Parser).ParseUnverified(token, jwt.MapClaims{})`
      - keccak256: `hashKeccak256`, Keccak-256 of the string's bytes
      - hexDecode: `hexutil.Decode`, a partial function
      - sigToPub: `crypto.SigToPub(hash, signature)`, secp256k1 public-key recovery
      - pubkeyToAddress: `crypto.PubkeyToAddress`
      - hex: `Address.Hex`, the EIP-55 checksummed rendering
      - parse: `jwt.Parse(token, keyFunc)`, parsing that checks the signature
      - valid: `MapClaims.Valid`, the time-based claim checks against the current clock
        (`None` is Go's nil error) */
  datatype Library = Library(
    parseUnverified: string -> Unverified,
    keccak256: string -> Hash,
    hexDecode: string -> Result<seq<byte>>,
    sigToPub: (Hash, seq<byte>) -> Result<PublicKey>,
    pubkeyToAddress: PublicKey -> Address,
    hex: Address -> string,
    parse: (string, KeyFunc) -> Result<Claims>,
    valid: Claims -> Option<string>
  )

  /** A lower-case hexadecimal digit. */
  function HexDigit(n: nat): (c: char)
    requires n < 16
    ensures LowerChar(c) == c
    ensures ('0' <= c <= '9') || ('a' <= c <= 'f')
  {
    if n < 10 then ('0' as int + n) as char else ('a' as int + n - 10) as char
  }

  /** The 40 lower-case hexadecimal digits of an address, high nibble first. */
  function LowerHex(a: Address): (h: string)
    ensures |h| == 40
    ensures ToLower(h) == h
  {
    seq(40, i requires 0 <= i < 40 => HexDigit(if i % 2 == 0 then a[i / 2] / 16 else a[i / 2] % 16))
  }

  /** The shape of an EIP-55 rendering of `a`: `0x` and then the address's hexadecimal digits,
      each letter in either case (the checksum only chooses the case of the letters). */
  ghost predicate IsChecksumHex(h: string, a: Address) {
    |h| == 42 && h[..2] == "0x" && ToLower(h[2..]) == LowerHex(a)
  }

  /** Lower-casing an EIP-55 rendering gives `0x` and the plain lower-case digits. */
  lemma ChecksumHexLowers(h: string, a: Address)
    requires IsChecksumHex(h, a)
    ensures ToLower(h) == "0x" + LowerHex(a)
  {
    assert h == h[..2] + h[2..];
    ToLowerAppend(h[..2], h[2..]);
    assert ToLower("0x") == "0x";
  }
}
