/**
 * The encrypted payload (packages/encryption-binary-rust/src/crypto.rs) and its decryption with a key
 * from the key store at any later time.
 *
 * ECDH on P-256, HKDF-SHA256 and AES-256-GCM are functions of a `Suite`; `SuiteSound` lists what is
 * assumed of them. Overwriting key buffers after use is left out.
 */
module PayloadCrypto {
  import opened Bytes
  import opened KeyProtection
  import opened KeyRecovery
  import opened KeyStore
  import opened Outcomes

  const PAYLOAD_VERSION: byte := 0x01
  const HKDF_SALT := "varlock-ecies-v1"
  const PUBLIC_KEY_LENGTH := 65
  const NONCE_LENGTH := 12
  const TAG_LENGTH := 16
  const HEADER_LENGTH := 1 + PUBLIC_KEY_LENGTH + NONCE_LENGTH

  /**
   * `publicOf` is the uncompressed point of a secret scalar, `onCurve` accepts the encoding of a point,
   * `agree` is the shared secret, `derive` the key from secret, salt and info; `close` and `open` take
   * key, nonce and text, and `close` appends the tag.
   */
  datatype Suite = Suite(
    publicOf: seq<byte> -> seq<byte>,
    onCurve: seq<byte> -> bool,
    agree: (seq<byte>, seq<byte>) -> seq<byte>,
    derive: (seq<byte>, string, seq<byte>) -> seq<byte>,
    close: (seq<byte>, seq<byte>, seq<byte>) -> Option<seq<byte>>,
    open: (seq<byte>, seq<byte>, seq<byte>) -> Option<seq<byte>>
  )

  ghost predicate SuiteSound(su: Suite) {
    && (forall a :: |su.publicOf(a)| == PUBLIC_KEY_LENGTH && su.onCurve(su.publicOf(a)))
    && (forall a, b :: su.agree(a, su.publicOf(b)) == su.agree(b, su.publicOf(a)))
    && (forall k, n, t :: su.close(k, n, t).Some? ==>
          |su.close(k, n, t).value| == |t| + TAG_LENGTH && su.open(k, n, su.close(k, n, t).value) == Some(t))
  }

  function ContentKey(su: Suite, secret: seq<byte>, pub: seq<byte>, ephemeralPub: seq<byte>,
                      recipientPub: seq<byte>): seq<byte> {
    su.derive(su.agree(secret, pub), HKDF_SALT, ephemeralPub + recipientPub)
  }

  /** The bytes on the wire: version, ephemeral public key, nonce, then ciphertext with its tag. */
  function Payload(ephemeralPub: seq<byte>, nonce: seq<byte>, sealed: seq<byte>): seq<byte> {
    [PAYLOAD_VERSION] + ephemeralPub + nonce + sealed
  }

  /** `ephemeral` and `nonce` are the random choices of the call. */
  method Encrypt(pf: Platform, su: Suite, publicKey: string, plaintext: seq<byte>, ephemeral: seq<byte>,
                 nonce: seq<byte>)
    returns (r: Outcome<string>)
    requires SuiteSound(su)
    ensures r == Encrypted(pf, su, publicKey, plaintext, ephemeral, nonce)
  {
    var recipient := pf.decode(publicKey);
    if recipient.None? { return Throw("Invalid public key base64"); }
    var recipientPub := recipient.value;
    if |recipientPub| != PUBLIC_KEY_LENGTH { return Throw("Invalid public key length"); }
    if !su.onCurve(recipientPub) { return Throw("Invalid P-256 public key point"); }

    var ephemeralPub := su.publicOf(ephemeral);
    var info := [];
    info := info + ephemeralPub;
    info := info + recipientPub;
    assert info == ephemeralPub + recipientPub;
    var key := su.derive(su.agree(ephemeral, recipientPub), HKDF_SALT, info);
    var sealed := su.close(key, nonce, plaintext);
    if sealed.None? { return Throw("AES-GCM encryption failed"); }

    var textLen := |sealed.value| - TAG_LENGTH;
    var ciphertext := sealed.value[..textLen];
    var tag := sealed.value[textLen..];
    var payload: seq<byte> := [];
    payload := payload + [PAYLOAD_VERSION];
    payload := payload + ephemeralPub;
    payload := payload + nonce;
    payload := payload + ciphertext;
    payload := payload + tag;
    assert ciphertext + tag == sealed.value;
    assert payload == Payload(ephemeralPub, nonce, sealed.value);
    return Ok(pf.encode(payload));
  }

  function Encrypted(pf: Platform, su: Suite, publicKey: string, plaintext: seq<byte>, ephemeral: seq<byte>,
                     nonce: seq<byte>)
    : Outcome<string>
  {
    match pf.decode(publicKey)
    case None => Throw("Invalid public key base64")
    case Some(recipientPub) =>
      if |recipientPub| != PUBLIC_KEY_LENGTH then Throw("Invalid public key length")
      else if !su.onCurve(recipientPub) then Throw("Invalid P-256 public key point")
      else
        var ephemeralPub := su.publicOf(ephemeral);
        match su.close(ContentKey(su, ephemeral, recipientPub, ephemeralPub, recipientPub), nonce, plaintext)
        case None => Throw("AES-GCM encryption failed")
        case Some(sealed) => Ok(pf.encode(Payload(ephemeralPub, nonce, sealed)))
  }

  /** Takes the payload apart and reverses each step; the first check that fails names the error. */
  function Decrypted(pf: Platform, su: Suite, privateKey: string, publicKey: string,
                     ciphertext: string): Outcome<seq<byte>> {
    match pf.decode(ciphertext)
    case None => Throw("Invalid ciphertext base64")
    case Some(payload) =>
      if |payload| < HEADER_LENGTH + TAG_LENGTH then Throw("Payload too short")
      else if payload[0] != PAYLOAD_VERSION then Throw("Unsupported payload version")
      else
        var ephemeralPub := payload[1..1 + PUBLIC_KEY_LENGTH];
        var nonce := payload[1 + PUBLIC_KEY_LENGTH..HEADER_LENGTH];
        var sealed := payload[HEADER_LENGTH..];
        match pf.decode(privateKey)
        case None => Throw("Invalid private key base64")
        case Some(der) =>
          match pf.toScalar(der)
          case None => Throw("Invalid PKCS8 private key")
          case Some(secret) =>
            if !su.onCurve(ephemeralPub) then Throw("Invalid ephemeral P-256 point")
            else
              match pf.decode(publicKey)
              case None => Throw("Invalid public key base64")
              case Some(recipientPub) =>
                match su.open(ContentKey(su, secret, ephemeralPub, ephemeralPub, recipientPub), nonce, sealed)
                case None => Throw("Decryption failed: invalid ciphertext or key")
                case Some(plaintext) => Ok(plaintext)
  }

  method Decrypt(pf: Platform, su: Suite, privateKey: string, publicKey: string, ciphertext: string)
    returns (r: Outcome<seq<byte>>)
    ensures r == Decrypted(pf, su, privateKey, publicKey, ciphertext)
  {
    var decoded := pf.decode(ciphertext);
    if decoded.None? { return Throw("Invalid ciphertext base64"); }
    var payload := decoded.value;
    if |payload| < HEADER_LENGTH + TAG_LENGTH { return Throw("Payload too short"); }
    if payload[0] != PAYLOAD_VERSION { return Throw("Unsupported payload version"); }

    var ephemeralPub := payload[1..1 + PUBLIC_KEY_LENGTH];
    var nonce := payload[1 + PUBLIC_KEY_LENGTH..HEADER_LENGTH];
    var sealed := payload[HEADER_LENGTH..];

    var der := pf.decode(privateKey);
    if der.None? { return Throw("Invalid private key base64"); }
    var secret := pf.toScalar(der.value);
    if secret.None? { return Throw("Invalid PKCS8 private key"); }
    if !su.onCurve(ephemeralPub) { return Throw("Invalid ephemeral P-256 point"); }
    var recipient := pf.decode(publicKey);
    if recipient.None? { return Throw("Invalid public key base64"); }

    var info := [];
    info := info + ephemeralPub;
    info := info + recipient.value;
    assert info == ephemeralPub + recipient.value;
    var key := su.derive(su.agree(secret.value, ephemeralPub), HKDF_SALT, info);
    var plaintext := su.open(key, nonce, sealed);
    return if plaintext.Some? then Ok(plaintext.value) else Throw("Decryption failed: invalid ciphertext or key");
  }

  lemma PayloadParts(ephemeralPub: seq<byte>, nonce: seq<byte>, sealed: seq<byte>)
    requires |ephemeralPub| == PUBLIC_KEY_LENGTH && |nonce| == NONCE_LENGTH
    ensures var payload := Payload(ephemeralPub, nonce, sealed);
      && |payload| == HEADER_LENGTH + |sealed| && payload[0] == PAYLOAD_VERSION
      && payload[1..1 + PUBLIC_KEY_LENGTH] == ephemeralPub
      && payload[1 + PUBLIC_KEY_LENGTH..HEADER_LENGTH] == nonce
      && payload[HEADER_LENGTH..] == sealed
  {
  }

  /**
   * The ciphertext on the wire: a byte 1, 65 bytes of the ephemeral public key, 12 of the nonce, and the text closed
   * under a key derived with the salt of the scheme from the shared secret and both public keys.
   */
  lemma WireFormat(pf: Platform, su: Suite, publicKey: string, plaintext: seq<byte>, ephemeral: seq<byte>,
                   nonce: seq<byte>)
    requires Sound(pf) && SuiteSound(su) && |nonce| == 12
    ensures var ct := Encrypted(pf, su, publicKey, plaintext, ephemeral, nonce);
      ct.Ok? ==>
        && pf.decode(publicKey).Some? && pf.decode(ct.value).Some?
        && var recipientPub, payload := pf.decode(publicKey).value, pf.decode(ct.value).value;
           var info := su.publicOf(ephemeral) + recipientPub;
           var key := su.derive(su.agree(ephemeral, recipientPub), "varlock-ecies-v1", info);
           && |payload| == 1 + 65 + 12 + |plaintext| + 16 && payload[0] == 1
           && payload[1..66] == su.publicOf(ephemeral) && payload[66..78] == nonce
           && su.close(key, nonce, plaintext) == Some(payload[78..])
  {
    var ephemeralPub := su.publicOf(ephemeral);
    if Encrypted(pf, su, publicKey, plaintext, ephemeral, nonce).Ok? {
      var recipientPub := pf.decode(publicKey).value;
      var sealed := su.close(ContentKey(su, ephemeral, recipientPub, ephemeralPub, recipientPub), nonce, plaintext);
      PayloadParts(ephemeralPub, nonce, sealed.value);
    }
  }

  /** The public key is the base64 point of the private key's scalar. */
  predicate IsPair(pf: Platform, su: Suite, der: seq<byte>, publicKey: string) {
    pf.toScalar(der).Some? && publicKey == pf.encode(su.publicOf(pf.toScalar(der).value))
  }

  // ----- the assumptions can be met

  function Chars(b: seq<byte>): string {
    seq(|b|, i requires 0 <= i < |b| => b[i] as char)
  }

  function ByteOf(c: char): byte {
    if c as int < 256 then c as int else 0
  }

  function FromChars(s: string): seq<byte> {
    seq(|s|, i requires 0 <= i < |s| => ByteOf(s[i]))
  }

  lemma CharsRoundTrip(b: seq<byte>)
    ensures FromChars(Chars(b)) == b
  {
    assert forall i | 0 <= i < |b| :: Chars(b)[i] as int == b[i];
  }

  const ZEROS: seq<byte> := seq(100, _ => 0)

  /** A platform and a suite of the simplest kind: nothing that is assumed of them contradicts anything else. */
  lemma AssumptionsAreConsistent()
    returns (pf: Platform, su: Suite, der: seq<byte>, publicKey: string)
    ensures Sound(pf) && SuiteSound(su) && Sturdy(pf, der) && IsPair(pf, su, der, publicKey)
    ensures SturdyPair(pf, KeyPair(publicKey, pf.encode(der))) && su.close([], [], der).Some?
  {
    pf := Platform(
      der => if |der| == 33 && der[0] == 0 then Some(der[1..]) else None,
      raw => if |raw| == 32 then Some([0] + raw) else None,
      (r, b) => ([], b), (pub, priv) => Some(priv), b => Chars(b), s => Some(FromChars(s)));
    su := Suite(
      a => ZEROS[..PUBLIC_KEY_LENGTH], pub => true, (secret, pub) => [], (secret, salt, info) => [],
      (k, n, t) => Some(t + ZEROS[..TAG_LENGTH]),
      (k, n, c) => if |c| >= TAG_LENGTH then Some(c[..|c| - TAG_LENGTH]) else None);
    der := ZEROS[..3] + [255] + ZEROS[..29];
    assert |der| == 33 && der[0] == 0 && pf.toScalar(der) == Some(der[1..]) && [0] + der[1..] == der;
    assert der[..4][3] == 255;
    forall b ensures pf.decode(pf.encode(b)) == Some(b) {
      CharsRoundTrip(b);
    }
    publicKey := pf.encode(su.publicOf(pf.toScalar(der).value));
  }

  /** What was encrypted for a public key decrypts with its private key, for every text, ephemeral key and nonce. */
  lemma DecryptUndoesEncrypt(pf: Platform, su: Suite, der: seq<byte>, publicKey: string,
                             plaintext: seq<byte>, ephemeral: seq<byte>, nonce: seq<byte>)
    requires Sound(pf) && SuiteSound(su) && IsPair(pf, su, der, publicKey) && |nonce| == NONCE_LENGTH
    ensures var ct := Encrypted(pf, su, publicKey, plaintext, ephemeral, nonce);
      ct.Ok? ==> Decrypted(pf, su, pf.encode(der), publicKey, ct.value) == Ok(plaintext)
  {
    var secret := pf.toScalar(der).value;
    var pub := su.publicOf(secret);
    var ephemeralPub := su.publicOf(ephemeral);
    assert pf.decode(publicKey) == Some(pub);
    var key := ContentKey(su, ephemeral, pub, ephemeralPub, pub);
    assert key == ContentKey(su, secret, ephemeralPub, ephemeralPub, pub);
    var sealed := su.close(key, nonce, plaintext);
    if sealed.Some? {
      PayloadParts(ephemeralPub, nonce, sealed.value);
    }
  }

  /** Encrypting fails only where the cipher itself refuses the text. */
  lemma EncryptSucceeds(pf: Platform, su: Suite, der: seq<byte>, publicKey: string,
                        plaintext: seq<byte>, ephemeral: seq<byte>, nonce: seq<byte>)
    requires Sound(pf) && SuiteSound(su) && IsPair(pf, su, der, publicKey)
    ensures var pub := su.publicOf(pf.toScalar(der).value);
      Encrypted(pf, su, publicKey, plaintext, ephemeral, nonce).Ok? <==>
      su.close(ContentKey(su, ephemeral, pub, su.publicOf(ephemeral), pub), nonce, plaintext).Some?
  {
    assert pf.decode(publicKey) == Some(su.publicOf(pf.toScalar(der).value));
  }

  /**
   * End to end: what is encrypted with the public key read from the store at one point decrypts with
   * the private key loaded from it after any further run that does not lose the key, across every
   * change of protection on the way.
   */
  lemma StoredKeyDecrypts(pf: Platform, su: Suite, st: Contents, events: seq<Event>, keyId: string,
                          der: seq<byte>, publicKey: string,
                          plaintext: seq<byte>, ephemeral: seq<byte>, nonce: seq<byte>, c: Calls)
    requires Sound(pf) && SuiteSound(su) && IsPair(pf, su, der, publicKey) && |nonce| == NONCE_LENGTH
    requires TpmFaithful(pf, der) && NamesAgree(st) && Holds(pf, st, keyId, der, publicKey)
    requires Harmless(pf, st, events, keyId, der, publicKey)
    ensures var later := Run(pf, st, events);
      && ReadStored(st.files, keyId).Ok? && ReadStored(later.files, keyId).Ok?
      && var written := Record(st, keyId);
         var read := Record(later, keyId);
         var ct := Encrypted(pf, su, written.publicKey, plaintext, ephemeral, nonce);
         var loaded := Unlocked(pf, Entry(later.keyring, keyId), read, c);
         && (loaded.Ok? <==> Answers(read.protection, c))
         && (ct.Ok? && loaded.Ok? ==>
               Decrypted(pf, su, pf.encode(loaded.value), read.publicKey, ct.value) == Ok(plaintext))
  {
    RunKeepsKey(pf, st, events, keyId, der, publicKey);
    DecryptUndoesEncrypt(pf, su, der, publicKey, plaintext, ephemeral, nonce);
  }
}
