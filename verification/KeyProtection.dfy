/**
 * How the key store protects a private key at rest on Linux
 * (packages/encryption-binary-rust/src/key_store/mod.rs, scalar.rs, linux.rs).
 *
 * The TPM, the keyring's transport, PKCS8 and base64 are functions of a `Platform`; `Sound` lists
 * what is assumed of them. The calls that can fail take their outcome from a `Calls` record.
 */
module KeyProtection {
  import opened Bytes
  import opened Outcomes

  datatype Protection = Dpapi | Ncrypt | Tpm2 | SecretService | SecretServiceTpm2 | Plaintext

  /**
   * `toScalar` parses PKCS8 into the raw scalar, `toDer` encodes a raw scalar as PKCS8, `seal` turns
   * randomness and a payload into the public and private parts of a sealed object, `unseal` opens one.
   */
  datatype Platform = Platform(
    toScalar: seq<byte> -> Option<seq<byte>>,
    toDer: seq<byte> -> Option<seq<byte>>,
    seal: (nat, seq<byte>) -> (seq<byte>, seq<byte>),
    unseal: (seq<byte>, seq<byte>) -> Option<seq<byte>>,
    encode: seq<byte> -> string,
    decode: string -> Option<seq<byte>>
  )

  ghost predicate Sound(pf: Platform) {
    && (forall b :: pf.decode(pf.encode(b)) == Some(b))
    && (forall r, b :: |pf.seal(r, b).0| < U32 && pf.unseal(pf.seal(r, b).0, pf.seal(r, b).1) == Some(b))
    && (forall der :: pf.toScalar(der).Some? ==> |pf.toScalar(der).value| == 32)
    && (forall raw :: pf.toDer(raw).Some? ==> |pf.toDer(raw).value| > 32)
  }

  /** How the backends answer during one operation; `None` for a seal is a failed one, the number its randomness. */
  datatype Calls = Calls(
    retrieve: bool, unseal: bool,
    keyringUp: bool, tpmUp: bool,
    firstSeal: Option<nat>, firstStore: bool, secondStore: bool, lastSeal: Option<nat>,
    write: Write
  )

  /** Writing a key file in place can fail before or after the old contents are truncated. */
  datatype Write = Done | NotOpened | Cut

  // ----- scalar.rs

  /** What is handed to the TPM: the raw scalar, or the whole DER when it does not parse. */
  function TpmPayload(pf: Platform, der: seq<byte>): seq<byte> {
    match pf.toScalar(der)
    case Some(scalar) => scalar
    case None => der
  }

  function RawScalarToPkcs8(pf: Platform, raw: seq<byte>): Option<seq<byte>> {
    if |raw| != 32 then Some(raw) else pf.toDer(raw)
  }

  /**
   * DER that parses must be the canonical encoding of its scalar; DER that does not parse must not look like a
   * scalar.
   */
  predicate TpmFaithful(pf: Platform, der: seq<byte>) {
    match pf.toScalar(der)
    case Some(scalar) => pf.toDer(scalar) == Some(der)
    case None => |der| != 32
  }

  lemma TpmRoundTrip(pf: Platform, der: seq<byte>)
    requires Sound(pf)
    ensures RawScalarToPkcs8(pf, TpmPayload(pf, der)) == Some(der) <==> TpmFaithful(pf, der)
  {
    if pf.toScalar(der).None? && |der| == 32 && pf.toDer(der).Some? {
      assert |pf.toDer(der).value| > 32;
    }
  }

  // ----- linux.rs, the sealed blob

  /** The length is cast to 32 bits. */
  function PackBlob(pub: seq<byte>, priv: seq<byte>): seq<byte> {
    LittleEndian(|pub| % U32) + pub + priv
  }

  function ParseBlob(blob: seq<byte>): Option<(seq<byte>, seq<byte>)> {
    if |blob| < 4 then None
    else
      var n := FromLittleEndian(blob[..4]);
      if |blob| < 4 + n then None else Some((blob[4..4 + n], blob[4 + n..]))
  }

  lemma BlobRoundTrip(pub: seq<byte>, priv: seq<byte>)
    ensures ParseBlob(PackBlob(pub, priv)) == Some((pub, priv)) <==> |pub| < U32
  {
    var n := |pub| % U32;
    var blob := PackBlob(pub, priv);
    LittleEndianRoundTrip(n);
    assert blob[..4] == LittleEndian(n);
    if |pub| < U32 {
      assert blob[4..4 + n] == pub && blob[4 + n..] == priv;
    } else {
      assert |blob[4..4 + n]| != |pub|;
    }
  }

  /** Whatever parses as a blob is the packing of its two parts. */
  lemma ParsedIsPacked(blob: seq<byte>)
    ensures ParseBlob(blob).Some? ==>
              PackBlob(ParseBlob(blob).value.0, ParseBlob(blob).value.1) == blob
  {
    if ParseBlob(blob).Some? {
      var n := FromLittleEndian(blob[..4]);
      FromLittleEndianRoundTrip(blob[..4]);
      assert blob == blob[..4] + blob[4..4 + n] + blob[4 + n..];
    }
  }

  /** A sequence of under 256 bytes, with the length in one byte or two, that starts with an integer. */
  predicate HasPkcs8Header(der: seq<byte>) {
    |der| >= 4 && der[0] == 0x30 && ((der[2] == 0x02 && der[3] == 0x01) || (der[1] == 0x81 && der[3] == 0x02))
  }

  /**
   * The header of such a key read as a length is over 16 million, so no PKCS8 key of under 256 bytes parses as a
   * blob.
   */
  lemma KeyIsNoBlob(der: seq<byte>)
    requires HasPkcs8Header(der) && |der| <= 0x100_0000
    ensures ParseBlob(der).None?
  {
    assert der[..4][3] == der[3];
    assert FromLittleEndian(der[..4]) >= 0x100_0000;
  }

  // ----- protecting

  /** A new keyring entry if there is one, the string for the key file, and the tier. */
  datatype Guarded = Guarded(entry: Option<seq<byte>>, disk: string, protection: Protection)

  predicate StoresSealed(c: Calls) {
    c.keyringUp && c.tpmUp && c.firstSeal.Some? && c.firstStore
  }

  /** The key itself, unsealed, goes into the keyring: in the first tier when sealing fails, or in the second. */
  predicate StoresRaw(c: Calls) {
    c.keyringUp && !StoresSealed(c) && ((c.tpmUp && c.firstSeal.None? && c.firstStore) || c.secondStore)
  }

  function Tier(c: Calls): Protection {
    if StoresSealed(c) then SecretServiceTpm2
    else if StoresRaw(c) then SecretService
    else if c.tpmUp && c.lastSeal.Some? then Tpm2
    else Plaintext
  }

  function SealedBlob(pf: Platform, r: nat, der: seq<byte>): seq<byte> {
    var parts := pf.seal(r, TpmPayload(pf, der));
    PackBlob(parts.0, parts.1)
  }

  /** What `protect_private_key` leaves in the keyring and returns. */
  function Protect(pf: Platform, der: seq<byte>, c: Calls): (g: Guarded)
    ensures g.protection == Tier(c)
  {
    if StoresSealed(c) then Guarded(Some(SealedBlob(pf, c.firstSeal.value, der)), "", SecretServiceTpm2)
    else if StoresRaw(c) then Guarded(Some(der), "", SecretService)
    else if c.tpmUp && c.lastSeal.Some?
    then Guarded(None, pf.encode(SealedBlob(pf, c.lastSeal.value, der)), Tpm2)
    else Guarded(None, pf.encode(der), Plaintext)
  }

  // ----- unprotecting

  function OpenBlob(pf: Platform, blob: seq<byte>): Option<seq<byte>> {
    match ParseBlob(blob)
    case None => None
    case Some(parts) =>
      match pf.unseal(parts.0, parts.1)
      case None => None
      case Some(raw) => RawScalarToPkcs8(pf, raw)
  }

  /** The private key a key file and a keyring entry yield when every backend answers. */
  function Recover(pf: Platform, entry: Option<seq<byte>>, disk: string, protection: Protection): Option<seq<byte>> {
    match protection
    case Plaintext => pf.decode(disk)
    case Tpm2 => (match pf.decode(disk) case Some(blob) => OpenBlob(pf, blob) case None => None)
    case SecretService => entry
    case SecretServiceTpm2 => (match entry case Some(blob) => OpenBlob(pf, blob) case None => None)
    case _ => None
  }

  predicate ReadsKeyring(protection: Protection) {
    protection in {SecretService, SecretServiceTpm2}
  }

  predicate UsesTpm(protection: Protection) {
    protection in {Tpm2, SecretServiceTpm2}
  }

  lemma SealOpens(pf: Platform, r: nat, der: seq<byte>)
    requires Sound(pf)
    ensures OpenBlob(pf, SealedBlob(pf, r, der)) == RawScalarToPkcs8(pf, TpmPayload(pf, der))
    ensures ParseBlob(SealedBlob(pf, r, der)).Some?
  {
    var payload := TpmPayload(pf, der);
    BlobRoundTrip(pf.seal(r, payload).0, pf.seal(r, payload).1);
    assert pf.unseal(pf.seal(r, payload).0, pf.seal(r, payload).1) == Some(payload);
  }

  /**
   * Whichever seals and stores fail, the pair that `protect_private_key` returns and the keyring it
   * leaves behind give the key back; in the TPM tiers exactly when the key survives as a scalar.
   */
  lemma TiersGiveKeyBack(pf: Platform, before: Option<seq<byte>>, der: seq<byte>, c: Calls)
    requires Sound(pf)
    ensures var g := Protect(pf, der, c);
      var after := if g.entry.Some? then g.entry else before;
      Recover(pf, after, g.disk, g.protection) == Some(der) <==> (UsesTpm(g.protection) ==> TpmFaithful(pf, der))
  {
    TpmRoundTrip(pf, der);
    if StoresSealed(c) {
      SealOpens(pf, c.firstSeal.value, der);
    } else if !StoresRaw(c) && c.tpmUp && c.lastSeal.Some? {
      SealOpens(pf, c.lastSeal.value, der);
    }
  }

  /** The keyring changes exactly in the two keyring tiers, and then holds what that tier reads. */
  lemma KeyringOnlyInItsTiers(pf: Platform, der: seq<byte>, c: Calls)
    ensures Protect(pf, der, c).entry.Some? <==> ReadsKeyring(Tier(c))
    ensures Tier(c) == SecretService ==> Protect(pf, der, c).entry == Some(der)
    ensures Sound(pf) && Tier(c) == SecretServiceTpm2 ==> ParseBlob(Protect(pf, der, c).entry.value).Some?
  {
    if Sound(pf) && StoresSealed(c) {
      SealOpens(pf, c.firstSeal.value, der);
    }
  }

  /** Higher is stronger. */
  function Rank(protection: Protection): nat {
    match protection
    case Plaintext => 0
    case Dpapi => 1
    case Tpm2 => 2
    case Ncrypt => 3
    case SecretService => 3
    case SecretServiceTpm2 => 4
  }

  /** The protection that `get_platform_info` announces for new keys. */
  function Announced(keyringUp: bool, tpmUp: bool): Protection {
    match (keyringUp, tpmUp)
    case (true, true) => SecretServiceTpm2
    case (true, false) => SecretService
    case (false, true) => Tpm2
    case (false, false) => Plaintext
  }

  /** A seal or store that protecting reaches and that fails. */
  predicate SomethingFails(c: Calls) {
    || (c.keyringUp && c.tpmUp && (c.firstSeal.None? || !c.firstStore))
    || (c.keyringUp && !c.tpmUp && !c.secondStore)
    || (!c.keyringUp && c.tpmUp && c.lastSeal.None?)
  }

  /**
   * A key is never protected more strongly than announced, and exactly as announced when nothing fails.
   * It is left in plaintext only after every tier that was available has failed.
   */
  lemma ProtectedAsAnnounced(c: Calls)
    ensures Rank(Tier(c)) <= Rank(Announced(c.keyringUp, c.tpmUp))
    ensures Tier(c) == Announced(c.keyringUp, c.tpmUp) <==> !SomethingFails(c)
    ensures Tier(c) == Plaintext <==>
      (c.keyringUp ==> !c.secondStore && (c.tpmUp ==> !c.firstStore)) && (c.tpmUp ==> c.lastSeal.None?)
  {
  }
}
