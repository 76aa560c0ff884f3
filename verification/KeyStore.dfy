/**
 * The key store's operations on its key files and the keyring
 * (packages/encryption-binary-rust/src/key_store/mod.rs), and what keeps a key recoverable over runs.
 */
module KeyStore {
  import opened Bytes
  import opened KeyProtection
  import opened Outcomes

  /** The key record; `createdAt` is left out. */
  datatype StoredKey = StoredKey(keyId: string, publicKey: string, disk: string, protection: Protection)

  datatype KeyFile = Corrupted | Intact(stored: StoredKey)

  /** The base64 strings `generate_key_pair` returns. */
  datatype KeyPair = KeyPair(publicKey: string, privateKey: string)

  /** The keyring entries and the key files, both by key id. */
  datatype Contents = Contents(keyring: map<string, seq<byte>>, files: map<string, KeyFile>)

  function Entry(keyring: map<string, seq<byte>>, keyId: string): Option<seq<byte>> {
    if keyId in keyring then Some(keyring[keyId]) else None
  }

  function WithEntry(keyring: map<string, seq<byte>>, keyId: string, entry: Option<seq<byte>>): map<string, seq<byte>> {
    if entry.Some? then keyring[keyId := entry.value] else keyring
  }

  /** The record names the file it is written to, whatever file it was read from. */
  function WithFile(files: map<string, KeyFile>, stored: StoredKey, write: Write): map<string, KeyFile> {
    match write
    case Done => files[stored.keyId := Intact(stored)]
    case NotOpened => files
    case Cut => files[stored.keyId := Corrupted]
  }

  function ReadStored(files: map<string, KeyFile>, keyId: string): Outcome<StoredKey> {
    if keyId !in files then Throw("Key not found: " + keyId)
    else if files[keyId].Corrupted? then Throw("Corrupted key file")
    else Ok(files[keyId].stored)
  }

  /** Unprotecting needs the keyring for its two tiers and the TPM for its two. */
  function Unlocked(pf: Platform, entry: Option<seq<byte>>, stored: StoredKey, c: Calls): Outcome<seq<byte>> {
    var key := Recover(pf, entry, stored.disk, stored.protection);
    if key.None? then Throw("Cannot unprotect")
    else if ReadsKeyring(stored.protection) && !c.retrieve then Throw("Cannot unprotect")
    else if UsesTpm(stored.protection) && !c.unseal then Throw("Cannot unprotect")
    else Ok(key.value)
  }

  // ----- specifications of the operations

  function Rewrapped(pf: Platform, st: Contents, keyId: string, stored: StoredKey, der: seq<byte>, c: Calls,
                     rewrite: bool): Contents {
    var g := Protect(pf, der, c);
    Contents(WithEntry(st.keyring, keyId, g.entry),
             if !rewrite then st.files
             else WithFile(st.files, stored.(disk := g.disk, protection := g.protection), c.write))
  }

  function AfterLoad(pf: Platform, st: Contents, keyId: string, c: Calls): Contents {
    var stored := ReadStored(st.files, keyId);
    if stored.Throw? then st
    else
      var der := Unlocked(pf, Entry(st.keyring, keyId), stored.value, c);
      if der.Throw? then st
      else Rewrapped(pf, st, keyId, stored.value, der.value, c, Rank(Tier(c)) > Rank(stored.value.protection))
  }

  function AfterRewrap(pf: Platform, st: Contents, keyId: string, c: Calls): Contents {
    var stored := ReadStored(st.files, keyId);
    if stored.Throw? then st
    else
      var der := Unlocked(pf, Entry(st.keyring, keyId), stored.value, c);
      if der.Throw? then st
      else Rewrapped(pf, st, keyId, stored.value, der.value, c, Tier(c) != stored.value.protection)
  }

  function AfterGenerate(pf: Platform, st: Contents, keyId: string, pair: KeyPair, c: Calls): Contents {
    var der := pf.decode(pair.privateKey);
    if der.None? then st
    else Rewrapped(pf, st, keyId, StoredKey(keyId, pair.publicKey, "", Plaintext), der.value, c, true)
  }

  function AfterDelete(st: Contents, keyId: string, deleteEntry: bool, removeFile: bool): Contents {
    var stored := ReadStored(st.files, keyId);
    var deletes := stored.Ok? && ReadsKeyring(stored.value.protection) && deleteEntry;
    Contents(if deletes then st.keyring - {keyId} else st.keyring,
             if removeFile then st.files - {keyId} else st.files)
  }

  // ----- the operations

  class Store {
    const pf: Platform
    var keyring: map<string, seq<byte>>
    var files: map<string, KeyFile>

    constructor (pf: Platform)
      ensures this.pf == pf && Now() == Contents(map[], map[])
    {
      this.pf := pf;
      keyring := map[];
      files := map[];
    }

    function Now(): Contents
      reads this
    {
      Contents(keyring, files)
    }

    /** The keyring call; when it fails nothing changes. */
    method StoreEntry(keyId: string, secret: seq<byte>, succeeds: bool) returns (ok: bool)
      modifies this`keyring
      ensures ok == succeeds
      ensures keyring == if succeeds then old(keyring)[keyId := secret] else old(keyring)
    {
      if succeeds {
        keyring := keyring[keyId := secret];
      }
      ok := succeeds;
    }

    /** Seals with the TPM and packs the two parts into one blob. */
    method Tpm2Protect(payload: seq<byte>, randomness: Option<nat>) returns (r: Outcome<seq<byte>>)
      ensures r.Ok? <==> randomness.Some?
      ensures r.Ok? ==>
                var parts := pf.seal(randomness.value, payload); r.value == PackBlob(parts.0, parts.1)
    {
      if randomness.None? {
        return Throw("tpm2_create failed");
      }
      var parts := pf.seal(randomness.value, payload);
      var output: seq<byte> := LittleEndian(|parts.0| % U32);
      output := output + parts.0;
      output := output + parts.1;
      return Ok(output);
    }

    method ProtectPrivateKey(keyId: string, der: seq<byte>, c: Calls) returns (disk: string, protection: Protection)
      modifies this`keyring
      ensures var g := Protect(pf, der, c);
        disk == g.disk && protection == g.protection && keyring == WithEntry(old(keyring), keyId, g.entry)
    {
      var ssAvailable := c.keyringUp;
      var tpm2Available := c.tpmUp;

      if ssAvailable && tpm2Available {
        var sealed := Tpm2Protect(TpmPayload(pf, der), c.firstSeal);
        match sealed {
          case Ok(blob) =>
            var stored := StoreEntry(keyId, blob, c.firstStore);
            if stored { return "", SecretServiceTpm2; }
          case Throw(_) =>
            var stored := StoreEntry(keyId, der, c.firstStore);
            if stored { return "", SecretService; }
        }
      }

      if ssAvailable {
        var stored := StoreEntry(keyId, der, c.secondStore);
        if stored { return "", SecretService; }
      }

      if tpm2Available {
        var sealed := Tpm2Protect(TpmPayload(pf, der), c.lastSeal);
        if sealed.Ok? { return pf.encode(sealed.value), Tpm2; }
      }

      return pf.encode(der), Plaintext;
    }

    method UnprotectPrivateKey(keyId: string, stored: StoredKey, c: Calls) returns (r: Outcome<seq<byte>>)
      ensures r == Unlocked(pf, Entry(keyring, keyId), stored, c)
    {
      match stored.protection {
        case Plaintext =>
          var bytes := pf.decode(stored.disk);
          return if bytes.Some? then Ok(bytes.value) else Throw("Cannot unprotect");
        case Tpm2 =>
          var bytes := pf.decode(stored.disk);
          if bytes.None? { return Throw("Cannot unprotect"); }
          r := Tpm2Unprotect(bytes.value, c.unseal);
        case SecretService =>
          r := Retrieve(keyId, c.retrieve);
        case SecretServiceTpm2 =>
          var blob :- Retrieve(keyId, c.retrieve);
          r := Tpm2Unprotect(blob, c.unseal);
        case _ =>
          return Throw("Cannot unprotect");
      }
    }

    method Retrieve(keyId: string, succeeds: bool) returns (r: Outcome<seq<byte>>)
      ensures r == if succeeds && keyId in keyring then Ok(keyring[keyId]) else Throw("Cannot unprotect")
    {
      r := if succeeds && keyId in keyring then Ok(keyring[keyId]) else Throw("Cannot unprotect");
    }

    method Tpm2Unprotect(blob: seq<byte>, succeeds: bool) returns (r: Outcome<seq<byte>>)
      ensures r ==
        if succeeds && OpenBlob(pf, blob).Some? then Ok(OpenBlob(pf, blob).value) else Throw("Cannot unprotect")
    {
      r := Throw("Cannot unprotect");
      if |blob| < 4 { return; }
      var pubLen := FromLittleEndian(blob[..4]);
      if |blob| < 4 + pubLen || !succeeds { return; }
      var raw := pf.unseal(blob[4..4 + pubLen], blob[4 + pubLen..]);
      if raw.None? { return; }
      var der := RawScalarToPkcs8(pf, raw.value);
      if der.Some? { r := Ok(der.value); }
    }

    method WriteStoredKey(stored: StoredKey, write: Write) returns (ok: bool)
      modifies this`files
      ensures ok == (write == Done)
      ensures files == WithFile(old(files), stored, write)
    {
      ok := false;
      match write {
        case NotOpened =>
        case Cut => files := files[stored.keyId := Corrupted];
        case Done => files := files[stored.keyId := Intact(stored)]; ok := true;
      }
    }

    method GenerateKey(keyId: string, pair: KeyPair, c: Calls) returns (r: Outcome<string>)
      modifies this
      ensures Now() == AfterGenerate(pf, old(Now()), keyId, pair, c)
      ensures r.Ok? <==> pf.decode(pair.privateKey).Some? && c.write == Done
      ensures r.Ok? ==> r.value == pair.publicKey
    {
      var der := pf.decode(pair.privateKey);
      if der.None? {
        return Throw("Failed to decode private key");
      }
      var disk, protection := ProtectPrivateKey(keyId, der.value, c);
      var stored := StoredKey(keyId, pair.publicKey, disk, protection);
      var ok := WriteStoredKey(stored, c.write);
      return if ok then Ok(pair.publicKey) else Throw("Failed to write key file");
    }

    /** Best effort: upgrade the stored protection when a stronger tier is available. */
    method MaybeAutoRewrap(keyId: string, stored: StoredKey, der: seq<byte>, c: Calls)
      modifies this
      ensures Now() == Rewrapped(pf, old(Now()), keyId, stored, der, c, Rank(Tier(c)) > Rank(stored.protection))
    {
      var disk, protection := ProtectPrivateKey(keyId, der, c);
      if protection == stored.protection { return; }
      if Rank(protection) <= Rank(stored.protection) { return; }
      var _ := WriteStoredKey(stored.(disk := disk, protection := protection), c.write);
    }

    method LoadKey(keyId: string, c: Calls) returns (r: Outcome<(seq<byte>, string)>)
      modifies this
      ensures Now() == AfterLoad(pf, old(Now()), keyId, c)
      ensures var stored := ReadStored(old(files), keyId);
        r.Ok? <==> stored.Ok? && Unlocked(pf, Entry(old(keyring), keyId), stored.value, c).Ok?
      ensures r.Ok? ==>
                var stored := ReadStored(old(files), keyId).value;
                r.value == (Unlocked(pf, Entry(old(keyring), keyId), stored, c).value, stored.publicKey)
    {
      var stored :- ReadStored(files, keyId);
      var der :- UnprotectPrivateKey(keyId, stored, c);
      MaybeAutoRewrap(keyId, stored, der, c);
      return Ok((der, stored.publicKey));
    }

    method RewrapKey(keyId: string, c: Calls) returns (r: Outcome<Protection>)
      modifies this
      ensures Now() == AfterRewrap(pf, old(Now()), keyId, c)
      ensures var stored := ReadStored(old(files), keyId);
        r.Ok? <==>
          (&& stored.Ok? && Unlocked(pf, Entry(old(keyring), keyId), stored.value, c).Ok?
           && Tier(c) != stored.value.protection && c.write == Done)
      ensures r.Ok? ==> r.value == Tier(c)
    {
      var stored :- ReadStored(files, keyId);
      var der :- UnprotectPrivateKey(keyId, stored, c);
      var disk, protection := ProtectPrivateKey(keyId, der, c);
      if protection == stored.protection {
        return Throw("Key is already using the best available protection");
      }
      var ok := WriteStoredKey(stored.(disk := disk, protection := protection), c.write);
      return if ok then Ok(protection) else Throw("Failed to write key file");
    }

    method LoadPublicKey(keyId: string) returns (r: Outcome<string>)
      ensures var stored := ReadStored(files, keyId);
        r == if stored.Ok? then Ok(stored.value.publicKey) else Throw(stored.message)
    {
      var stored :- ReadStored(files, keyId);
      return Ok(stored.publicKey);
    }

    /** True when the file is gone; a failed keyring cleanup does not stop the delete. */
    method DeleteKey(keyId: string, deleteEntry: bool, removeFile: bool) returns (ok: bool)
      modifies this
      ensures Now() == AfterDelete(old(Now()), keyId, deleteEntry, removeFile)
      ensures ok == (removeFile && keyId in old(files))
    {
      var stored := ReadStored(files, keyId);
      if stored.Ok? && ReadsKeyring(stored.value.protection) && deleteEntry {
        keyring := keyring - {keyId};
      }
      ok := removeFile && keyId in files;
      if ok {
        files := files - {keyId};
      }
    }
  }
}
