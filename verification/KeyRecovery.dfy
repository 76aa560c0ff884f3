/**
 * When a stored key stays recoverable (packages/encryption-binary-rust/src/key_store/mod.rs): exactly
 * which answers of the backends lose it in one operation, and that without them no run loses it.
 */
module KeyRecovery {
  import opened Bytes
  import opened KeyProtection
  import opened KeyStore
  import opened Outcomes

  datatype Op =
    | Generate(pair: KeyPair)
    | Load
    | Rewrap
    | Delete(deleteEntry: bool, removeFile: bool)

  /** One call of the key store, with the key it names and how the backends answer it. */
  datatype Event = Event(keyId: string, op: Op, c: Calls)

  function After(pf: Platform, st: Contents, e: Event): Contents {
    match e.op
    case Generate(pair) => AfterGenerate(pf, st, e.keyId, pair, e.c)
    case Load => AfterLoad(pf, st, e.keyId, e.c)
    case Rewrap => AfterRewrap(pf, st, e.keyId, e.c)
    case Delete(deleteEntry, removeFile) => AfterDelete(st, e.keyId, deleteEntry, removeFile)
  }

  function Run(pf: Platform, st: Contents, events: seq<Event>): Contents
    decreases |events|
  {
    if events == [] then st else Run(pf, After(pf, st, events[0]), events[1..])
  }

  predicate HasRecord(st: Contents, keyId: string) {
    keyId in st.files && st.files[keyId].Intact?
  }

  function Record(st: Contents, keyId: string): StoredKey
    requires HasRecord(st, keyId)
  {
    st.files[keyId].stored
  }

  /** Every key file is named after the key in it. */
  predicate NamesAgree(st: Contents) {
    forall keyId | keyId in st.files && st.files[keyId].Intact? :: st.files[keyId].stored.keyId == keyId
  }

  /** The store gives back `der` for the key, and `pub` as its public key. */
  predicate Holds(pf: Platform, st: Contents, keyId: string, der: seq<byte>, pub: string) {
    && HasRecord(st, keyId) && Record(st, keyId).publicKey == pub
    && Recover(pf, Entry(st.keyring, keyId), Record(st, keyId).disk, Record(st, keyId).protection) == Some(der)
  }

  /** The key survives the TPM as a scalar and does not itself read as a sealed blob. */
  predicate Sturdy(pf: Platform, der: seq<byte>) {
    TpmFaithful(pf, der) && ParseBlob(der).None?
  }

  /** The backends that the stored tier needs answer. */
  predicate Answers(from: Protection, c: Calls) {
    (ReadsKeyring(from) ==> c.retrieve) && (UsesTpm(from) ==> c.unseal)
  }

  /**
   * A load loses the key when the keyring entry a sealed record reads is overwritten with the unsealed
   * key and the weaker tier is then not recorded, or when recording a stronger tier fails.
   */
  predicate LoadLoses(from: Protection, c: Calls) {
    || (from == SecretServiceTpm2 && StoresRaw(c))
    || (Rank(Tier(c)) > Rank(from) && (c.write == Cut || (c.write == NotOpened && from == SecretService)))
  }

  /** A rewrap loses the key only when recording the new tier fails. */
  predicate RewrapLoses(from: Protection, c: Calls) {
    Tier(c) != from && (c.write == Cut || (c.write == NotOpened && ReadsKeyring(from) && ReadsKeyring(Tier(c))))
  }

  /**
   * Generating for the same key replaces it, unless the pair is the same; when its file cannot be opened
   * the old record stays, but a keyring entry it reads may have been overwritten.
   */
  predicate GenerateLoses(pf: Platform, from: Protection, der: seq<byte>, pub: string, pair: KeyPair, c: Calls) {
    var other := pf.decode(pair.privateKey);
    other.Some? &&
    match c.write
    case Done => other.value != der || pair.publicKey != pub
    case Cut => true
    case NotOpened => ReadsKeyring(from) && ReadsKeyring(Tier(c)) && (Tier(c) != from || other.value != der)
  }

  /** Whether the event takes the key away, judged by the tier it is stored in. */
  predicate Loses(pf: Platform, st: Contents, keyId: string, der: seq<byte>, pub: string, e: Event)
    requires HasRecord(st, keyId)
  {
    var from := Record(st, keyId).protection;
    && e.keyId == keyId
    && match e.op
       case Generate(pair) => GenerateLoses(pf, from, der, pub, pair, e.c)
       case Load => Answers(from, e.c) && LoadLoses(from, e.c)
       case Rewrap => Answers(from, e.c) && RewrapLoses(from, e.c)
       case Delete(deleteEntry, removeFile) => removeFile || (deleteEntry && ReadsKeyring(from))
  }

  // ----- one operation

  /** The store after protecting `der` again, with or without recording the new tier. */
  lemma RewrappedHolds(pf: Platform, st: Contents, keyId: string, der: seq<byte>, pub: string, c: Calls, rewrite: bool)
    requires Sound(pf) && TpmFaithful(pf, der) && Holds(pf, st, keyId, der, pub) && Record(st, keyId).keyId == keyId
    requires rewrite ==> Tier(c) != Record(st, keyId).protection
    ensures var from := Record(st, keyId).protection;
      var overwrites := ReadsKeyring(from) && ReadsKeyring(Tier(c));
      var kept := if rewrite then c.write == Done || (c.write == NotOpened && !overwrites)
                  else !overwrites || Tier(c) == from;
      var after := Rewrapped(pf, st, keyId, Record(st, keyId), der, c, rewrite);
      && (kept ==> Holds(pf, after, keyId, der, pub))
      && (ParseBlob(der).None? ==> (Holds(pf, after, keyId, der, pub) <==> kept))
  {
    TiersGiveKeyBack(pf, Entry(st.keyring, keyId), der, c);
    KeyringOnlyInItsTiers(pf, der, c);
  }

  /** A load keeps the key when it is not among those that lose it, and only then. */
  lemma LoadKeepsKey(pf: Platform, st: Contents, keyId: string, der: seq<byte>, pub: string, c: Calls)
    requires Sound(pf) && TpmFaithful(pf, der) && NamesAgree(st) && Holds(pf, st, keyId, der, pub)
    ensures var from := Record(st, keyId).protection;
      var kept := !(Answers(from, c) && LoadLoses(from, c));
      && (kept ==> Holds(pf, AfterLoad(pf, st, keyId, c), keyId, der, pub))
      && (ParseBlob(der).None? ==> (Holds(pf, AfterLoad(pf, st, keyId, c), keyId, der, pub) <==> kept))
  {
    var from := Record(st, keyId).protection;
    RewrappedHolds(pf, st, keyId, der, pub, c, Rank(Tier(c)) > Rank(from));
  }

  lemma RewrapKeepsKey(pf: Platform, st: Contents, keyId: string, der: seq<byte>, pub: string, c: Calls)
    requires Sound(pf) && TpmFaithful(pf, der) && NamesAgree(st) && Holds(pf, st, keyId, der, pub)
    ensures var from := Record(st, keyId).protection;
      var kept := !(Answers(from, c) && RewrapLoses(from, c));
      && (kept ==> Holds(pf, AfterRewrap(pf, st, keyId, c), keyId, der, pub))
      && (ParseBlob(der).None? ==> (Holds(pf, AfterRewrap(pf, st, keyId, c), keyId, der, pub) <==> kept))
  {
    RewrappedHolds(pf, st, keyId, der, pub, c, Tier(c) != Record(st, keyId).protection);
  }

  /** A new key is recoverable once its file is written, whatever the store held and whichever tier took it. */
  lemma GeneratedIsHeld(pf: Platform, st: Contents, keyId: string, pair: KeyPair, c: Calls)
    requires Sound(pf) && pf.decode(pair.privateKey).Some? && c.write == Done
    requires TpmFaithful(pf, pf.decode(pair.privateKey).value)
    ensures Holds(pf, AfterGenerate(pf, st, keyId, pair, c), keyId, pf.decode(pair.privateKey).value, pair.publicKey)
  {
    TiersGiveKeyBack(pf, Entry(st.keyring, keyId), pf.decode(pair.privateKey).value, c);
    KeyringOnlyInItsTiers(pf, pf.decode(pair.privateKey).value, c);
  }

  /** Generating for a key that is already there: when the key that was there is still the one that comes back. */
  lemma GenerateKeepsKey(pf: Platform, st: Contents, keyId: string, der: seq<byte>, pub: string, pair: KeyPair,
                         c: Calls)
    requires Sound(pf) && TpmFaithful(pf, der) && NamesAgree(st) && Holds(pf, st, keyId, der, pub)
    ensures var kept := !GenerateLoses(pf, Record(st, keyId).protection, der, pub, pair, c);
      && (kept ==> Holds(pf, AfterGenerate(pf, st, keyId, pair, c), keyId, der, pub))
      && (ParseBlob(der).None? && SturdyPair(pf, pair) ==>
            (Holds(pf, AfterGenerate(pf, st, keyId, pair, c), keyId, der, pub) <==> kept))
  {
    var other := pf.decode(pair.privateKey);
    if other.Some? {
      TiersGiveKeyBack(pf, Entry(st.keyring, keyId), other.value, c);
      KeyringOnlyInItsTiers(pf, other.value, c);
    }
  }

  predicate SturdyPair(pf: Platform, pair: KeyPair) {
    pf.decode(pair.privateKey).Some? ==> Sturdy(pf, pf.decode(pair.privateKey).value)
  }

  /** An operation on one key leaves every other key's file and keyring entry alone. */
  lemma OthersUntouched(pf: Platform, st: Contents, e: Event, other: string)
    requires NamesAgree(st) && other != e.keyId
    ensures var after := After(pf, st, e);
      && Entry(after.keyring, other) == Entry(st.keyring, other)
      && (other in after.files <==> other in st.files)
      && (other in st.files ==> after.files[other] == st.files[other])
  {
  }

  lemma NamesStay(pf: Platform, st: Contents, e: Event)
    requires NamesAgree(st)
    ensures NamesAgree(After(pf, st, e))
  {
  }

  /** Records and file names agree from an empty store on, whatever is done with it. */
  lemma {:induction false} NamesAgreeFromNothing(pf: Platform, events: seq<Event>)
    ensures NamesAgree(Run(pf, Contents(map[], map[]), events))
  {
    NamesAgreeOn(pf, Contents(map[], map[]), events);
  }

  lemma {:induction false} NamesAgreeOn(pf: Platform, st: Contents, events: seq<Event>)
    requires NamesAgree(st)
    ensures NamesAgree(Run(pf, st, events))
    decreases |events|
  {
    if events != [] {
      NamesStay(pf, st, events[0]);
      NamesAgreeOn(pf, After(pf, st, events[0]), events[1..]);
    }
  }

  /** Every operation on any key keeps this one when it does not lose it, and only then. */
  lemma EventKeepsKey(pf: Platform, st: Contents, e: Event, keyId: string, der: seq<byte>, pub: string)
    requires Sound(pf) && TpmFaithful(pf, der) && NamesAgree(st) && Holds(pf, st, keyId, der, pub)
    ensures !Loses(pf, st, keyId, der, pub, e) ==> Holds(pf, After(pf, st, e), keyId, der, pub)
    ensures ParseBlob(der).None? && (e.op.Generate? && e.keyId == keyId ==> SturdyPair(pf, e.op.pair)) ==>
      (Holds(pf, After(pf, st, e), keyId, der, pub) <==> !Loses(pf, st, keyId, der, pub, e))
  {
    if e.keyId != keyId {
      OthersUntouched(pf, st, e, keyId);
    } else {
      match e.op
      case Generate(pair) => GenerateKeepsKey(pf, st, keyId, der, pub, pair, e.c);
      case Load => LoadKeepsKey(pf, st, keyId, der, pub, e.c);
      case Rewrap => RewrapKeepsKey(pf, st, keyId, der, pub, e.c);
      case Delete(_, _) =>
    }
  }

  // ----- runs

  /** No event of the run loses the key. */
  ghost predicate Harmless(pf: Platform, st: Contents, events: seq<Event>, keyId: string, der: seq<byte>, pub: string)
    decreases |events|
  {
    events == [] ||
    (&& HasRecord(st, keyId) && !Loses(pf, st, keyId, der, pub, events[0])
     && Harmless(pf, After(pf, st, events[0]), events[1..], keyId, der, pub))
  }

  /**
   * Over any run of operations on any keys, of which none loses this one, its private and public key come back
   * unchanged.
   */
  lemma {:induction false} RunKeepsKey(pf: Platform, st: Contents, events: seq<Event>, keyId: string,
                                       der: seq<byte>, pub: string)
    requires Sound(pf) && TpmFaithful(pf, der) && NamesAgree(st) && Holds(pf, st, keyId, der, pub)
    requires Harmless(pf, st, events, keyId, der, pub)
    ensures Holds(pf, Run(pf, st, events), keyId, der, pub)
    decreases |events|
  {
    if events != [] {
      NamesStay(pf, st, events[0]);
      EventKeepsKey(pf, st, events[0], keyId, der, pub);
      RunKeepsKey(pf, After(pf, st, events[0]), events[1..], keyId, der, pub);
    }
  }

  /** The key comes back in every state of the run. */
  ghost predicate HeldThroughout(pf: Platform, st: Contents, events: seq<Event>, keyId: string, der: seq<byte>,
                                 pub: string)
    decreases |events|
  {
    && Holds(pf, st, keyId, der, pub)
    && (events == [] || HeldThroughout(pf, After(pf, st, events[0]), events[1..], keyId, der, pub))
  }

  /** The other way round: the key comes back all through a run only if no event loses it. */
  lemma {:induction false} HeldOnlyIfHarmless(pf: Platform, st: Contents, events: seq<Event>, keyId: string,
                                              der: seq<byte>, pub: string)
    requires Sound(pf) && Sturdy(pf, der) && NamesAgree(st) && Holds(pf, st, keyId, der, pub)
    requires forall e | e in events && e.op.Generate? && e.keyId == keyId :: SturdyPair(pf, e.op.pair)
    ensures HeldThroughout(pf, st, events, keyId, der, pub) <==> Harmless(pf, st, events, keyId, der, pub)
    decreases |events|
  {
    if events != [] {
      assert events[0] in events;
      NamesStay(pf, st, events[0]);
      EventKeepsKey(pf, st, events[0], keyId, der, pub);
      if Holds(pf, After(pf, st, events[0]), keyId, der, pub) {
        HeldOnlyIfHarmless(pf, After(pf, st, events[0]), events[1..], keyId, der, pub);
      } else {
        assert !HeldThroughout(pf, After(pf, st, events[0]), events[1..], keyId, der, pub);
      }
    }
  }

  lemma {:induction false} RunAppend(pf: Platform, st: Contents, first: seq<Event>, second: seq<Event>)
    requires NamesAgree(st)
    ensures Run(pf, st, first + second) == Run(pf, Run(pf, st, first), second) && NamesAgree(Run(pf, st, first))
    decreases |first|
  {
    if first == [] {
      assert first + second == second;
    } else {
      assert (first + second)[1..] == first[1..] + second;
      NamesStay(pf, st, first[0]);
      RunAppend(pf, After(pf, st, first[0]), first[1..], second);
    }
  }

  /**
   * From any store at all: once a key has been generated and its file written, it comes back after any
   * further run that does not lose it, whatever happened before.
   */
  lemma GeneratedKeySurvives(pf: Platform, st: Contents, before: seq<Event>, made: Event, after: seq<Event>)
    requires Sound(pf) && NamesAgree(st) && made.op.Generate? && made.c.write == Done
    requires pf.decode(made.op.pair.privateKey).Some? && TpmFaithful(pf, pf.decode(made.op.pair.privateKey).value)
    requires Harmless(pf, Run(pf, st, before + [made]), after, made.keyId,
                      pf.decode(made.op.pair.privateKey).value, made.op.pair.publicKey)
    ensures Holds(pf, Run(pf, st, before + [made] + after), made.keyId,
                  pf.decode(made.op.pair.privateKey).value, made.op.pair.publicKey)
  {
    var pair := made.op.pair;
    RunAppend(pf, st, before, [made]);
    RunAppend(pf, st, before + [made], after);
    var here := Run(pf, st, before);
    assert [made][1..] == [];
    assert Run(pf, here, [made]) == AfterGenerate(pf, here, made.keyId, pair, made.c);
    GeneratedIsHeld(pf, here, made.keyId, pair, made.c);
    RunKeepsKey(pf, Run(pf, st, before + [made]), after, made.keyId, pf.decode(pair.privateKey).value, pair.publicKey);
  }

  /** A load changes neither the public key nor, downwards, the rank of the tier, whatever fails. */
  lemma LoadNeverDowngrades(pf: Platform, st: Contents, keyId: string, c: Calls)
    requires NamesAgree(st) && HasRecord(st, keyId) && HasRecord(AfterLoad(pf, st, keyId, c), keyId)
    ensures var before, after := Record(st, keyId), Record(AfterLoad(pf, st, keyId, c), keyId);
      && Rank(after.protection) >= Rank(before.protection) && after.publicKey == before.publicKey
      && (after.protection == before.protection ==> after == before)
  {
  }

  /** The order of the tiers, Linux's four: plaintext, TPM, keyring, keyring with a key sealed by the TPM. */
  predicate Stronger(a: Protection, b: Protection) {
    || (b == Plaintext && a != Plaintext)
    || (b == Dpapi && a !in {Plaintext, Dpapi})
    || (b == Tpm2 && a in {Ncrypt, SecretService, SecretServiceTpm2})
    || (b in {Ncrypt, SecretService} && a == SecretServiceTpm2)
  }

  lemma RankOrders(a: Protection, b: Protection)
    ensures Rank(a) > Rank(b) <==> Stronger(a, b)
  {
  }

  /**
   * A load that hands a key out records the tier it protected the key with where that is the stronger one, and
   * otherwise leaves the record alone; so does a failing write that does not cut the file.
   */
  lemma LoadUpgrades(pf: Platform, st: Contents, keyId: string, c: Calls)
    requires NamesAgree(st) && HasRecord(st, keyId) && c.write != Cut
    requires Unlocked(pf, Entry(st.keyring, keyId), Record(st, keyId), c).Ok?
    ensures var before, after := Record(st, keyId), AfterLoad(pf, st, keyId, c);
      && HasRecord(after, keyId)
      && (if c.write == Done && Stronger(Tier(c), before.protection)
          then Record(after, keyId).protection == Tier(c)
          else Record(after, keyId) == before)
  {
  }

  /** So no key stays in plaintext when a seal or a store that protecting reached did not fail. */
  lemma LoadLeavesPlaintext(pf: Platform, st: Contents, keyId: string, c: Calls)
    requires NamesAgree(st) && HasRecord(st, keyId) && c.write == Done
    requires Unlocked(pf, Entry(st.keyring, keyId), Record(st, keyId), c).Ok?
    ensures var after := AfterLoad(pf, st, keyId, c);
      HasRecord(after, keyId) &&
      (Record(after, keyId).protection == Plaintext <==>
        && Record(st, keyId).protection == Plaintext
        && (c.keyringUp ==> !c.secondStore && (c.tpmUp ==> !c.firstStore)) && (c.tpmUp ==> c.lastSeal.None?))
  {
    LoadUpgrades(pf, st, keyId, c);
    ProtectedAsAnnounced(c);
  }

  /** A key without a file, or with one that cannot be read, is not found or corrupted, and trying changes nothing. */
  lemma UnreadableKey(pf: Platform, st: Contents, keyId: string, c: Calls)
    requires !HasRecord(st, keyId)
    ensures ReadStored(st.files, keyId) ==
      Throw(if keyId in st.files then "Corrupted key file" else "Key not found: " + keyId)
    ensures AfterLoad(pf, st, keyId, c) == st && AfterRewrap(pf, st, keyId, c) == st
  {
  }

  /** Deleting a key takes away its file, and its keyring entry where the record reads one, and nothing of any other. */
  lemma DeleteForgets(st: Contents, keyId: string)
    requires HasRecord(st, keyId)
    ensures var after := AfterDelete(st, keyId, true, true);
      && keyId !in after.files
      && (Record(st, keyId).protection in {SecretService, SecretServiceTpm2} ==> keyId !in after.keyring)
      && forall other | other != keyId ::
           && (other in after.files <==> other in st.files) && (other in after.keyring <==> other in st.keyring)
  {
  }

  /** A rewrap, unlike a load, records a weaker tier when that is all there is; the key survives the downgrade. */
  lemma DowngradeKeepsKey(pf: Platform, st: Contents, keyId: string, der: seq<byte>, pub: string, c: Calls)
    requires Sound(pf) && TpmFaithful(pf, der) && NamesAgree(st) && Holds(pf, st, keyId, der, pub)
    requires Answers(Record(st, keyId).protection, c) && c.write == Done
    requires Rank(Tier(c)) < Rank(Record(st, keyId).protection)
    ensures var after := AfterRewrap(pf, st, keyId, c);
      && Holds(pf, after, keyId, der, pub) && Rank(Record(after, keyId).protection) < Rank(Record(st, keyId).protection)
  {
    RewrapKeepsKey(pf, st, keyId, der, pub, c);
  }

  // ----- how a load can lose a sealed key

  /** The keyring answers and the TPM unseals, but the check for it then fails: only the raw key can be stored. */
  const TPM_GONE := Calls(true, true, true, false, None, false, true, None, Done)

  /** The TPM seals again, the keyring refuses the sealed blob, and then accepts the raw key. */
  const STORE_FLAPS := Calls(true, true, true, true, Some(0), false, true, None, Done)

  /**
   * Loading a key stored sealed in the keyring hands the key out and, with either of these answers,
   * leaves a record that can never be opened again: no later load, rewrap or better weather brings it back.
   */
  lemma LoadCanLoseSealedKey(pf: Platform, st: Contents, keyId: string, der: seq<byte>, pub: string, c: Calls,
                             later: Event)
    requires Sound(pf) && Sturdy(pf, der) && NamesAgree(st) && Holds(pf, st, keyId, der, pub)
    requires Record(st, keyId).protection == SecretServiceTpm2
    requires c == TPM_GONE || c == STORE_FLAPS
    requires later.keyId == keyId && (later.op == Load || later.op == Rewrap)
    ensures Unlocked(pf, Entry(st.keyring, keyId), Record(st, keyId), c) == Ok(der)
    ensures var after := AfterLoad(pf, st, keyId, c);
      && HasRecord(after, keyId) && Unlocked(pf, Entry(after.keyring, keyId), Record(after, keyId), later.c).Throw?
      && After(pf, after, later) == after
  {
    LoadKeepsKey(pf, st, keyId, der, pub, c);
  }
}
