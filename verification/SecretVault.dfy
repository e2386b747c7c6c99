/** What the credential store of src-tauri/src/services/secret_store.rs keeps, and what can be
    read back from it: an index of entries, the JSON file holding the same entries, and the
    operating system's keyring. Encryption is ideal: a sealed value opens only with the key
    and the id it was sealed for. */
module SecretVault {
  import opened Bytes
  import opened Utf8Text

  datatype Purpose = Password | PrivateKeyPassphrase | Token | ProxyPassword

  function PurposeLabel(purpose: Purpose): string {
    match purpose
    case Password => "password"
    case PrivateKeyPassphrase => "private-key-passphrase"
    case Token => "token"
    case ProxyPassword => "proxy-password"
  }

  function SecretId(profileId: string, purpose: Purpose): string {
    "secret:" + profileId + ":" + PurposeLabel(purpose)
  }

  const KEYRING_MASTER_KEY_ACCOUNT := "credential-master-key-v2"

  lemma LastColonDecides(a: string, b: string, x: string, y: string)
    requires ':' !in x && ':' !in y && a + ":" + x == b + ":" + y
    ensures a == b && x == y
  {
    var s, t := a + ":" + x, b + ":" + y;
    assert s[|a|] == ':' && t[|b|] == ':';
    assert a == s[..|a|] && b == t[..|b|] && x == s[|a| + 1..] && y == t[|b| + 1..];
  }

  lemma LabelsDiffer(p: Purpose, q: Purpose)
    ensures ':' !in PurposeLabel(p)
    ensures PurposeLabel(p) == PurposeLabel(q) ==> p == q
  {
  }

  /** Different (profile, purpose) pairs never share an entry, whatever the profile ids
      contain, and no entry is stored under the master key's account. */
  lemma SecretIdInjective(p: string, a: Purpose, q: string, b: Purpose)
    ensures SecretId(p, a) == SecretId(q, b) <==> p == q && a == b
    ensures SecretId(p, a) != KEYRING_MASTER_KEY_ACCOUNT
  {
    assert SecretId(p, a)[0] == 's' && KEYRING_MASTER_KEY_ACCOUNT[0] == 'c';
    if SecretId(p, a) == SecretId(q, b) {
      LabelsDiffer(a, b);
      LabelsDiffer(b, a);
      LastColonDecides("secret:" + p, "secret:" + q, PurposeLabel(a), PurposeLabel(b));
      assert p == ("secret:" + p)[7..] && q == ("secret:" + q)[7..];
    }
  }

  /** The ids as they are on disk and in the keyring. */
  lemma IdsOnDisk(profileId: string)
    ensures SecretId(profileId, Password) == "secret:" + profileId + ":password"
    ensures SecretId(profileId, PrivateKeyPassphrase) == "secret:" + profileId + ":private-key-passphrase"
    ensures SecretId(profileId, Token) == "secret:" + profileId + ":token"
    ensures SecretId(profileId, ProxyPassword) == "secret:" + profileId + ":proxy-password"
    ensures KEYRING_MASTER_KEY_ACCOUNT == "credential-master-key-v2"
  {
    var start := "secret:" + profileId;
    assert ":" + "password" == ":password" && ":" + "token" == ":token";
    assert ":" + "private-key-passphrase" == ":private-key-passphrase" && ":" + "proxy-password" == ":proxy-password";
    Regroup(start, ":", "password");
    Regroup(start, ":", "private-key-passphrase");
    Regroup(start, ":", "token");
    Regroup(start, ":", "proxy-password");
  }

  lemma Regroup(a: string, b: string, c: string)
    ensures a + b + c == a + (b + c)
  {
  }

  // ----- Entries -----

  type Key = nat

  datatype Protected =
    | Sealed(key: Key, nonce: nat, aad: string, plaintext: string)
    | DpapiBlob(blob: nat)
    | Garbage(text: string)

  datatype Protection = MasterKey | LegacyKeyring | LegacyDpapi | Unknown(name: string)

  datatype StoredSecret = StoredSecret(
    id: string,
    profileId: string,
    purpose: Purpose,
    createdAt: string,
    hasValue: bool,
    protectedValue: Option<Protected>,
    protection: Option<Protection>)

  /** What `load_secret_metadata` does to an entry that it reads. */
  function Normalized(s: StoredSecret): StoredSecret {
    s.(hasValue := s.protectedValue.Some? || s.protection == Some(LegacyKeyring))
  }

  predicate Blank(s: string) {
    forall i :: 0 <= i < |s| ==> IsWhitespace(s[i])
  }

  type Index = map<string, StoredSecret>

  /** The entries of a file by id; a later entry replaces an earlier one. */
  function Entries(file: seq<StoredSecret>): Index {
    if file == [] then map[]
    else
      var last := Normalized(file[|file| - 1]);
      Entries(file[..|file| - 1])[last.id := last]
  }

  lemma OneMoreEntry(file: seq<StoredSecret>, s: StoredSecret)
    ensures Entries(file + [s]) == Entries(file)[s.id := Normalized(s)]
  {
  }

  /** A blank id anywhere rejects the whole file. */
  predicate Rejected(file: seq<StoredSecret>) {
    exists i :: 0 <= i < |file| && (Blank(file[i].id) || Blank(file[i].profileId))
  }

  /** The index of a store that starts on this file. */
  function Load(file: seq<StoredSecret>): Index {
    if Rejected(file) then map[] else Entries(file)
  }

  predicate WellKeyed(index: Index) {
    forall id :: id in index ==>
      && index[id].id == id == SecretId(index[id].profileId, index[id].purpose)
      && index[id] == Normalized(index[id])
  }

  predicate NoBlankProfile(index: Index) {
    forall id :: id in index ==> !Blank(index[id].profileId)
  }

  lemma {:induction false} EntriesComeFromFile(file: seq<StoredSecret>)
    ensures forall id :: id in Entries(file) ==>
              exists i :: 0 <= i < |file| && Entries(file)[id] == Normalized(file[i]) && file[i].id == id
    ensures forall i :: 0 <= i < |file| ==> file[i].id in Entries(file)
  {
    if file != [] {
      var init := file[..|file| - 1];
      EntriesComeFromFile(init);
      forall id | id in Entries(file)
        ensures exists i :: 0 <= i < |file| && Entries(file)[id] == Normalized(file[i]) && file[i].id == id
      {
        if id == file[|file| - 1].id {
        } else {
          assert id in Entries(init) && Entries(file)[id] == Entries(init)[id];
          var i :| 0 <= i < |init| && Entries(init)[id] == Normalized(init[i]) && init[i].id == id;
          assert file[i] == init[i];
        }
      }
      forall i | 0 <= i < |file|
        ensures file[i].id in Entries(file)
      {
        if i < |init| { assert file[i] == init[i]; }
      }
    }
  }

  /** The last entry of a file with this id. */
  ghost predicate LastAt(file: seq<StoredSecret>, id: string, i: int) {
    0 <= i < |file| && file[i].id == id && forall j :: i < j < |file| ==> file[j].id != id
  }

  /** A store that starts on a file has under an id what the last such entry of the file says,
      with a value if that entry holds one or points to the keyring. */
  lemma {:induction false} LastEntryCounts(file: seq<StoredSecret>, id: string, i: int)
    requires LastAt(file, id, i)
    ensures id in Entries(file)
    ensures var s := Entries(file)[id];
            && s == file[i].(hasValue := s.hasValue)
            && (s.hasValue <==> file[i].protectedValue != None || file[i].protection == Some(LegacyKeyring))
  {
    if i < |file| - 1 {
      LastEntryCounts(file[..|file| - 1], id, i);
    }
  }

  /** A list of an index's entries, in any order. */
  predicate Lists(file: seq<StoredSecret>, index: Index) {
    && (forall i :: 0 <= i < |file| ==> file[i].id in index && index[file[i].id] == Normalized(file[i]))
    && Entries(file) == index
  }

  /** A store that restarts on its own file has the same index exactly when no profile id is
      blank; otherwise it starts with nothing. */
  lemma ReloadAgrees(file: seq<StoredSecret>, index: Index)
    requires WellKeyed(index) && Lists(file, index)
    ensures Load(file) == index <==> NoBlankProfile(index)
    ensures !NoBlankProfile(index) ==> Load(file) == map[] && index != map[]
  {
    EntriesComeFromFile(file);
    forall i | 0 <= i < |file|
      ensures !Blank(file[i].id)
    {
      assert index[file[i].id].id == file[i].id;
      assert file[i].id[0] == 's' && !IsWhitespace('s');
    }
    if Rejected(file) {
      var i :| 0 <= i < |file| && Blank(file[i].profileId);
      assert index[file[i].id] == Normalized(file[i]);
    } else {
      forall id | id in index
        ensures !Blank(index[id].profileId)
      {
        var i :| 0 <= i < |file| && index[id] == Normalized(file[i]) && file[i].id == id;
      }
    }
  }

  // ----- Reading -----

  datatype Credential = Text(value: string) | EncodedKey(key: Key)

  type Keyring = map<string, Credential>

  /** What a caller would get for an id: a value, nothing, or an error however often it asks. */
  datatype Reading = Value(value: string) | Absent | Unreadable

  function Open(id: string, value: Protected, keyring: Keyring): Reading {
    if && value.Sealed? && value.aad == id
       && KEYRING_MASTER_KEY_ACCOUNT in keyring && keyring[KEYRING_MASTER_KEY_ACCOUNT] == EncodedKey(value.key)
    then Value(value.plaintext) else Unreadable
  }

  function ReadEntry(s: StoredSecret, keyring: Keyring, dpapi: map<nat, string>): Reading {
    match s.protection
    case Some(MasterKey) =>
      if s.protectedValue.None? then Unreadable else Open(s.id, s.protectedValue.value, keyring)
    case Some(LegacyKeyring) =>
      if s.id !in keyring then Absent
      else if keyring[s.id].Text? then Value(keyring[s.id].value) else Unreadable
    case Some(LegacyDpapi) =>
      if s.protectedValue.Some? && s.protectedValue.value.DpapiBlob? && s.protectedValue.value.blob in dpapi
      then Value(dpapi[s.protectedValue.value.blob]) else Unreadable
    case Some(Unknown(_)) => Unreadable
    case None => if s.protectedValue.Some? then Unreadable else Absent
  }

  function ReadId(index: Index, keyring: Keyring, dpapi: map<nat, string>, id: string): Reading {
    if id in index then ReadEntry(index[id], keyring, dpapi) else Absent
  }

  /** The store as its callers see it. */
  type Vault = imap<(string, Purpose), Reading>

  ghost function VaultOf(index: Index, keyring: Keyring, dpapi: map<nat, string>): Vault {
    imap k: (string, Purpose) | true :: ReadId(index, keyring, dpapi, SecretId(k.0, k.1))
  }

  ghost function WithoutId(v: Vault, id: string): Vault {
    imap k: (string, Purpose) | true :: if SecretId(k.0, k.1) == id || k !in v then Absent else v[k]
  }

  ghost function WithoutProfile(v: Vault, profileId: string): Vault {
    imap k: (string, Purpose) | true :: if k.0 == profileId || k !in v then Absent else v[k]
  }

  /** Some secrets of a profile are gone, and nothing else changed. */
  ghost predicate PartlyWithoutProfile(v: Vault, v': Vault, profileId: string) {
    forall k: (string, Purpose) :: k in v && k in v' &&
      (v'[k] == v[k] || (k.0 == profileId && v'[k] == Absent))
  }

  // ----- Keys -----

  /** Every key in use was drawn before the next one. */
  predicate KeysBelow(index: Index, keyring: Keyring, next: nat) {
    && (forall id :: id in index && index[id].protectedValue.Some? && index[id].protectedValue.value.Sealed?
          ==> index[id].protectedValue.value.key < next)
    && (forall a :: a in keyring && keyring[a].EncodedKey? ==> keyring[a].key < next)
  }

  /** Storing a newly drawn master key where there was none makes nothing readable or
      unreadable: entries sealed with a lost key stay lost. */
  lemma NewMasterKeyIsInvisible(index: Index, keyring: Keyring, dpapi: map<nat, string>, key: Key)
    requires WellKeyed(index) && KeysBelow(index, keyring, key)
    requires KEYRING_MASTER_KEY_ACCOUNT !in keyring
    ensures VaultOf(index, keyring[KEYRING_MASTER_KEY_ACCOUNT := EncodedKey(key)], dpapi)
            == VaultOf(index, keyring, dpapi)
  {
    var keyring' := keyring[KEYRING_MASTER_KEY_ACCOUNT := EncodedKey(key)];
    forall k: (string, Purpose)
      ensures ReadId(index, keyring', dpapi, SecretId(k.0, k.1)) == ReadId(index, keyring, dpapi, SecretId(k.0, k.1))
    {
      SecretIdInjective(k.0, k.1, k.0, k.1);
    }
  }

  /** Changing one entry changes one secret. */
  lemma EntryChangesOneSecret(index: Index, keyring: Keyring, dpapi: map<nat, string>, profileId: string,
                              purpose: Purpose, s: StoredSecret)
    ensures var id := SecretId(profileId, purpose);
            VaultOf(index[id := s], keyring, dpapi)
            == VaultOf(index, keyring, dpapi)[(profileId, purpose) := ReadEntry(s, keyring, dpapi)]
  {
    var id := SecretId(profileId, purpose);
    var v := VaultOf(index, keyring, dpapi)[(profileId, purpose) := ReadEntry(s, keyring, dpapi)];
    var v' := VaultOf(index[id := s], keyring, dpapi);
    forall k: (string, Purpose)
      ensures v'[k] == v[k]
    {
      SecretIdInjective(k.0, k.1, profileId, purpose);
    }
  }

  /** Dropping the keyring item of one id, with or without its entry. */
  lemma ReadWithoutItem(index: Index, keyring: Keyring, dpapi: map<nat, string>, id: string, x: string)
    requires WellKeyed(index) && id != KEYRING_MASTER_KEY_ACCOUNT
    ensures x != id || (id in index ==> index[id].protection != Some(LegacyKeyring)) ==>
              ReadId(index, keyring - {id}, dpapi, x) == ReadId(index, keyring, dpapi, x)
    ensures x == id && id in index && index[id].protection == Some(LegacyKeyring) ==>
              ReadId(index, keyring - {id}, dpapi, x) == Absent
  {
  }

  /** A keyring item that no legacy entry refers to does not show. */
  lemma UnusedItemIsInvisible(index: Index, keyring: Keyring, dpapi: map<nat, string>, id: string)
    requires WellKeyed(index) && id != KEYRING_MASTER_KEY_ACCOUNT
    requires id in index ==> index[id].protection != Some(LegacyKeyring)
    ensures VaultOf(index, keyring - {id}, dpapi) == VaultOf(index, keyring, dpapi)
  {
    var v, v' := VaultOf(index, keyring, dpapi), VaultOf(index, keyring - {id}, dpapi);
    forall k: (string, Purpose)
      ensures v'[k] == v[k]
    {
      ReadWithoutItem(index, keyring, dpapi, id, SecretId(k.0, k.1));
    }
  }

  lemma DroppingEntry(index: Index, keyring: Keyring, dpapi: map<nat, string>, id: string)
    ensures VaultOf(index - {id}, keyring, dpapi) == WithoutId(VaultOf(index, keyring, dpapi), id)
  {
  }

  lemma DroppingItem(index: Index, keyring: Keyring, dpapi: map<nat, string>, id: string)
    requires WellKeyed(index) && id in index && index[id].protection == Some(LegacyKeyring)
    ensures VaultOf(index, keyring - {id}, dpapi) == WithoutId(VaultOf(index, keyring, dpapi), id)
  {
    SecretIdInjective(index[id].profileId, index[id].purpose, index[id].profileId, index[id].purpose);
    var v, v' := WithoutId(VaultOf(index, keyring, dpapi), id), VaultOf(index, keyring - {id}, dpapi);
    forall k: (string, Purpose)
      ensures v'[k] == v[k]
    {
      ReadWithoutItem(index, keyring, dpapi, id, SecretId(k.0, k.1));
    }
  }

  /** Deleting the keyring item of a legacy entry, or the entry itself, removes its secret and
      no other; it does not matter how far a deletion got. */
  lemma DeletingRemovesOneSecret(index: Index, keyring: Keyring, dpapi: map<nat, string>, id: string)
    requires WellKeyed(index) && id in index && index[id].protection == Some(LegacyKeyring)
    ensures var v := WithoutId(VaultOf(index, keyring, dpapi), id);
            && VaultOf(index, keyring - {id}, dpapi) == v
            && VaultOf(index - {id}, keyring, dpapi) == v
            && VaultOf(index - {id}, keyring - {id}, dpapi) == v
  {
    DroppingItem(index, keyring, dpapi, id);
    DroppingEntry(index, keyring, dpapi, id);
    DroppingEntry(index, keyring - {id}, dpapi, id);
    var v := VaultOf(index, keyring, dpapi);
    assert WithoutId(WithoutId(v, id), id) == WithoutId(v, id);
  }
}
