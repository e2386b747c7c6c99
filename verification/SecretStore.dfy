/** The credential store of src-tauri/src/services/secret_store.rs over a file and a keyring
    whose every call may fail. */
module SecretStore {
  import opened Bytes
  import opened Utf8Text
  import opened SecretVault

  datatype Error =
    | EmptyValue
    | RandomFailed
    | KeyringFailed
    | KeyDamaged
    | KeyMissing
    | PersistFailed
    | RollbackUnavailable
    | Incomplete
    | Undecryptable
    | Unsupported

  /** What survives the process. */
  datatype Durable = Durable(file: seq<StoredSecret>, keyring: Keyring)

  ghost function DurableVault(d: Durable, dpapi: map<nat, string>): Vault {
    VaultOf(Load(d.file), d.keyring, dpapi)
  }

  /** The file, the keyring and the random source. Each call may fail, and then has no effect;
      `history` records what was durable after each call that had one. */
  class Machine {
    var file: seq<StoredSecret>
    var keyring: Keyring
    const dpapi: map<nat, string>
    var random: nat
    ghost var faults: nat
    var history: seq<Durable>

    constructor (file: seq<StoredSecret>, keyring: Keyring, dpapi: map<nat, string>, random: nat)
      ensures this.file == file && this.keyring == keyring && this.dpapi == dpapi && this.random == random
      ensures faults == 0 && history == [Durable(file, keyring)]
    {
      this.file, this.keyring, this.dpapi, this.random := file, keyring, dpapi, random;
      faults, history := 0, [Durable(file, keyring)];
    }

    method WriteFile(contents: seq<StoredSecret>) returns (ok: bool)
      modifies `file, `faults, `history
      ensures ok ==> file == contents && faults == old(faults) && history == old(history) + [Durable(file, keyring)]
      ensures !ok ==> file == old(file) && faults == old(faults) + 1 && history == old(history)
    {
      ok := *;
      if ok {
        file := contents;
        history := history + [Durable(file, keyring)];
      } else {
        faults := faults + 1;
      }
    }

    method Set(account: string, value: Credential) returns (ok: bool)
      modifies `keyring, `faults, `history
      ensures ok ==> keyring == old(keyring)[account := value] && faults == old(faults)
                     && history == old(history) + [Durable(file, keyring)]
      ensures !ok ==> keyring == old(keyring) && faults == old(faults) + 1 && history == old(history)
    {
      ok := *;
      if ok {
        keyring := keyring[account := value];
        history := history + [Durable(file, keyring)];
      } else {
        faults := faults + 1;
      }
    }

    method Get(account: string) returns (r: Result<Option<Credential>, Error>)
      modifies `faults
      ensures r.Ok? ==> faults == old(faults)
                        && r.value == if account in keyring then Some(keyring[account]) else None
      ensures r.Err? ==> r.error == KeyringFailed && faults == old(faults) + 1
    {
      var ok: bool := *;
      if ok {
        r := Ok(if account in keyring then Some(keyring[account]) else None);
      } else {
        faults := faults + 1;
        r := Err(KeyringFailed);
      }
    }

    /** Deleting an item that is not there succeeds. */
    method Delete(account: string) returns (ok: bool)
      modifies `keyring, `faults, `history
      ensures ok ==> keyring == old(keyring) - {account} && faults == old(faults)
                     && history == old(history) + [Durable(file, keyring)]
      ensures !ok ==> keyring == old(keyring) && faults == old(faults) + 1 && history == old(history)
    {
      ok := *;
      if ok {
        keyring := keyring - {account};
        history := history + [Durable(file, keyring)];
      } else {
        faults := faults + 1;
      }
    }

    /** After a crash the durable state is some earlier one; the random source goes on. */
    method CrashTo(d: Durable)
      modifies `file, `keyring, `history
      ensures Durable(file, keyring) == d && history == old(history) + [d]
    {
      file, keyring := d.file, d.keyring;
      history := history + [d];
    }

    /** An ideal random source never repeats itself. */
    method Fill() returns (r: Result<nat, Error>)
      modifies `random, `faults
      ensures r.Ok? ==> r.value == old(random) && random == old(random) + 1 && faults == old(faults)
      ensures r.Err? ==> r.error == RandomFailed && random == old(random) && faults == old(faults) + 1
    {
      var ok: bool := *;
      if ok {
        r := Ok(random);
        random := random + 1;
      } else {
        faults := faults + 1;
        r := Err(RandomFailed);
      }
    }
  }

  /** Only the master key's account holds a key. */
  predicate OnlyMasterKey(keyring: Keyring) {
    forall a :: a in keyring && keyring[a].EncodedKey? ==> a == KEYRING_MASTER_KEY_ACCOUNT
  }

  /** The index in memory, the file and the keyring belong together: memory equals disk. */
  predicate Consistent(secrets: Index, file: seq<StoredSecret>, keyring: Keyring, random: nat) {
    && WellKeyed(secrets)
    && Lists(file, secrets)
    && OnlyMasterKey(keyring)
    && KeysBelow(secrets, keyring, random)
  }

  predicate HoldsKey(keyring: Keyring, key: Key) {
    KEYRING_MASTER_KEY_ACCOUNT in keyring && keyring[KEYRING_MASTER_KEY_ACCOUNT] == EncodedKey(key)
  }

  predicate KeyUsable(keyring: Keyring) {
    KEYRING_MASTER_KEY_ACCOUNT in keyring ==> keyring[KEYRING_MASTER_KEY_ACCOUNT].EncodedKey?
  }

  // ----- What the durable states read as -----

  /** A store that starts on a consistent file sees the vault of the running one. */
  lemma DurableReadsAsVault(secrets: Index, file: seq<StoredSecret>, keyring: Keyring, dpapi: map<nat, string>)
    requires WellKeyed(secrets) && Lists(file, secrets) && NoBlankProfile(secrets)
    ensures DurableVault(Durable(file, keyring), dpapi) == VaultOf(secrets, keyring, dpapi)
  {
    ReloadAgrees(file, secrets);
  }

  /** A store can start on this state. */
  predicate Restartable(d: Durable, random: nat) {
    Consistent(Load(d.file), d.file, d.keyring, random) && NoBlankProfile(Load(d.file))
  }

  /** No operation overwrites or deletes the master key, and a new one is usable. */
  predicate KeyKept(before: Keyring, after: Keyring) {
    if KEYRING_MASTER_KEY_ACCOUNT in before
    then KEYRING_MASTER_KEY_ACCOUNT in after
         && after[KEYRING_MASTER_KEY_ACCOUNT] == before[KEYRING_MASTER_KEY_ACCOUNT]
    else KeyUsable(after)
  }

  /** Every state made durable since `from` is one to restart on, keeps the master key, and reads as one of the two vaults. */
  ghost predicate CutsReadAs(history: seq<Durable>, from: nat, dpapi: map<nat, string>, random: nat, first: Keyring,
                             before: Vault, after: Vault)
  {
    && from <= |history|
    && forall i :: from <= i < |history| ==>
         && Restartable(history[i], random) && KeyKept(first, history[i].keyring)
         && (DurableVault(history[i], dpapi) == before || DurableVault(history[i], dpapi) == after)
  }

  lemma NoCuts(history: seq<Durable>, dpapi: map<nat, string>, random: nat, first: Keyring, before: Vault, after: Vault)
    ensures CutsReadAs(history, |history|, dpapi, random, first, before, after)
  {
  }

  lemma OneMoreCut(history: seq<Durable>, from: nat, d: Durable, dpapi: map<nat, string>, random: nat, first: Keyring,
                   before: Vault, after: Vault)
    requires CutsReadAs(history, from, dpapi, random, first, before, after)
    requires Restartable(d, random) && KeyKept(first, d.keyring)
    requires DurableVault(d, dpapi) == before || DurableVault(d, dpapi) == after
    ensures CutsReadAs(history + [d], from, dpapi, random, first, before, after)
  {
    hide Restartable, DurableVault, KeyKept;
  }

  lemma CutsWeaken(history: seq<Durable>, from: nat, dpapi: map<nat, string>, random: nat, first: Keyring, before: Vault,
                   after: Vault)
    requires CutsReadAs(history, from, dpapi, random, first, before, before)
    ensures CutsReadAs(history, from, dpapi, random, first, before, after)
  {
    hide Restartable, DurableVault, KeyKept;
  }

  lemma CutsAfterDraw(history: seq<Durable>, from: nat, dpapi: map<nat, string>, random: nat, first: Keyring,
                      before: Vault, after: Vault)
    requires CutsReadAs(history, from, dpapi, random, first, before, after)
    ensures CutsReadAs(history, from, dpapi, random + 1, first, before, after)
  {
    hide Consistent, DurableVault, KeyKept;
    forall i | from <= i < |history|
      ensures Restartable(history[i], random + 1)
    {
      ConsistentAfterDraw(Load(history[i].file), history[i].file, history[i].keyring, random);
    }
  }

  // ----- What is left in the keyring -----

  /** The keyring without the master key. */
  function Items(keyring: Keyring): Keyring {
    keyring - {KEYRING_MASTER_KEY_ACCOUNT}
  }

  lemma ItemsWithout(keyring: Keyring, id: string)
    ensures Items(keyring - {id}) == Items(keyring) - {id}
  {
  }

  predicate IsLegacy(secrets: Index, id: string) {
    id in secrets && secrets[id].protection == Some(LegacyKeyring)
  }

  /** The item of a legacy entry is deleted; only a failing call can leave it. No other changes. */
  predicate ItemDropped(secrets: Index, before: Keyring, after: Keyring, id: string, certain: bool) {
    if IsLegacy(secrets, id)
    then Items(after) == Items(before) - {id} || (!certain && Items(after) == Items(before))
    else Items(after) == Items(before)
  }

  /** Reading moves an old entry under the master key, or forgets how a missing value was protected. */
  predicate ReadsInPlace(before: Index, after: Index, id: string, found: bool) {
    if id in before && (before[id].protection == Some(LegacyKeyring) || before[id].protection == Some(LegacyDpapi))
    then && id in after && after == before[id := after[id]] && after[id].id == before[id].id
         && after[id].protection == if found then Some(MasterKey) else None
    else after == before
  }

  /** An entry that says how its value is protected, but holds none. */
  predicate LacksValue(secrets: Index, id: string) {
    && id in secrets && secrets[id].protectedValue == None
    && (secrets[id].protection == Some(MasterKey) || secrets[id].protection == Some(LegacyDpapi))
  }

  /** An entry with a value that is protected in an unknown way or none. */
  predicate LacksProtection(secrets: Index, id: string) {
    id in secrets && match secrets[id].protection
                     case Some(Unknown(_)) => true
                     case None => secrets[id].protectedValue != None
                     case _ => false
  }

  /** Items that no legacy entry uses any more. */
  function Orphans(secrets: Index, keyring: Keyring): set<string> {
    set a | a in Items(keyring) && !IsLegacy(secrets, a)
  }

  lemma OrphansAfterStore(secrets: Index, before: Keyring, after: Keyring, s: StoredSecret, certain: bool)
    requires ItemDropped(secrets, before, after, s.id, certain)
    ensures Orphans(secrets[s.id := s], after) <= Orphans(secrets, before) + {s.id}
    ensures certain ==> Orphans(secrets[s.id := s], after) <= Orphans(secrets, before)
  {
    assert forall a :: a in Items(after) ==> a in Items(before);
  }

  lemma OrphansUnchanged(secrets: Index, before: Keyring, after: Keyring)
    requires Items(after) == Items(before)
    ensures Orphans(secrets, after) == Orphans(secrets, before)
  {
    assert forall a :: a in Items(after) <==> a in Items(before);
  }

  lemma OrphansAfterDeletes(secrets: Index, keyring: Keyring, secrets': Index, keyring': Keyring)
    requires GoneTogether(secrets, keyring, secrets', keyring')
    ensures Orphans(secrets', keyring') <= Orphans(secrets, keyring)
  {
  }

  lemma OrphansAfterRead(before: Index, after: Index, keyring: Keyring, keyring': Keyring, id: string, found: bool,
                         certain: bool)
    requires ReadsInPlace(before, after, id, found) && ItemDropped(before, keyring, keyring', id, certain)
    requires id in before ==> before[id].id == id
    ensures Orphans(after, keyring') <= Orphans(before, keyring) + {id}
    ensures certain ==> Orphans(after, keyring') <= Orphans(before, keyring)
  {
    assert forall a :: a in Items(keyring') ==> a in Items(keyring);
  }

  // ----- The master key stays -----

  lemma KeyKeptTwice(a: Keyring, b: Keyring, c: Keyring)
    requires KeyKept(a, b) && KeyKept(b, c)
    ensures KeyKept(a, c)
  {
  }

  lemma KeyKeptWithout(keyring: Keyring, id: string)
    requires id != KEYRING_MASTER_KEY_ACCOUNT
    ensures KeyKept(keyring, keyring - {id})
  {
  }

  lemma KeyKeptUnchanged(keyring: Keyring)
    ensures KeyKept(keyring, keyring)
  {
  }

  lemma NewKeyKept(keyring: Keyring, key: Key)
    requires KEYRING_MASTER_KEY_ACCOUNT !in keyring
    ensures KeyKept(keyring, keyring[KEYRING_MASTER_KEY_ACCOUNT := EncodedKey(key)])
  {
  }

  /** The same while the secrets of a profile go one by one. */
  ghost predicate CutsPartly(history: seq<Durable>, from: nat, dpapi: map<nat, string>, random: nat, first: Keyring,
                             v: Vault, profileId: string)
  {
    && from <= |history|
    && forall i :: from <= i < |history| ==>
         && Restartable(history[i], random) && KeyKept(first, history[i].keyring)
         && PartlyWithoutProfile(v, DurableVault(history[i], dpapi), profileId)
  }

  lemma NoCutsPartly(history: seq<Durable>, dpapi: map<nat, string>, random: nat, first: Keyring, v: Vault,
                     profileId: string)
    ensures CutsPartly(history, |history|, dpapi, random, first, v, profileId)
  {
  }

  lemma CutsGoOn(h: seq<Durable>, history: seq<Durable>, from: nat, dpapi: map<nat, string>, random: nat,
                 first: Keyring, keyring: Keyring, before: Vault, after: Vault, v: Vault, profileId: string)
    requires h <= history && CutsPartly(h, from, dpapi, random, first, v, profileId)
    requires CutsReadAs(history, |h|, dpapi, random, keyring, before, after) && KeyKept(first, keyring)
    requires PartlyWithoutProfile(v, before, profileId) && PartlyWithoutProfile(v, after, profileId)
    ensures CutsPartly(history, from, dpapi, random, first, v, profileId)
  {
    hide Restartable, DurableVault, PartlyWithoutProfile, KeyKept;
    forall i | from <= i < |history|
      ensures Restartable(history[i], random) && KeyKept(first, history[i].keyring)
      ensures PartlyWithoutProfile(v, DurableVault(history[i], dpapi), profileId)
    {
      if i < |h| {
        assert history[i] == h[i];
      } else {
        KeyKeptTwice(first, keyring, history[i].keyring);
      }
    }
  }

  // ----- Value-level steps of the operations -----

  lemma ConsistentAfterNewKey(secrets: Index, file: seq<StoredSecret>, keyring: Keyring, key: Key)
    requires Consistent(secrets, file, keyring, key)
    ensures Consistent(secrets, file, keyring[KEYRING_MASTER_KEY_ACCOUNT := EncodedKey(key)], key + 1)
    ensures HoldsKey(keyring[KEYRING_MASTER_KEY_ACCOUNT := EncodedKey(key)], key)
  {
  }

  lemma ConsistentAfterDraw(secrets: Index, file: seq<StoredSecret>, keyring: Keyring, random: nat)
    requires Consistent(secrets, file, keyring, random)
    ensures Consistent(secrets, file, keyring, random + 1)
  {
  }

  lemma ConsistentAfterDelete(secrets: Index, file: seq<StoredSecret>, keyring: Keyring, random: nat, id: string)
    requires Consistent(secrets, file, keyring, random)
    ensures Consistent(secrets, file, keyring - {id}, random)
  {
  }

  /** An entry that may be stored: keyed by its profile and purpose, its key already drawn. */
  predicate Storable(s: StoredSecret, random: nat) {
    && s.id == SecretId(s.profileId, s.purpose)
    && s == Normalized(s)
    && (s.protectedValue.Some? && s.protectedValue.value.Sealed? ==> s.protectedValue.value.key < random)
  }

  lemma ConsistentAfterStore(secrets: Index, file: seq<StoredSecret>, keyring: Keyring, random: nat,
                             s: StoredSecret, file': seq<StoredSecret>)
    requires Consistent(secrets, file, keyring, random) && Storable(s, random)
    requires Lists(file', secrets[s.id := s])
    ensures Consistent(secrets[s.id := s], file', keyring, random)
  {
  }

  lemma ConsistentAfterDrop(secrets: Index, file: seq<StoredSecret>, keyring: Keyring, random: nat,
                            id: string, file': seq<StoredSecret>)
    requires Consistent(secrets, file, keyring, random)
    requires Lists(file', secrets - {id})
    ensures Consistent(secrets - {id}, file', keyring, random)
  {
  }

  /** What any store may assume of its entries, and what changing one of them leaves true. */
  lemma IndexFacts(secrets: Index, file: seq<StoredSecret>, keyring: Keyring, random: nat)
    requires Consistent(secrets, file, keyring, random)
    ensures WellKeyed(secrets)
    ensures forall id :: id in secrets ==>
              secrets[id].id == id == SecretId(secrets[id].profileId, secrets[id].purpose)
              && id != KEYRING_MASTER_KEY_ACCOUNT && Storable(secrets[id], random)
              && (id in keyring ==> keyring[id].Text?)
  {
    forall id | id in secrets
      ensures id != KEYRING_MASTER_KEY_ACCOUNT
    {
      SecretIdInjective(secrets[id].profileId, secrets[id].purpose, secrets[id].profileId, secrets[id].purpose);
    }
  }

  lemma WellKeyedAfterStore(secrets: Index, s: StoredSecret, random: nat)
    requires WellKeyed(secrets) && Storable(s, random)
    ensures WellKeyed(secrets[s.id := s])
  {
  }

  /** Each id once, in ascending order. */
  predicate SortedById(file: seq<StoredSecret>) {
    forall i, j :: 0 <= i < j < |file| ==> file[i].id != file[j].id && AtMost(file[i].id, file[j].id)
  }

  /** Some entries are listed, and those left come after them. */
  ghost predicate Listing(secrets: Index, listed: seq<StoredSecret>, left: set<string>) {
    && left <= secrets.Keys && SortedById(listed)
    && Entries(listed) == (map id | id in secrets && id !in left :: secrets[id])
    && (forall i :: 0 <= i < |listed| ==> listed[i].id in secrets && secrets[listed[i].id] == listed[i])
    && (forall i, x :: 0 <= i < |listed| && x in left ==> listed[i].id != x && AtMost(listed[i].id, x))
  }

  lemma ListingStarts(secrets: Index)
    ensures Listing(secrets, [], secrets.Keys)
  {
    assert Entries([]) == map[];
  }

  lemma ListingGoesOn(secrets: Index, listed: seq<StoredSecret>, left: set<string>, id: string)
    requires WellKeyed(secrets) && Listing(secrets, listed, left)
    requires id in left && forall x :: x in left ==> AtMost(id, x)
    ensures Listing(secrets, listed + [secrets[id]], left - {id})
  {
    hide AtMost, Entries, Normalized;
    OneMoreEntry(listed, secrets[id]);
  }

  lemma ListingEnds(secrets: Index, listed: seq<StoredSecret>)
    requires WellKeyed(secrets) && Listing(secrets, listed, {})
    ensures Lists(listed, secrets) && SortedById(listed)
  {
    hide AtMost, Entries;
    assert Entries(listed) == secrets;
  }

  /** The entries in the order of their ids. */
  method ListEntries(secrets: Index) returns (listed: seq<StoredSecret>)
    requires WellKeyed(secrets)
    ensures Lists(listed, secrets) && SortedById(listed)
  {
    hide AtMost, Listing, Lists, SortedById;
    listed := [];
    var left := secrets.Keys;
    ListingStarts(secrets);
    while left != {}
      invariant left <= secrets.Keys && Listing(secrets, listed, left)
      decreases left
    {
      LeastExists(left);
      var id :| id in left && forall x :: x in left ==> AtMost(id, x);
      ListingGoesOn(secrets, listed, left, id);
      listed, left := listed + [secrets[id]], left - {id};
    }
    ListingEnds(secrets, listed);
  }

  // ----- The store -----

  class Store {
    var secrets: Index
    var credentialMasterKey: Option<Key>
    const machine: Machine

    ghost predicate Valid()
      reads this, machine
    {
      && Consistent(secrets, machine.file, machine.keyring, machine.random)
      && (credentialMasterKey.Some? ==> HoldsKey(machine.keyring, credentialMasterKey.value))
    }

    ghost function Vault(): Vault
      reads this, machine
    {
      VaultOf(secrets, machine.keyring, machine.dpapi)
    }

    constructor (machine: Machine)
      ensures this.machine == machine && credentialMasterKey == None
      ensures secrets == Load(machine.file)
      ensures Consistent(Load(machine.file), machine.file, machine.keyring, machine.random) ==> Valid()
      ensures Vault() == DurableVault(Durable(machine.file, machine.keyring), machine.dpapi)
    {
      this.machine := machine;
      secrets := Load(machine.file);
      credentialMasterKey := None;
    }

    /** Replaces the file with the entries in the order of their ids. */
    method Persist() returns (ok: bool)
      requires WellKeyed(secrets)
      modifies machine`file, machine`faults, machine`history
      ensures ok ==> && Lists(machine.file, secrets) && SortedById(machine.file) && machine.faults == old(machine.faults)
                     && machine.history == old(machine.history) + [Durable(machine.file, machine.keyring)]
      ensures !ok ==> && machine.file == old(machine.file) && machine.faults == old(machine.faults) + 1
                      && machine.history == old(machine.history)
    {
      var listed := ListEntries(secrets);
      ok := machine.WriteFile(listed);
    }

    method LoadMasterKey(createIfMissing: bool) returns (r: Result<Key, Error>)
      requires Valid()
      modifies `credentialMasterKey, machine
      ensures r.Err? ==> !r.error.Incomplete? && !r.error.Unsupported?
      ensures KeyKept(old(machine.keyring), machine.keyring)
      ensures Valid() && Vault() == old(Vault()) && machine.file == old(machine.file)
      ensures r.Ok? ==> HoldsKey(machine.keyring, r.value) && r.value < machine.random
      ensures r.Err? ==> || machine.faults > old(machine.faults) || !KeyUsable(machine.keyring)
                         || (!createIfMissing && KEYRING_MASTER_KEY_ACCOUNT !in machine.keyring)
      ensures machine.faults >= old(machine.faults)
      ensures KEYRING_MASTER_KEY_ACCOUNT in old(machine.keyring) || !createIfMissing ==>
                machine.keyring == old(machine.keyring)
      ensures Items(machine.keyring) == Items(old(machine.keyring))
      ensures old(NoBlankProfile(secrets)) ==>
                CutsReadAs(machine.history, |old(machine.history)|, machine.dpapi, machine.random, old(machine.keyring), Vault(), Vault())
    {
      hide Consistent, Restartable, VaultOf, CutsReadAs, DurableVault, NoBlankProfile;
      NoCuts(machine.history, machine.dpapi, machine.random, old(machine.keyring), Vault(), Vault());
      if credentialMasterKey.Some? {
        KeyDrawn(secrets, machine.file, machine.keyring, machine.random, credentialMasterKey.value);
        return Ok(credentialMasterKey.value);
      }
      var stored := machine.Get(KEYRING_MASTER_KEY_ACCOUNT);
      if stored.Err? {
        return Err(stored.error);
      }
      var key;
      match stored.value {
        case Some(EncodedKey(k)) =>
          key := k;
          KeyDrawn(secrets, machine.file, machine.keyring, machine.random, key);
        case Some(Text(_)) =>
          return Err(KeyDamaged);
        case None =>
          if !createIfMissing {
            return Err(KeyMissing);
          }
          NewKeyInvisible(secrets, machine.file, machine.keyring, machine.dpapi, machine.random);
          NewKeyKept(machine.keyring, machine.random);
          ConsistentAfterDraw(secrets, machine.file, machine.keyring, machine.random);
          ConsistentAfterNewKey(secrets, machine.file, machine.keyring, machine.random);
          var drawn := machine.Fill();
          if drawn.Err? {
            return Err(drawn.error);
          }
          key := drawn.value;
          NoCuts(machine.history, machine.dpapi, machine.random, old(machine.keyring), Vault(), Vault());
          var ok := machine.Set(KEYRING_MASTER_KEY_ACCOUNT, EncodedKey(key));
          if !ok {
            return Err(KeyringFailed);
          }
          if NoBlankProfile(secrets) {
            DurableReads(secrets, machine.file, machine.keyring, machine.random, machine.dpapi);
            OneMoreCut(old(machine.history), |old(machine.history)|, Durable(machine.file, machine.keyring),
                       machine.dpapi, machine.random, old(machine.keyring), Vault(), Vault());
          }
      }
      credentialMasterKey := Some(key);
      r := Ok(key);
    }

    method EncryptSecret(id: string, value: string) returns (r: Result<Protected, Error>)
      requires Valid()
      modifies `credentialMasterKey, machine
      ensures r.Err? ==> !r.error.Incomplete? && !r.error.Unsupported?
      ensures KeyKept(old(machine.keyring), machine.keyring)
      ensures Valid() && Vault() == old(Vault()) && machine.file == old(machine.file)
      ensures r.Ok? ==> && r.value.Sealed? && r.value.aad == id && r.value.plaintext == value
                        && HoldsKey(machine.keyring, r.value.key) && r.value.key < machine.random
      ensures r.Err? ==> machine.faults > old(machine.faults) || !KeyUsable(machine.keyring)
      ensures machine.faults >= old(machine.faults)
      ensures Items(machine.keyring) == Items(old(machine.keyring))
      ensures old(NoBlankProfile(secrets)) ==>
                CutsReadAs(machine.history, |old(machine.history)|, machine.dpapi, machine.random, old(machine.keyring), Vault(), Vault())
    {
      hide Items, Consistent, Restartable, VaultOf, CutsReadAs, NoBlankProfile;
      var key := LoadMasterKey(true);
      if key.Err? {
        return Err(key.error);
      }
      ConsistentAfterDraw(secrets, machine.file, machine.keyring, machine.random);
      if old(NoBlankProfile(secrets)) {
        CutsAfterDraw(machine.history, |old(machine.history)|, machine.dpapi, machine.random, old(machine.keyring), Vault(), Vault());
      }
      var nonce := machine.Fill();
      if nonce.Err? {
        return Err(nonce.error);
      }
      r := Ok(Sealed(key.value, nonce.value, id, value));
    }

    /** Replaces an entry and the file, or puts the old entry back. */
    method StoreEntry(s: StoredSecret) returns (ok: bool)
      requires Valid() && Storable(s, machine.random)
      modifies `secrets, machine`file, machine`faults, machine`history
      ensures Valid() && machine.keyring == old(machine.keyring)
      ensures ok ==> && secrets == old(secrets)[s.id := s] && machine.faults == old(machine.faults)
                     && Vault() == old(Vault())[(s.profileId, s.purpose) := ReadEntry(s, machine.keyring, machine.dpapi)]
      ensures !ok ==> && secrets == old(secrets) && machine.faults > old(machine.faults)
                      && machine.history == old(machine.history)
      ensures ok ==> machine.history == old(machine.history) + [Durable(machine.file, machine.keyring)]
    {
      hide Consistent, VaultOf, ReadEntry, Storable, WellKeyed, Lists;
      IndexFacts(secrets, machine.file, machine.keyring, machine.random);
      StorableId(s, machine.random);
      WellKeyedAfterStore(secrets, s, machine.random);
      EntryChangesOneSecret(secrets, machine.keyring, machine.dpapi, s.profileId, s.purpose, s);
      var previous := if s.id in secrets then Some(secrets[s.id]) else None;
      secrets := secrets[s.id := s];
      ok := Persist();
      if ok {
        ConsistentAfterStore(old(secrets), old(machine.file), machine.keyring, machine.random, s, machine.file);
      } else if previous.Some? {
        secrets := secrets[s.id := previous.value];
        assert secrets == old(secrets);
      } else {
        secrets := secrets - {s.id};
        assert secrets == old(secrets);
      }
    }

    method SetSecret(profileId: string, purpose: Purpose, value: string, now: string) returns (r: Result<StoredSecret, Error>)
      requires Valid()
      modifies this, machine
      ensures machine.faults >= old(machine.faults)
      ensures KeyKept(old(machine.keyring), machine.keyring)
      ensures Valid()
      ensures r.Ok? ==> Vault() == old(Vault())[(profileId, purpose) := Value(value)]
      ensures r.Err? ==> Vault() == old(Vault())
      ensures r.Err? ==> value == "" || machine.faults > old(machine.faults) || !KeyUsable(machine.keyring)
      ensures r.Ok? ==> value != "" && secrets == old(secrets)[SecretId(profileId, purpose) := r.value]
      ensures r.Ok? ==> r.value.(protectedValue := None)
                        == StoredSecret(SecretId(profileId, purpose), profileId, purpose, now, true, None, Some(MasterKey))
      ensures r.Ok? ==> ItemDropped(old(secrets), old(machine.keyring), machine.keyring, SecretId(profileId, purpose),
                                    machine.faults == old(machine.faults))
      ensures r.Err? ==> secrets == old(secrets) && Items(machine.keyring) == Items(old(machine.keyring))
      ensures old(NoBlankProfile(secrets)) && !Blank(profileId) ==>
                && NoBlankProfile(secrets)
                && CutsReadAs(machine.history, |old(machine.history)|, machine.dpapi, machine.random, old(machine.keyring), old(Vault()), Vault())
    {
      hide Items, Consistent, Restartable, VaultOf, CutsReadAs, DurableVault, ReadEntry;
      NoCuts(machine.history, machine.dpapi, machine.random, old(machine.keyring), Vault(), Vault());
      if value == "" {
        return Err(EmptyValue);
      }
      var id := SecretId(profileId, purpose);
      var encrypted := EncryptSecret(id, value);
      if encrypted.Err? {
        return Err(encrypted.error);
      }
      var stored := StoredSecret(id, profileId, purpose, now, true, Some(encrypted.value), Some(MasterKey));
      SealedReads(stored, machine.keyring, machine.dpapi);
      ghost var encryptedHistory := machine.history;
      ghost var clean := NoBlankProfile(secrets) && !Blank(profileId);
      var replacesLegacy := id in secrets && secrets[id].protection == Some(LegacyKeyring);
      var ok := StoreEntry(stored);
      if !ok {
        return Err(PersistFailed);
      }
      if clean {
        DurableReads(secrets, machine.file, machine.keyring, machine.random, machine.dpapi);
        CutsWeaken(encryptedHistory, |old(machine.history)|, machine.dpapi, machine.random, old(machine.keyring), old(Vault()), Vault());
        OneMoreCut(encryptedHistory, |old(machine.history)|, Durable(machine.file, machine.keyring),
                   machine.dpapi, machine.random, old(machine.keyring), old(Vault()), Vault());
      }
      if replacesLegacy {
        RemoveLegacyItem(id, clean, |old(machine.history)|, old(machine.keyring), old(Vault()));
      }
      r := Ok(stored);
    }

    /** Deletes the keyring item that an entry no longer uses. A failure leaves it behind. */
    method RemoveLegacyItem(id: string, ghost clean: bool, ghost from: nat, ghost first: Keyring, ghost before: Vault)
      requires Valid() && id in secrets && secrets[id].protection != Some(LegacyKeyring)
      requires KeyKept(first, machine.keyring)
      requires clean ==> NoBlankProfile(secrets) && CutsReadAs(machine.history, from, machine.dpapi, machine.random, first, before, Vault())
      modifies machine`keyring, machine`faults, machine`history
      ensures KeyKept(old(machine.keyring), machine.keyring)
      ensures Valid() && Vault() == old(Vault())
      ensures machine.keyring == if machine.faults == old(machine.faults) then old(machine.keyring) - {id} else old(machine.keyring)
      ensures Items(machine.keyring) == if machine.faults == old(machine.faults) then Items(old(machine.keyring)) - {id} else Items(old(machine.keyring))
      ensures machine.faults >= old(machine.faults)
      ensures clean ==> CutsReadAs(machine.history, from, machine.dpapi, machine.random, first, before, Vault())
    {
      hide Consistent, Restartable, VaultOf, CutsReadAs, DurableVault, NoBlankProfile;
      IndexFacts(secrets, machine.file, machine.keyring, machine.random);
      UnusedItemIsInvisible(secrets, machine.keyring, machine.dpapi, id);
      ConsistentAfterDelete(secrets, machine.file, machine.keyring, machine.random, id);
      KeyKeptWithout(machine.keyring, id);
      KeyKeptTwice(first, machine.keyring, machine.keyring - {id});
      ItemsWithout(machine.keyring, id);
      var deleted := machine.Delete(id);
      if deleted && clean {
        DurableReads(secrets, machine.file, machine.keyring, machine.random, machine.dpapi);
        OneMoreCut(old(machine.history), from, Durable(machine.file, machine.keyring), machine.dpapi, machine.random, first, before, Vault());
      }
    }

    method DecryptSecret(id: string, value: Protected) returns (r: Result<string, Error>)
      requires Valid()
      modifies `credentialMasterKey, machine
      ensures r.Err? ==> !r.error.Incomplete? && !r.error.Unsupported?
      ensures Valid() && Vault() == old(Vault()) && machine.file == old(machine.file)
      ensures machine.keyring == old(machine.keyring) && machine.faults >= old(machine.faults)
      ensures r.Ok? ==> Open(id, value, machine.keyring) == Value(r.value)
      ensures r.Err? ==> machine.faults > old(machine.faults) || Open(id, value, machine.keyring) == Unreadable
      ensures old(NoBlankProfile(secrets)) ==>
                CutsReadAs(machine.history, |old(machine.history)|, machine.dpapi, machine.random, old(machine.keyring), Vault(), Vault())
    {
      hide Consistent, Restartable, VaultOf, CutsReadAs, DurableVault, NoBlankProfile;
      NoCuts(machine.history, machine.dpapi, machine.random, old(machine.keyring), Vault(), Vault());
      if !value.Sealed? {
        return Err(Undecryptable);
      }
      var key := LoadMasterKey(false);
      if key.Err? {
        return Err(key.error);
      }
      if key.value != value.key || value.aad != id {
        return Err(Undecryptable);
      }
      r := Ok(value.plaintext);
    }

    /** Seals the value of an old entry under the master key; the caller sees no difference. */
    method ReplaceWithMasterKeyMetadata(previous: StoredSecret, value: string) returns (r: Result<(), Error>)
      requires Valid() && previous.id in secrets && secrets[previous.id] == previous
      requires ReadEntry(previous, machine.keyring, machine.dpapi) == Value(value)
      modifies this, machine
      ensures r.Err? ==> !r.error.Incomplete? && !r.error.Unsupported?
      ensures KeyKept(old(machine.keyring), machine.keyring)
      ensures Valid() && Vault() == old(Vault()) && machine.faults >= old(machine.faults)
      ensures r.Ok? ==> previous.id in secrets && secrets == old(secrets)[previous.id := secrets[previous.id]]
                        && secrets[previous.id].(protectedValue := None)
                           == previous.(hasValue := true, protectedValue := None, protection := Some(MasterKey))
      ensures r.Err? ==> secrets == old(secrets)
      ensures Items(machine.keyring) == Items(old(machine.keyring))
      ensures r.Err? ==> machine.faults > old(machine.faults) || !KeyUsable(machine.keyring)
      ensures old(NoBlankProfile(secrets)) ==>
                && NoBlankProfile(secrets)
                && CutsReadAs(machine.history, |old(machine.history)|, machine.dpapi, machine.random, old(machine.keyring), Vault(), Vault())
    {
      hide Items, Consistent, Restartable, VaultOf, CutsReadAs, DurableVault, ReadEntry;
      IndexFacts(secrets, machine.file, machine.keyring, machine.random);
      VaultAt(secrets, machine.keyring, machine.dpapi, previous.profileId, previous.purpose);
      var sealed := EncryptSecret(previous.id, value);
      if sealed.Err? {
        return Err(sealed.error);
      }
      var stored := previous.(hasValue := true, protectedValue := Some(sealed.value), protection := Some(MasterKey));
      SealedReads(stored, machine.keyring, machine.dpapi);
      ghost var history := machine.history;
      var ok := StoreEntry(stored);
      if !ok {
        return Err(PersistFailed);
      }
      assert Vault() == old(Vault());
      if NoBlankProfile(secrets) {
        DurableReads(secrets, machine.file, machine.keyring, machine.random, machine.dpapi);
        if old(NoBlankProfile(secrets)) {
          OneMoreCut(history, |old(machine.history)|, Durable(machine.file, machine.keyring), machine.dpapi, machine.random, old(machine.keyring), Vault(), Vault());
        }
      }
      r := Ok(());
    }

    method MigrateLegacyKeyringValue(previous: StoredSecret, value: string) returns (r: Result<(), Error>)
      requires Valid() && previous.id in secrets && secrets[previous.id] == previous
      requires ReadEntry(previous, machine.keyring, machine.dpapi) == Value(value)
      modifies this, machine
      ensures r.Err? ==> !r.error.Incomplete? && !r.error.Unsupported?
      ensures KeyKept(old(machine.keyring), machine.keyring)
      ensures Valid() && Vault() == old(Vault()) && machine.faults >= old(machine.faults)
      ensures r.Ok? ==> previous.id in secrets && secrets == old(secrets)[previous.id := secrets[previous.id]]
                        && secrets[previous.id].(protectedValue := None)
                           == previous.(hasValue := true, protectedValue := None, protection := Some(MasterKey))
      ensures r.Ok? ==> Items(machine.keyring) == Items(old(machine.keyring)) - {previous.id}
                        || (machine.faults > old(machine.faults) && Items(machine.keyring) == Items(old(machine.keyring)))
      ensures r.Err? ==> secrets == old(secrets) && Items(machine.keyring) == Items(old(machine.keyring))
      ensures r.Err? ==> machine.faults > old(machine.faults) || !KeyUsable(machine.keyring)
      ensures old(NoBlankProfile(secrets)) ==>
                && NoBlankProfile(secrets)
                && CutsReadAs(machine.history, |old(machine.history)|, machine.dpapi, machine.random, old(machine.keyring), Vault(), Vault())
    {
      hide Items, Consistent, Restartable, VaultOf, CutsReadAs, DurableVault, ReadEntry, NoBlankProfile, KeyUsable;
      ghost var clean := NoBlankProfile(secrets);
      r := ReplaceWithMasterKeyMetadata(previous, value);
      if r.Ok? {
        ghost var keyring := machine.keyring;
        RemoveLegacyItem(previous.id, clean, |old(machine.history)|, old(machine.keyring), Vault());
        KeyKeptTwice(old(machine.keyring), keyring, machine.keyring);
      }
    }

    method MarkCredentialMissing(previous: StoredSecret) returns (ok: bool)
      requires Valid() && previous.id in secrets && secrets[previous.id] == previous
      requires ReadEntry(previous, machine.keyring, machine.dpapi) == Absent
      modifies this, machine
      ensures KeyKept(old(machine.keyring), machine.keyring)
      ensures Valid() && Vault() == old(Vault()) && machine.faults >= old(machine.faults)
      ensures !ok ==> machine.faults > old(machine.faults) && secrets == old(secrets)
      ensures ok ==> secrets == old(secrets)[previous.id := previous.(hasValue := false, protectedValue := None,
                                                                      protection := None)]
      ensures machine.keyring == old(machine.keyring)
      ensures old(NoBlankProfile(secrets)) ==>
                && NoBlankProfile(secrets)
                && CutsReadAs(machine.history, |old(machine.history)|, machine.dpapi, machine.random, old(machine.keyring), Vault(), Vault())
    {
      hide Consistent, Restartable, VaultOf, CutsReadAs, DurableVault, ReadEntry;
      NoCuts(machine.history, machine.dpapi, machine.random, old(machine.keyring), Vault(), Vault());
      IndexFacts(secrets, machine.file, machine.keyring, machine.random);
      VaultAt(secrets, machine.keyring, machine.dpapi, previous.profileId, previous.purpose);
      var stored := previous.(hasValue := false, protectedValue := None, protection := None);
      EmptyReads(stored, machine.keyring, machine.dpapi);
      ok := StoreEntry(stored);
      assert Vault() == old(Vault());
      if ok && NoBlankProfile(secrets) && old(NoBlankProfile(secrets)) {
        DurableReads(secrets, machine.file, machine.keyring, machine.random, machine.dpapi);
        OneMoreCut(old(machine.history), |old(machine.history)|, Durable(machine.file, machine.keyring),
                   machine.dpapi, machine.random, old(machine.keyring), Vault(), Vault());
      }
    }

    /** Reads a secret. Migrating an old entry on the way, or finding its value gone, changes
        nothing that any caller can see, whether it succeeds or not. */
    method GetSecret(profileId: string, purpose: Purpose) returns (r: Result<Option<string>, Error>)
      requires Valid()
      modifies this, machine
      ensures machine.faults >= old(machine.faults)
      ensures KeyKept(old(machine.keyring), machine.keyring)
      ensures Valid() && Vault() == old(Vault())
      ensures r.Ok? ==> Vault()[(profileId, purpose)] == if r.value.Some? then Value(r.value.value) else Absent
      ensures r.Err? ==> secrets == old(secrets) && Items(machine.keyring) == Items(old(machine.keyring))
      ensures r.Ok? ==> && ReadsInPlace(old(secrets), secrets, SecretId(profileId, purpose), r.value.Some?)
                        && ItemDropped(old(secrets), old(machine.keyring), machine.keyring, SecretId(profileId, purpose),
                                       machine.faults == old(machine.faults))
      ensures r.Ok? && IsLegacy(old(secrets), SecretId(profileId, purpose)) && r.value.None? ==>
                SecretId(profileId, purpose) !in old(machine.keyring)
      ensures r == Err(Incomplete) <==> LacksValue(old(secrets), SecretId(profileId, purpose))
      ensures r == Err(Unsupported) <==> LacksProtection(old(secrets), SecretId(profileId, purpose))
      ensures r.Err? ==> || machine.faults > old(machine.faults) || !KeyUsable(machine.keyring)
                         || Vault()[(profileId, purpose)] == Unreadable
      ensures old(NoBlankProfile(secrets)) ==>
                && NoBlankProfile(secrets)
                && CutsReadAs(machine.history, |old(machine.history)|, machine.dpapi, machine.random, old(machine.keyring), Vault(), Vault())
    {
      hide Consistent, Restartable, VaultOf, CutsReadAs, DurableVault, NoBlankProfile, KeyUsable, Open;
      KeyKeptUnchanged(machine.keyring);
      NoCuts(machine.history, machine.dpapi, machine.random, old(machine.keyring), Vault(), Vault());
      IndexFacts(secrets, machine.file, machine.keyring, machine.random);
      VaultAt(secrets, machine.keyring, machine.dpapi, profileId, purpose);
      var id := SecretId(profileId, purpose);
      if id !in secrets {
        return Ok(None);
      }
      var stored := secrets[id];
      match stored.protection {
        case Some(MasterKey) =>
          if stored.protectedValue.None? {
            return Err(Incomplete);
          }
          var plain := DecryptSecret(id, stored.protectedValue.value);
          r := if plain.Ok? then Ok(Some(plain.value)) else Err(plain.error);
        case Some(LegacyKeyring) =>
          var item := machine.Get(id);
          if item.Err? {
            return Err(item.error);
          }
          if item.value.Some? {
            var migrated := MigrateLegacyKeyringValue(stored, item.value.value.value);
            r := if migrated.Ok? then Ok(Some(item.value.value.value)) else Err(migrated.error);
          } else {
            var ok := MarkCredentialMissing(stored);
            r := if ok then Ok(None) else Err(PersistFailed);
          }
        case Some(LegacyDpapi) =>
          if stored.protectedValue.None? {
            return Err(Incomplete);
          }
          if !stored.protectedValue.value.DpapiBlob? || stored.protectedValue.value.blob !in machine.dpapi {
            return Err(Undecryptable);
          }
          var value := machine.dpapi[stored.protectedValue.value.blob];
          var replaced := ReplaceWithMasterKeyMetadata(stored, value);
          r := if replaced.Ok? then Ok(Some(value)) else Err(replaced.error);
        case Some(Unknown(_)) =>
          r := Err(Unsupported);
        case None =>
          r := if stored.protectedValue.Some? then Err(Unsupported) else Ok(None);
      }
    }

    /** Takes an entry out of the index and the file, or puts it back. */
    method DropEntry(id: string) returns (ok: bool)
      requires Valid() && id in secrets
      modifies `secrets, machine`file, machine`faults, machine`history
      ensures Valid()
      ensures ok ==> && secrets == old(secrets) - {id} && machine.faults == old(machine.faults)
                     && Vault() == WithoutId(old(Vault()), id)
                     && machine.history == old(machine.history) + [Durable(machine.file, machine.keyring)]
      ensures !ok ==> && secrets == old(secrets) && machine.faults == old(machine.faults) + 1
                      && machine.history == old(machine.history)
    {
      hide Consistent, VaultOf, WithoutId, WellKeyed, Lists;
      IndexFacts(secrets, machine.file, machine.keyring, machine.random);
      WellKeyedAfterDrop(secrets, id);
      DroppingEntry(secrets, machine.keyring, machine.dpapi, id);
      var stored := secrets[id];
      secrets := secrets - {id};
      ok := Persist();
      if ok {
        ConsistentAfterDrop(old(secrets), old(machine.file), machine.keyring, machine.random, id, machine.file);
      } else {
        secrets := secrets[id := stored];
        assert secrets == old(secrets);
      }
    }

    /** Reads the keyring item of an old entry and deletes it. */
    method TakeLegacyItem(id: string) returns (r: Result<Option<Credential>, Error>)
      requires Valid() && id in secrets && secrets[id].protection == Some(LegacyKeyring)
      modifies machine`keyring, machine`faults, machine`history
      ensures KeyKept(old(machine.keyring), machine.keyring)
      ensures Valid()
      ensures r.Ok? ==> && machine.keyring == old(machine.keyring) - {id} && machine.faults == old(machine.faults)
                        && r.value == (if id in old(machine.keyring) then Some(old(machine.keyring)[id]) else None)
                        && (r.value.Some? ==> r.value.value.Text?)
                        && Vault() == WithoutId(old(Vault()), id)
                        && machine.history == old(machine.history) + [Durable(machine.file, machine.keyring)]
      ensures r.Err? ==> && machine.keyring == old(machine.keyring) && machine.faults == old(machine.faults) + 1
                         && machine.history == old(machine.history) && r.error == KeyringFailed
    {
      hide Consistent, VaultOf, WithoutId;
      IndexFacts(secrets, machine.file, machine.keyring, machine.random);
      DroppingItemOf(secrets, machine.file, machine.keyring, machine.random, machine.dpapi, id);
      KeyKeptWithout(machine.keyring, id);
      r := machine.Get(id);
      if r.Ok? {
        var deleted := machine.Delete(id);
        if !deleted {
          r := Err(KeyringFailed);
        }
      }
    }

    /** Puts a keyring item back. */
    method RestoreLegacyItem(id: string, value: Credential) returns (ok: bool)
      requires Valid() && value.Text? && id in secrets
      modifies machine`keyring, machine`faults, machine`history
      ensures KeyKept(old(machine.keyring), machine.keyring)
      ensures Valid()
      ensures ok ==> machine.keyring == old(machine.keyring)[id := value] && machine.faults == old(machine.faults)
                     && machine.history == old(machine.history) + [Durable(machine.file, machine.keyring)]
      ensures !ok ==> machine.keyring == old(machine.keyring) && machine.faults == old(machine.faults) + 1
                      && machine.history == old(machine.history)
    {
      hide Consistent, VaultOf;
      RestoringItem(secrets, machine.file, machine.keyring, machine.random, id, value);
      ok := machine.Set(id, value);
    }

    /** Deletes one entry. After an error the secret is still there, except when the keyring
        also refuses to take back the item of an old entry: then it is lost. */
    method DeleteLocked(id: string) returns (r: Result<(), Error>)
      requires Valid()
      modifies `secrets, machine`file, machine`keyring, machine`faults, machine`history
      ensures Valid()
      ensures r.Ok? ==> secrets == old(secrets) - {id} && Vault() == WithoutId(old(Vault()), id)
      ensures r.Err? ==> && secrets == old(secrets)
                         && Vault() == if r.error == RollbackUnavailable then WithoutId(old(Vault()), id) else old(Vault())
      ensures machine.keyring == if IsLegacy(old(secrets), id) && (r.Ok? || r.error == RollbackUnavailable)
                                 then old(machine.keyring) - {id} else old(machine.keyring)
      ensures machine.faults == old(machine.faults) + FaultsOf(r)
      ensures r.Err? && r.error == RollbackUnavailable ==>
                ReadId(old(secrets), old(machine.keyring), machine.dpapi, id).Value?
      ensures old(machine.history) <= machine.history
      ensures KeyKept(old(machine.keyring), machine.keyring)
      ensures old(NoBlankProfile(secrets)) ==>
                && NoBlankProfile(secrets)
                && CutsReadAs(machine.history, |old(machine.history)|, machine.dpapi, machine.random, old(machine.keyring), old(Vault()), WithoutId(old(Vault()), id))
    {
      hide Consistent, Restartable, VaultOf, CutsReadAs, DurableVault, NoBlankProfile, WithoutId, ReadId;
      ghost var v, gone, from := Vault(), WithoutId(Vault(), id), |machine.history|;
      NoCuts(machine.history, machine.dpapi, machine.random, old(machine.keyring), v, gone);
      WithoutIdTwice(v, id);
      if id !in secrets {
        NothingToDelete(secrets, machine.keyring, machine.dpapi, id);
        return Ok(());
      }
      var previousCredential := None;
      if secrets[id].protection == Some(LegacyKeyring) {
        LegacyItemReads(secrets, machine.file, machine.keyring, machine.random, machine.dpapi, id);
        var item := TakeLegacyItem(id);
        if item.Err? {
          return Err(item.error);
        }
        previousCredential := item.value;
        CutAfter(old(machine.history), from, old(machine.keyring), v, gone);
      }
      ghost var history, keyring := machine.history, machine.keyring;
      NoBlankAfterDrop(secrets, id);
      var ok := DropEntry(id);
      if ok {
        if old(NoBlankProfile(secrets)) {
          CutAfter(history, from, old(machine.keyring), v, gone);
        }
        return Ok(());
      }
      if previousCredential.None? {
        MissingItem(old(machine.keyring), id);
        return Err(PersistFailed);
      }
      assert (old(machine.keyring) - {id})[id := previousCredential.value] == old(machine.keyring);
      var restored := RestoreLegacyItem(id, previousCredential.value);
      if !restored {
        return Err(RollbackUnavailable);
      }
      CutAfter(history, from, old(machine.keyring), v, gone);
      r := Err(PersistFailed);
    }

    /** The state that was just made durable is one of the two. */
    lemma CutAfter(history: seq<Durable>, from: nat, first: Keyring, v: Vault, gone: Vault)
      requires Valid() && machine.history == history + [Durable(machine.file, machine.keyring)]
      requires NoBlankProfile(secrets) ==> CutsReadAs(history, from, machine.dpapi, machine.random, first, v, gone)
      requires (Vault() == v || Vault() == gone) && KeyKept(first, machine.keyring)
      ensures NoBlankProfile(secrets) ==> CutsReadAs(machine.history, from, machine.dpapi, machine.random, first, v, gone)
    {
      hide Consistent, Restartable, VaultOf, CutsReadAs, DurableVault, NoBlankProfile;
      if NoBlankProfile(secrets) {
        DurableReads(secrets, machine.file, machine.keyring, machine.random, machine.dpapi);
        OneMoreCut(history, from, Durable(machine.file, machine.keyring), machine.dpapi, machine.random, first, v, gone);
      }
    }

    /** Deletes every entry of a profile, stopping at the first error. */
    method DeleteForProfile(profileId: string) returns (r: Result<(), Error>)
      requires Valid()
      modifies `secrets, machine`file, machine`keyring, machine`faults, machine`history
      ensures KeyKept(old(machine.keyring), machine.keyring)
      ensures Valid()
      ensures PartlyWithoutProfile(old(Vault()), Vault(), profileId)
      ensures r.Ok? ==> Vault() == WithoutProfile(old(Vault()), profileId)
      ensures r.Ok? ==> secrets == old(secrets) - IdsOf(old(secrets), profileId)
      ensures r.Ok? ==> machine.keyring == old(machine.keyring) - LegacyIds(old(secrets), IdsOf(old(secrets), profileId))
      ensures r.Err? ==> GoneTogether(old(secrets), old(machine.keyring), secrets, machine.keyring)
      ensures machine.faults == old(machine.faults) + FaultsOf(r)
      ensures old(NoBlankProfile(secrets)) ==>
                && NoBlankProfile(secrets)
                && CutsPartly(machine.history, |old(machine.history)|, machine.dpapi, machine.random, old(machine.keyring),
                              old(Vault()), profileId)
    {
      hide Consistent, Restartable, VaultOf, CutsReadAs, CutsPartly, DurableVault, WithoutId, WithoutProfile,
        PartlyWithoutProfile, ReadId, NoBlankProfile, IdsOf, LegacyIds, IsLegacy, GoneTogether;
      var left := IdsOf(secrets, profileId);
      ghost var v, all, done: set<string> := Vault(), left, {};
      DeletedNone(secrets, machine.keyring);
      PartlyStart(v, profileId, secrets, machine.keyring, machine.dpapi);
      ghost var first, from, clean := machine.keyring, |machine.history|, NoBlankProfile(secrets);
      NoCutsPartly(machine.history, machine.dpapi, machine.random, first, v, profileId);
      while left != {}
        invariant Valid() && machine.faults == old(machine.faults) && KeyKept(old(machine.keyring), machine.keyring)
        invariant clean ==>
                    && NoBlankProfile(secrets)
                    && CutsPartly(machine.history, from, machine.dpapi, machine.random, first, v, profileId)
        invariant left == IdsOf(secrets, profileId) && done + left == all && done !! left
        invariant secrets == old(secrets) - done
        invariant machine.keyring == old(machine.keyring) - LegacyIds(old(secrets), done)
        invariant PartlyWithoutProfile(v, Vault(), profileId)
        decreases left
      {
        var id :| id in left;
        IdsOfDrop(secrets, profileId, id);
        PartlyStepFor(v, profileId, id);
        ghost var history, keyring, before := machine.history, machine.keyring, Vault();
        DeletedOneMore(old(secrets), old(machine.keyring), done, id);
        r := DeleteLocked(id);
        KeyKeptTwice(first, keyring, machine.keyring);
        if clean {
          CutsGoOn(history, machine.history, from, machine.dpapi, machine.random, first, keyring, before,
                   WithoutId(before, id), v, profileId);
        }
        if r.Err? {
          return;
        }
        left, done := left - {id}, done + {id};
      }
      assert done == all;
      PartlyEndFor(v, profileId);
      r := Ok(());
    }

    lemma PartlyStepFor(v: Vault, profileId: string, id: string)
      requires Valid() && id in IdsOf(secrets, profileId)
      requires PartlyWithoutProfile(v, Vault(), profileId)
      ensures PartlyWithoutProfile(v, WithoutId(Vault(), id), profileId)
    {
      IndexFacts(secrets, machine.file, machine.keyring, machine.random);
      PartlyStep(v, Vault(), profileId, secrets[id]);
    }

    lemma PartlyEndFor(v: Vault, profileId: string)
      requires Valid() && IdsOf(secrets, profileId) == {}
      requires PartlyWithoutProfile(v, Vault(), profileId)
      ensures Vault() == WithoutProfile(v, profileId)
    {
      assert forall id :: id in secrets ==> id !in IdsOf(secrets, profileId);
      PartlyEnd(v, profileId, secrets, machine.keyring, machine.dpapi);
    }
  }

  /** How many calls fail in a deletion with this result: the loss of a secret takes two. */
  function FaultsOf(r: Result<(), Error>): nat {
    if r.Ok? then 0 else if r.error == RollbackUnavailable then 2 else 1
  }

  function LegacyIds(secrets: Index, ids: set<string>): set<string> {
    set id | id in ids && IsLegacy(secrets, id)
  }

  lemma DeletedNone(secrets: Index, keyring: Keyring)
    ensures secrets - {} == secrets && keyring - LegacyIds(secrets, {}) == keyring
  {
  }

  /** Entries are deleted one after the other, each with its item. */
  lemma DeletedOneMore(secrets: Index, keyring: Keyring, done: set<string>, id: string)
    requires id !in done
    ensures IsLegacy(secrets - done, id) == IsLegacy(secrets, id)
    ensures secrets - done - {id} == secrets - (done + {id})
    ensures keyring - LegacyIds(secrets, done) - (if IsLegacy(secrets, id) then {id} else {})
            == keyring - LegacyIds(secrets, done + {id})
    ensures GoneTogether(secrets, keyring, secrets - done, keyring - LegacyIds(secrets, done))
    ensures GoneTogether(secrets, keyring, secrets - done, keyring - LegacyIds(secrets, done) - (if IsLegacy(secrets, id) then {id} else {}))
  {
  }

  /** Entries and items only go, no item but that of a legacy entry, and no legacy entry without its item. */
  predicate GoneTogether(secrets: Index, keyring: Keyring, secrets': Index, keyring': Keyring) {
    && (forall id :: id in secrets' ==> id in secrets && secrets'[id] == secrets[id])
    && (forall a :: a in keyring' ==> a in keyring && keyring'[a] == keyring[a])
    && (forall a :: a in keyring && a !in keyring' ==> IsLegacy(secrets, a))
    && (forall id :: id in secrets && id !in secrets' && IsLegacy(secrets, id) ==> id !in keyring')
  }

  function IdsOf(secrets: Index, profileId: string): set<string> {
    set id | id in secrets && secrets[id].profileId == profileId
  }

  lemma IdsOfDrop(secrets: Index, profileId: string, id: string)
    requires id in IdsOf(secrets, profileId)
    ensures id in secrets
    ensures IdsOf(secrets - {id}, profileId) == IdsOf(secrets, profileId) - {id}
  {
  }

  lemma WithoutIdTwice(v: Vault, id: string)
    ensures WithoutId(WithoutId(v, id), id) == WithoutId(v, id)
  {
  }

  lemma NothingToDelete(secrets: Index, keyring: Keyring, dpapi: map<nat, string>, id: string)
    requires id !in secrets
    ensures secrets - {id} == secrets
    ensures WithoutId(VaultOf(secrets, keyring, dpapi), id) == VaultOf(secrets, keyring, dpapi)
  {
  }

  lemma DroppingItemOf(secrets: Index, file: seq<StoredSecret>, keyring: Keyring, random: nat,
                       dpapi: map<nat, string>, id: string)
    requires Consistent(secrets, file, keyring, random)
    requires id in secrets && secrets[id].protection == Some(LegacyKeyring)
    ensures Consistent(secrets, file, keyring - {id}, random)
    ensures VaultOf(secrets, keyring - {id}, dpapi) == WithoutId(VaultOf(secrets, keyring, dpapi), id)
  {
    DeletingRemovesOneSecret(secrets, keyring, dpapi, id);
  }

  lemma RestoringItem(secrets: Index, file: seq<StoredSecret>, keyring: Keyring, random: nat, id: string,
                      value: Credential)
    requires Consistent(secrets, file, keyring, random) && value.Text? && id in secrets
    ensures Consistent(secrets, file, keyring[id := value], random)
    ensures id != KEYRING_MASTER_KEY_ACCOUNT
  {
    IndexFacts(secrets, file, keyring, random);
  }

  lemma MissingItem(keyring: Keyring, id: string)
    ensures id !in keyring ==> keyring - {id} == keyring
  {
  }

  lemma WellKeyedAfterDrop(secrets: Index, id: string)
    requires WellKeyed(secrets)
    ensures WellKeyed(secrets - {id})
  {
  }

  lemma NoBlankAfterDrop(secrets: Index, id: string)
    ensures NoBlankProfile(secrets) ==> NoBlankProfile(secrets - {id})
  {
  }

  lemma LegacyItemReads(secrets: Index, file: seq<StoredSecret>, keyring: Keyring, random: nat,
                        dpapi: map<nat, string>, id: string)
    requires Consistent(secrets, file, keyring, random)
    requires id in secrets && secrets[id].protection == Some(LegacyKeyring)
    ensures ReadId(secrets, keyring, dpapi, id).Value? <==> id in keyring
  {
    IndexFacts(secrets, file, keyring, random);
  }

  lemma PartlyStart(v: Vault, profileId: string, secrets: Index, keyring: Keyring, dpapi: map<nat, string>)
    requires v == VaultOf(secrets, keyring, dpapi)
    ensures PartlyWithoutProfile(v, v, profileId)
  {
  }

  lemma PartlyStep(v: Vault, v': Vault, profileId: string, s: StoredSecret)
    requires PartlyWithoutProfile(v, v', profileId)
    requires s.profileId == profileId && s.id == SecretId(s.profileId, s.purpose)
    ensures PartlyWithoutProfile(v, WithoutId(v', s.id), profileId)
  {
    forall k: (string, Purpose)
      ensures SecretId(k.0, k.1) == s.id ==> k.0 == profileId
    {
      SecretIdInjective(k.0, k.1, s.profileId, s.purpose);
    }
  }

  lemma PartlyEnd(v: Vault, profileId: string, secrets: Index, keyring: Keyring, dpapi: map<nat, string>)
    requires PartlyWithoutProfile(v, VaultOf(secrets, keyring, dpapi), profileId)
    requires WellKeyed(secrets) && forall id :: id in secrets ==> secrets[id].profileId != profileId
    ensures VaultOf(secrets, keyring, dpapi) == WithoutProfile(v, profileId)
  {
    forall k: (string, Purpose)
      ensures k.0 == profileId ==> SecretId(k.0, k.1) !in secrets
    {
      var id := SecretId(k.0, k.1);
      if id in secrets {
        SecretIdInjective(k.0, k.1, secrets[id].profileId, secrets[id].purpose);
      }
    }
  }

  lemma VaultAt(secrets: Index, keyring: Keyring, dpapi: map<nat, string>, profileId: string, purpose: Purpose)
    ensures (profileId, purpose) in VaultOf(secrets, keyring, dpapi)
    ensures VaultOf(secrets, keyring, dpapi)[(profileId, purpose)]
            == ReadId(secrets, keyring, dpapi, SecretId(profileId, purpose))
  {
  }

  lemma EmptyReads(s: StoredSecret, keyring: Keyring, dpapi: map<nat, string>)
    requires s.protection == None && s.protectedValue == None
    ensures ReadEntry(s, keyring, dpapi) == Absent
  {
  }

  lemma SealedReads(s: StoredSecret, keyring: Keyring, dpapi: map<nat, string>)
    requires s.protection == Some(MasterKey) && s.protectedValue.Some? && s.protectedValue.value.Sealed?
    requires s.protectedValue.value.aad == s.id && HoldsKey(keyring, s.protectedValue.value.key)
    ensures ReadEntry(s, keyring, dpapi) == Value(s.protectedValue.value.plaintext)
  {
  }

  lemma StorableId(s: StoredSecret, random: nat)
    requires Storable(s, random)
    ensures s.id == SecretId(s.profileId, s.purpose)
  {
  }

  lemma DurableReads(secrets: Index, file: seq<StoredSecret>, keyring: Keyring, random: nat, dpapi: map<nat, string>)
    requires Consistent(secrets, file, keyring, random) && NoBlankProfile(secrets)
    ensures DurableVault(Durable(file, keyring), dpapi) == VaultOf(secrets, keyring, dpapi)
    ensures Restartable(Durable(file, keyring), random)
  {
    DurableReadsAsVault(secrets, file, keyring, dpapi);
    ReloadAgrees(file, secrets);
  }

  lemma KeyDrawn(secrets: Index, file: seq<StoredSecret>, keyring: Keyring, random: nat, key: Key)
    requires Consistent(secrets, file, keyring, random) && HoldsKey(keyring, key)
    ensures key < random
  {
  }

  lemma NewKeyInvisible(secrets: Index, file: seq<StoredSecret>, keyring: Keyring, dpapi: map<nat, string>, key: Key)
    requires Consistent(secrets, file, keyring, key)
    requires KEYRING_MASTER_KEY_ACCOUNT !in keyring
    ensures VaultOf(secrets, keyring[KEYRING_MASTER_KEY_ACCOUNT := EncodedKey(key)], dpapi)
            == VaultOf(secrets, keyring, dpapi)
    ensures keyring[KEYRING_MASTER_KEY_ACCOUNT := EncodedKey(key)] - {KEYRING_MASTER_KEY_ACCOUNT}
            == keyring - {KEYRING_MASTER_KEY_ACCOUNT}
  {
    NewMasterKeyIsInvisible(secrets, keyring, dpapi, key);
  }

  // ----- Runs -----

  datatype Op =
    | SetOp(profileId: string, purpose: Purpose, value: string, now: string)
    | GetOp(profileId: string, purpose: Purpose)
    | DeleteOp(id: string)
    | DeleteProfileOp(profileId: string)
    | Restart

  /** An operation runs to its end, or the process dies during it and a new one starts. */
  datatype Action = Perform(op: Op) | CrashDuring(op: Op)

  datatype Outcome = Done | Got(value: Option<string>) | Failed(error: Error) | Crashed

  /** What can be read, how many calls have failed so far, whether the master key is one, the
      other items of the keyring, and those that no entry uses. */
  datatype Moment = Moment(vault: Vault, faults: nat, keyUsable: bool, items: Keyring, orphans: set<string>)

  /** What a plain map from (profile, purpose) to value would do. */
  ghost predicate MapStep(v: Vault, op: Op, outcome: Outcome, v': Vault) {
    match op
    case SetOp(profileId, purpose, value, _) =>
      if outcome.Done? then v' == v[(profileId, purpose) := Value(value)] else outcome.Failed? && v' == v
    case GetOp(profileId, purpose) =>
      && v' == v
      && (outcome.Failed? || (outcome.Got? && (profileId, purpose) in v
            && v[(profileId, purpose)] == if outcome.value.Some? then Value(outcome.value.value) else Absent))
    case DeleteOp(id) =>
      if outcome.Done? then v' == WithoutId(v, id)
      else outcome.Failed? && v' == if outcome.error == RollbackUnavailable then WithoutId(v, id) else v
    case DeleteProfileOp(profileId) =>
      if outcome.Done? then v' == WithoutProfile(v, profileId)
      else outcome.Failed? && PartlyWithoutProfile(v, v', profileId)
    case Restart =>
      outcome.Done? && v' == v
  }

  /** An operation fails only for a cause: a failed call, a damaged master key, an empty value,
      or an entry that cannot be read. */
  ghost predicate FailsForACause(m: Moment, op: Op, outcome: Outcome, m': Moment) {
    outcome.Failed? ==>
      || m'.faults > m.faults || !m.keyUsable
      || (op.SetOp? && op.value == "")
      || (op.GetOp? && (op.profileId, op.purpose) in m.vault && m.vault[(op.profileId, op.purpose)] == Unreadable)
  }

  /** With at most one failed call, a failed operation on one secret changes nothing; a deletion
      that loses its secret takes exactly two. */
  ghost predicate OneFaultIsHarmless(m: Moment, op: Op, outcome: Outcome, m': Moment) {
    && (outcome.Failed? && !op.DeleteProfileOp? && m'.faults <= m.faults + 1 ==> m'.vault == m.vault)
    && (outcome.Failed? && op.DeleteOp? ==> (outcome.error == RollbackUnavailable <==> m'.faults == m.faults + 2))
  }

  /** Nothing is left behind in the keyring: an item stays without its entry only if the call that
      deletes it fails, after a new entry has taken its place. A failed operation on one secret
      touches no item, but for the one that a deletion loses. */
  ghost predicate NothingLeftBehind(m: Moment, op: Op, outcome: Outcome, m': Moment) {
    && (m'.orphans <= m.orphans
        || (m'.faults > m.faults && !outcome.Failed? && (op.SetOp? || op.GetOp?)
            && m'.orphans <= m.orphans + {SecretId(op.profileId, op.purpose)}))
    && (outcome.Failed? && !op.DeleteProfileOp? && outcome.error != RollbackUnavailable ==> m'.items == m.items)
    && (op.DeleteOp? && !outcome.Failed? ==> m'.items == m.items || m'.items == m.items - {op.id})
  }

  /** What a crash at any point of an operation leaves. */
  ghost predicate HalfDone(v: Vault, op: Op, v': Vault) {
    match op
    case SetOp(profileId, purpose, value, _) => v' == v || v' == v[(profileId, purpose) := Value(value)]
    case GetOp(_, _) => v' == v
    case DeleteOp(id) => v' == v || v' == WithoutId(v, id)
    case DeleteProfileOp(profileId) => PartlyWithoutProfile(v, v', profileId)
    case Restart => v' == v
  }

  ghost predicate StepOk(m: Moment, action: Action, outcome: Outcome, m': Moment) {
    && m'.faults >= m.faults && (m.keyUsable ==> m'.keyUsable)
    && match action
       case Perform(op) =>
         && MapStep(m.vault, op, outcome, m'.vault)
         && FailsForACause(m, op, outcome, m') && OneFaultIsHarmless(m, op, outcome, m')
         && NothingLeftBehind(m, op, outcome, m')
       case CrashDuring(op) => outcome.Crashed? && HalfDone(m.vault, op, m'.vault)
  }

  predicate NoBlankOp(op: Op) {
    op.SetOp? ==> !Blank(op.profileId)
  }

  lemma RestartConsistent(secrets: Index, file: seq<StoredSecret>, keyring: Keyring, random: nat)
    requires Consistent(secrets, file, keyring, random) && NoBlankProfile(secrets)
    ensures Load(file) == secrets
  {
    ReloadAgrees(file, secrets);
  }

  ghost function Now(store: Store): Moment
    reads store, store.machine
  {
    Moment(store.Vault(), store.machine.faults, KeyUsable(store.machine.keyring), Items(store.machine.keyring),
           Orphans(store.secrets, store.machine.keyring))
  }

  /** Every state made durable during an operation is one to restart on, half done at worst. */
  ghost predicate CutsHalfDone(history: seq<Durable>, from: nat, dpapi: map<nat, string>, random: nat, first: Keyring,
                               v: Vault, op: Op)
  {
    forall i :: from <= i < |history| ==>
      && Restartable(history[i], random) && KeyKept(first, history[i].keyring)
      && HalfDone(v, op, DurableVault(history[i], dpapi))
  }

  lemma CutsAreHalfDone(history: seq<Durable>, from: nat, dpapi: map<nat, string>, random: nat, first: Keyring,
                        v: Vault, after: Vault, op: Op)
    requires CutsReadAs(history, from, dpapi, random, first, v, after)
    requires HalfDone(v, op, v) && HalfDone(v, op, after)
    ensures CutsHalfDone(history, from, dpapi, random, first, v, op)
  {
    hide Restartable, DurableVault, KeyKept, HalfDone;
  }

  lemma PartlyIsHalfDone(history: seq<Durable>, from: nat, dpapi: map<nat, string>, random: nat, first: Keyring,
                         v: Vault, profileId: string)
    requires CutsPartly(history, from, dpapi, random, first, v, profileId)
    ensures CutsHalfDone(history, from, dpapi, random, first, v, DeleteProfileOp(profileId))
  {
    hide Restartable, DurableVault, KeyKept;
  }

  lemma KeyStaysUsable(before: Keyring, after: Keyring)
    requires KeyKept(before, after)
    ensures KeyUsable(before) <==> KeyUsable(after)
  {
  }

  lemma MapStepIsHalfDone(v: Vault, op: Op, outcome: Outcome, v': Vault)
    requires MapStep(v, op, outcome, v') && IsTotal(v)
    ensures HalfDone(v, op, v')
  {
  }

  ghost predicate IsTotal(v: Vault) {
    forall k: (string, Purpose) :: k in v
  }

  lemma VaultIsTotal(secrets: Index, keyring: Keyring, dpapi: map<nat, string>)
    ensures IsTotal(VaultOf(secrets, keyring, dpapi))
  {
  }

  lemma DeleteLeavesNothing(secrets: Index, secrets': Index, before: Keyring, after: Keyring, r: Result<(), Error>,
                            id: string)
    requires secrets' == if r.Ok? then secrets - {id} else secrets
    requires after == if IsLegacy(secrets, id) && (r.Ok? || r.error == RollbackUnavailable) then before - {id} else before
    ensures Orphans(secrets', after) <= Orphans(secrets, before)
    ensures Items(after) == Items(before) || (Items(after) == Items(before) - {id} && (r.Ok? || r.error == RollbackUnavailable))
  {
    ItemsWithout(before, id);
  }

  lemma AllGoneTogether(secrets: Index, keyring: Keyring, ids: set<string>)
    ensures GoneTogether(secrets, keyring, secrets - ids, keyring - LegacyIds(secrets, ids))
  {
  }

  lemma SetLeavesNothing(secrets: Index, secrets': Index, before: Keyring, after: Keyring, r: Result<StoredSecret, Error>,
                         id: string, certain: bool)
    requires r.Ok? ==> r.value.id == id && secrets' == secrets[id := r.value] && ItemDropped(secrets, before, after, id, certain)
    requires r.Err? ==> secrets' == secrets && Items(after) == Items(before)
    ensures Orphans(secrets', after) <= Orphans(secrets, before)
            || (!certain && r.Ok? && Orphans(secrets', after) <= Orphans(secrets, before) + {id})
  {
    if r.Ok? {
      OrphansAfterStore(secrets, before, after, r.value, certain);
    } else {
      OrphansUnchanged(secrets, before, after);
    }
  }

  lemma GetLeavesNothing(secrets: Index, secrets': Index, before: Keyring, after: Keyring, r: Result<Option<string>, Error>,
                         id: string, certain: bool)
    requires id in secrets ==> secrets[id].id == id
    requires r.Ok? ==> ReadsInPlace(secrets, secrets', id, r.value.Some?) && ItemDropped(secrets, before, after, id, certain)
    requires r.Err? ==> secrets' == secrets && Items(after) == Items(before)
    ensures Orphans(secrets', after) <= Orphans(secrets, before)
            || (!certain && r.Ok? && Orphans(secrets', after) <= Orphans(secrets, before) + {id})
  {
    if r.Ok? {
      OrphansAfterRead(secrets, secrets', before, after, id, r.value.Some?, certain);
    } else {
      OrphansUnchanged(secrets, before, after);
    }
  }

  // What each operation ensures amounts to `StepOk`.

  lemma SetIsOk(m: Moment, m': Moment, op: Op, r: Result<StoredSecret, Error>)
    requires op.SetOp? && m'.faults >= m.faults && (m.keyUsable <==> m'.keyUsable)
    requires m'.vault == if r.Ok? then m.vault[(op.profileId, op.purpose) := Value(op.value)] else m.vault
    requires r.Err? ==> op.value == "" || m'.faults > m.faults || !m'.keyUsable
    requires r.Err? ==> m'.items == m.items
    requires m'.orphans <= m.orphans || (m'.faults > m.faults && r.Ok?
               && m'.orphans <= m.orphans + {SecretId(op.profileId, op.purpose)})
    ensures StepOk(m, Perform(op), if r.Ok? then Done else Failed(r.error), m')
  {
  }

  lemma GetIsOk(m: Moment, m': Moment, op: Op, r: Result<Option<string>, Error>)
    requires op.GetOp? && m'.faults >= m.faults && (m.keyUsable <==> m'.keyUsable) && m'.vault == m.vault
    requires (op.profileId, op.purpose) in m.vault
    requires r.Ok? ==> m.vault[(op.profileId, op.purpose)] == if r.value.Some? then Value(r.value.value) else Absent
    requires r.Err? ==> m'.faults > m.faults || !m'.keyUsable || m.vault[(op.profileId, op.purpose)] == Unreadable
    requires r.Err? ==> m'.items == m.items
    requires m'.orphans <= m.orphans || (m'.faults > m.faults && r.Ok?
               && m'.orphans <= m.orphans + {SecretId(op.profileId, op.purpose)})
    ensures StepOk(m, Perform(op), if r.Ok? then Got(r.value) else Failed(r.error), m')
  {
  }

  lemma DeleteIsOk(m: Moment, m': Moment, op: Op, r: Result<(), Error>)
    requires op.DeleteOp? && m'.faults == m.faults + FaultsOf(r) && (m.keyUsable <==> m'.keyUsable)
    requires m'.vault == if r.Ok? || r.error == RollbackUnavailable then WithoutId(m.vault, op.id) else m.vault
    requires m'.items == m.items || (m'.items == m.items - {op.id} && (r.Ok? || r.error == RollbackUnavailable))
    requires m'.orphans <= m.orphans
    ensures StepOk(m, Perform(op), if r.Ok? then Done else Failed(r.error), m')
  {
  }

  lemma DeleteProfileIsOk(m: Moment, m': Moment, op: Op, r: Result<(), Error>)
    requires op.DeleteProfileOp? && m'.faults == m.faults + FaultsOf(r) && (m.keyUsable <==> m'.keyUsable)
    requires r.Ok? ==> m'.vault == WithoutProfile(m.vault, op.profileId)
    requires PartlyWithoutProfile(m.vault, m'.vault, op.profileId) && m'.orphans <= m.orphans
    ensures StepOk(m, Perform(op), if r.Ok? then Done else Failed(r.error), m')
  {
  }

  lemma RestartIsOk(m: Moment)
    ensures StepOk(m, Perform(Restart), Done, m)
  {
  }

  /** One operation, from its first effect to its last. */
  method Step(store: Store, op: Op) returns (store': Store, outcome: Outcome)
    requires store.Valid() && NoBlankProfile(store.secrets) && NoBlankOp(op)
    modifies store, store.machine
    ensures store'.Valid() && NoBlankProfile(store'.secrets)
    ensures store'.machine == store.machine && (store' == store || fresh(store'))
    ensures StepOk(old(Now(store)), Perform(op), outcome, Now(store'))
    ensures CutsHalfDone(store.machine.history, |old(store.machine.history)|, store.machine.dpapi, store.machine.random,
                         old(store.machine.keyring), old(store.Vault()), op)
  {
    hide Consistent, Storable, WellKeyed, VaultOf, CutsReadAs, CutsPartly, CutsHalfDone, DurableVault, NoBlankProfile, WithoutId, WithoutProfile,
      PartlyWithoutProfile, Blank, KeyKept, KeyUsable, Items, Orphans, IsLegacy, ItemDropped, ReadsInPlace, GoneTogether,
      IdsOf, LegacyIds, StepOk, FaultsOf;
    store' := store;
    var machine := store.machine;
    ghost var m := Now(store);
    ghost var v, from, first, secrets := store.Vault(), |machine.history|, machine.keyring, store.secrets;
    IndexFacts(store.secrets, machine.file, machine.keyring, machine.random);
    match op {
      case SetOp(profileId, purpose, value, now) =>
        var r := store.SetSecret(profileId, purpose, value, now);
        SetLeavesNothing(secrets, store.secrets, first, machine.keyring, r, SecretId(profileId, purpose),
                         machine.faults == old(machine.faults));
        outcome := if r.Ok? then Done else Failed(r.error);
        KeyStaysUsable(first, machine.keyring);
        SetIsOk(m, Now(store), op, r);
        CutsAreHalfDone(machine.history, from, machine.dpapi, machine.random, first, v, store.Vault(), op);
      case GetOp(profileId, purpose) =>
        VaultAt(store.secrets, machine.keyring, machine.dpapi, profileId, purpose);
        var r := store.GetSecret(profileId, purpose);
        GetLeavesNothing(secrets, store.secrets, first, machine.keyring, r, SecretId(profileId, purpose),
                         machine.faults == old(machine.faults));
        outcome := if r.Ok? then Got(r.value) else Failed(r.error);
        KeyStaysUsable(first, machine.keyring);
        GetIsOk(m, Now(store), op, r);
        CutsAreHalfDone(machine.history, from, machine.dpapi, machine.random, first, v, v, op);
      case DeleteOp(id) =>
        var r := store.DeleteLocked(id);
        DeleteLeavesNothing(secrets, store.secrets, first, machine.keyring, r, id);
        outcome := if r.Ok? then Done else Failed(r.error);
        KeyStaysUsable(first, machine.keyring);
        DeleteIsOk(m, Now(store), op, r);
        CutsAreHalfDone(machine.history, from, machine.dpapi, machine.random, first, v, WithoutId(v, id), op);
      case DeleteProfileOp(profileId) =>
        var r := store.DeleteForProfile(profileId);
        AllGoneTogether(secrets, first, IdsOf(secrets, profileId));
        OrphansAfterDeletes(secrets, first, store.secrets, machine.keyring);
        outcome := if r.Ok? then Done else Failed(r.error);
        KeyStaysUsable(first, machine.keyring);
        DeleteProfileIsOk(m, Now(store), op, r);
        PartlyIsHalfDone(machine.history, from, machine.dpapi, machine.random, first, v, profileId);
      case Restart =>
        RestartConsistent(store.secrets, machine.file, machine.keyring, machine.random);
        KeyKeptUnchanged(machine.keyring);
        store' := new Store(machine);
        outcome := Done;
        RestartIsOk(m);
        NoCuts(machine.history, machine.dpapi, machine.random, first, v, v);
        CutsAreHalfDone(machine.history, from, machine.dpapi, machine.random, first, v, v, op);
    }
  }

  /** A process dies during an operation, and a new one starts on whatever was durable. */
  method Crash(store: Store, op: Op) returns (store': Store)
    requires store.Valid() && NoBlankProfile(store.secrets) && NoBlankOp(op)
    modifies store, store.machine
    ensures store'.Valid() && NoBlankProfile(store'.secrets)
    ensures store'.machine == store.machine && fresh(store')
    ensures StepOk(old(Now(store)), CrashDuring(op), Crashed, Now(store'))
  {
    hide Consistent, VaultOf, DurableVault, NoBlankProfile, HalfDone, MapStep, FailsForACause, OneFaultIsHarmless;
    var machine := store.machine;
    var from := |machine.history|;
    ghost var v, first := store.Vault(), machine.keyring;
    VaultIsTotal(store.secrets, machine.keyring, machine.dpapi);
    var last, outcome := Step(store, op);
    MapStepIsHalfDone(v, op, outcome, last.Vault());
    DurableReads(last.secrets, machine.file, machine.keyring, machine.random, machine.dpapi);
    var at: nat := *;
    if from <= at < |machine.history| {
      KeyStaysUsable(first, machine.history[at].keyring);
      machine.CrashTo(machine.history[at]);
    }
    store' := new Store(machine);
  }

  /** Over every run of operations, crashes and restarts, whatever fails: the store does what a
      plain map would do. An operation fails only for a cause and, unless it deletes many
      secrets or two calls fail, leaves the map as it was; a crash leaves it half done at worst. */
  method Run(initial: Store, actions: seq<Action>)
    returns (store: Store, outcomes: seq<Outcome>, ghost moments: seq<Moment>)
    requires initial.Valid() && NoBlankProfile(initial.secrets)
    requires forall i :: 0 <= i < |actions| ==> NoBlankOp(actions[i].op)
    modifies initial, initial.machine
    ensures store.Valid() && |outcomes| == |actions| && |moments| == |actions| + 1
    ensures moments[0] == old(Now(initial)) && moments[|actions|] == Now(store)
    ensures forall i :: 0 <= i < |actions| ==> StepOk(moments[i], actions[i], outcomes[i], moments[i + 1])
  {
    hide NoBlankOp, StepOk, NoBlankProfile, Consistent, VaultOf, HoldsKey, KeyUsable, CutsHalfDone;
    store, outcomes, moments := initial, [], [Now(initial)];
    for n := 0 to |actions|
      invariant store.Valid() && NoBlankProfile(store.secrets)
      invariant store.machine == initial.machine && (store == initial || fresh(store))
      invariant |outcomes| == n && |moments| == n + 1
      invariant moments[0] == old(Now(initial)) && moments[n] == Now(store)
      invariant forall i :: 0 <= i < n ==> StepOk(moments[i], actions[i], outcomes[i], moments[i + 1])
    {
      var outcome := Crashed;
      match actions[n] {
        case Perform(op) => store, outcome := Step(store, op);
        case CrashDuring(op) => store := Crash(store, op);
      }
      outcomes, moments := outcomes + [outcome], moments + [Now(store)];
    }
  }
}
