/**
 * The account vault: the persisted preferences of `SecureStorage` as fields of a
 * class, and its operations as methods that read the whole account list,
 * change a working copy and write the whole list back.
 */
module SecureStorage {
  import opened Wrappers
  import opened Accounts

  class Store {
    /** `accounts`: the persisted DTO list (an absent key reads as the empty list). */
    var records: seq<AccountDto>
    /** `data_migrated_to_byte_array`: which encoding the whole stored list uses. */
    var migrated: bool
    /** `active_account_public_key`. */
    var activeKey: Option<string>
    /** `biometric_auth_enabled`, pass-through. */
    var biometricEnabled: bool
    /** `app_pin`, pass-through. */
    var appPin: Option<string>
    /** `Base58.decode`, whose definition is not part of this model. */
    const legacyDecode: LegacyDecoder

    /** Every stored key decodes with the decoder the flag selects (Base64 would throw otherwise). */
    ghost predicate Valid()
      reads this`records, this`migrated
    {
      Readable(records, migrated)
    }

    /** The stored list decoded, in stored order. */
    function Loaded(): (xs: seq<Account>)
      reads this`records, this`migrated
      requires Valid()
    {
      DecodeAll(records, migrated, legacyDecode)
    }

    /** What `getAccounts` returns: the decoded list sorted by order. */
    function Accounts(): (xs: seq<Account>)
      reads this`records, this`migrated
      requires Valid()
    {
      SortByOrder(Loaded())
    }

    /** The read path will re-persist the list in the new encoding. */
    predicate NeedsMigration()
      reads this`records, this`migrated
    {
      !migrated && |records| > 0
    }

    /** The vault as `init` opens it, holding whatever was persisted before. */
    constructor (legacyDecode: LegacyDecoder, records: seq<AccountDto>, migrated: bool,
                 activeKey: Option<string>, biometricEnabled: bool, appPin: Option<string>)
      requires Readable(records, migrated)
      ensures Valid()
      ensures this.legacyDecode == legacyDecode && this.records == records && this.migrated == migrated
      ensures this.activeKey == activeKey && this.biometricEnabled == biometricEnabled && this.appPin == appPin
    {
      this.legacyDecode := legacyDecode;
      this.records := records;
      this.migrated := migrated;
      this.activeKey := activeKey;
      this.biometricEnabled := biometricEnabled;
      this.appPin := appPin;
    }

    /** `saveAccounts`: persists every account with a Base64 key and marks the data migrated. */
    method SaveAccounts(accounts: seq<Account>)
      requires Valid()
      modifies this
      ensures Valid()
      ensures records == EncodeAll(accounts) && migrated
      ensures Loaded() == accounts && Accounts() == SortByOrder(accounts)
      ensures activeKey == old(activeKey) && biometricEnabled == old(biometricEnabled) && appPin == old(appPin)
    {
      var stored := EncodeAll(accounts);
      RecordsRoundTrip(accounts, legacyDecode);
      records := stored;
      migrated := true;
      assert Loaded() == DecodeAll(stored, true, legacyDecode);
    }

    /**
     * `getAccounts`: decodes with the decoder the flag selects, migrates a
     * non-empty legacy list, and returns the list sorted by order.
     */
    method GetAccounts() returns (accounts: seq<Account>)
      requires Valid()
      modifies this
      ensures Valid()
      ensures accounts == old(Accounts())
      ensures SortedByOrder(accounts) && multiset(accounts) == multiset(old(Loaded()))
      ensures Loaded() == old(Loaded()) && Accounts() == old(Accounts())
      ensures old(NeedsMigration()) ==> records == EncodeAll(old(Loaded())) && migrated
      ensures !old(NeedsMigration()) ==> records == old(records) && migrated == old(migrated)
      ensures !NeedsMigration()
      ensures activeKey == old(activeKey) && biometricEnabled == old(biometricEnabled) && appPin == old(appPin)
    {
      var decoded := DecodeAll(records, migrated, legacyDecode);
      if !migrated && |decoded| > 0 {
        SaveAccounts(decoded);
      }
      accounts := SortByOrder(decoded);
    }

    /** `setActiveAccount`: stores the key without looking for the account. */
    method SetActiveAccount(account: Account)
      requires Valid()
      modifies this
      ensures Valid()
      ensures activeKey == Some(account.publicKey)
      ensures records == old(records) && migrated == old(migrated)
      ensures biometricEnabled == old(biometricEnabled) && appPin == old(appPin)
    {
      activeKey := Some(account.publicKey);
    }

    /**
     * `getActiveAccount`: none without a stored key; otherwise the first listed
     * account with that key, or none. Only when a key is stored is the list read
     * (and possibly migrated).
     */
    method GetActiveAccount() returns (active: Option<Account>)
      requires Valid()
      modifies this
      ensures Valid()
      ensures old(activeKey).None? ==> active.None?
      ensures old(activeKey).Some? ==> active == Find(old(Accounts()), old(activeKey).value)
      ensures active.Some? ==> Some(active.value.publicKey) == old(activeKey)
      ensures Loaded() == old(Loaded()) && Accounts() == old(Accounts())
      ensures old(activeKey).Some? && old(NeedsMigration()) ==> records == EncodeAll(old(Loaded())) && migrated
      ensures !(old(activeKey).Some? && old(NeedsMigration())) ==> records == old(records) && migrated == old(migrated)
      ensures activeKey == old(activeKey) && biometricEnabled == old(biometricEnabled) && appPin == old(appPin)
    {
      if activeKey.None? {
        return None;
      }
      var key := activeKey.value;
      var all := GetAccounts();
      active := Find(all, key);
    }

    /**
     * `saveAccount`: the new account gets order max+1 (0 in an empty vault), is
     * appended after every existing account and becomes the active one. A
     * duplicate public key is appended as well; lookups then keep finding the
     * earlier account.
     */
    method SaveAccount(account: Account)
      requires Valid()
      modifies this
      ensures Valid()
      ensures var added := Appended(old(Accounts()), account);
        records == EncodeAll(old(Accounts()) + [added]) && Accounts() == old(Accounts()) + [added]
      ensures old(Accounts()) == [] ==> Accounts() == [account.(order := 0)]
      ensures Dense(old(Accounts())) ==> Dense(Accounts())
      ensures migrated && activeKey == Some(account.publicKey)
      ensures Find(Accounts(), account.publicKey) ==
        if Find(old(Accounts()), account.publicKey).Some? then Find(old(Accounts()), account.publicKey)
        else Some(Appended(old(Accounts()), account))
      ensures biometricEnabled == old(biometricEnabled) && appPin == old(appPin)
    {
      var all := GetAccounts();
      var added := account.(order := NextOrder(all));
      AppendNext(all, account);
      all := all + [added];
      SaveAccounts(all);
      SetActiveAccount(added);
    }

    /**
     * `updateAccount`: the first account with the same public key takes the new
     * fields but keeps its order; without a match nothing is written (only the
     * read itself may have migrated the list).
     */
    method UpdateAccount(account: Account)
      requires Valid()
      modifies this
      ensures Valid()
      ensures var i := IndexOfFirst(old(Accounts()), account.publicKey);
        i != -1 ==>
          var updated := old(Accounts())[i := account.(order := old(Accounts())[i].order)];
          records == EncodeAll(updated) && migrated && Accounts() == updated
      ensures IndexOfFirst(old(Accounts()), account.publicKey) == -1 ==>
        Accounts() == old(Accounts()) &&
        (old(NeedsMigration()) ==> records == EncodeAll(old(Loaded())) && migrated) &&
        (!old(NeedsMigration()) ==> records == old(records) && migrated == old(migrated))
      ensures Dense(old(Accounts())) ==> Dense(Accounts())
      ensures activeKey == old(activeKey) && biometricEnabled == old(biometricEnabled) && appPin == old(appPin)
    {
      var all := GetAccounts();
      var index := IndexOfFirst(all, account.publicKey);
      if index != -1 {
        var original := all[index];
        ReplaceKeepsOrder(all, index, account.(order := original.order));
        all := all[index := account.(order := original.order)];
        SaveAccounts(all);
      }
    }

    /**
     * `removeAccount`: with more than one account, the first account with the
     * key is removed, the survivors are renumbered 0..N-2 in their order, and an
     * active pointer to the removed key moves to the survivor now at the removed
     * index (the last one when the tail was removed). With one account or none,
     * the whole vault is cleared, whatever the target. The key must be present
     * when more than one account is stored (`removeAt(-1)` throws).
     */
    method RemoveAccount(account: Account)
      requires Valid()
      requires |Accounts()| <= 1 || IndexOfFirst(Accounts(), account.publicKey) != -1
      modifies this
      ensures Valid()
      ensures Dense(Accounts())
      ensures |old(Accounts())| <= 1 ==>
        records == [] && !migrated && activeKey.None? && !biometricEnabled && appPin.None?
      ensures |old(Accounts())| > 1 ==>
        var i := IndexOfFirst(old(Accounts()), account.publicKey);
        var survivors := Survivors(old(Accounts()), i);
        records == EncodeAll(survivors) && migrated && Accounts() == survivors &&
        activeKey == (if old(activeKey) == Some(account.publicKey)
                      then Some(survivors[RepairIndex(i, |survivors|)].publicKey)
                      else old(activeKey)) &&
        biometricEnabled == old(biometricEnabled) && appPin == old(appPin)
      ensures |old(Accounts())| > 1 && old(activeKey) == Some(account.publicKey) ==>
        activeKey.Some? && Find(Accounts(), activeKey.value).Some?
    {
      var all := GetAccounts();
      if |all| > 1 {
        var active := GetActiveAccount();
        var wasActive := active.Some? && active.value.publicKey == account.publicKey;
        var removedIndex := IndexOfFirst(all, account.publicKey);
        assert wasActive <==> activeKey == Some(account.publicKey);
        RemoveRenumbers(all, removedIndex);
        ghost var survivors := Survivors(all, removedIndex);
        all := all[..removedIndex] + all[removedIndex + 1..];
        var reordered := Renumber(all);
        assert reordered == survivors;
        SaveAccounts(reordered);
        assert Accounts() == survivors;
        if wasActive {
          var newActiveIndex := if removedIndex >= |reordered| then |reordered| - 1 else removedIndex;
          assert newActiveIndex == RepairIndex(removedIndex, |survivors|);
          SetActiveAccount(reordered[newActiveIndex]);
        }
      } else {
        Clear();
      }
    }

    /** `clear`: wipes the accounts, the active key, the migration flag, the PIN and the biometric flag. */
    method Clear()
      modifies this
      ensures Valid()
      ensures records == [] && Accounts() == [] && !migrated && activeKey.None?
      ensures !biometricEnabled && appPin.None?
    {
      records := [];
      migrated := false;
      activeKey := None;
      biometricEnabled := false;
      appPin := None;
    }
  }

  // Clients of the vault: what callers can conclude from the contracts alone.

  /** Adding to an empty vault gives the account order 0 and makes it active. */
  method AddFirstScenario(legacy: LegacyDecoder, a: Account)
  {
    var store := new Store(legacy, [], false, None, false, None);
    store.SaveAccount(a);
    assert store.Accounts() == [a.(order := 0)];
    assert store.activeKey == Some(a.publicKey);
  }

  /** A vault of A(0), B(1), C(2) with the given active key. */
  method ThreeAccounts(legacy: LegacyDecoder, a: Account, b: Account, c: Account, active: Option<string>)
    returns (store: Store)
    ensures fresh(store) && store.Valid() && store.activeKey == active
    ensures store.Accounts() == [a.(order := 0), b.(order := 1), c.(order := 2)]
  {
    var xs := [a.(order := 0), b.(order := 1), c.(order := 2)];
    store := new Store(legacy, EncodeAll(xs), true, active, false, None);
    RecordsRoundTrip(xs, legacy);
    assert store.Loaded() == xs;
    assert SortedByOrder(xs);
    SortSorted(xs);
  }

  /** Adding to a vault whose largest order is 2 gives order 3 and makes the new account active. */
  method AddScenario(legacy: LegacyDecoder, a: Account, b: Account, c: Account, d: Account)
    requires d.publicKey == "D"
  {
    var store := ThreeAccounts(legacy, a, b, c, Some("A"));
    ghost var xs := store.Accounts();
    DenseNextOrder(xs);
    store.SaveAccount(d);
    assert store.Accounts() == xs + [d.(order := 3)];
    assert store.activeKey == Some("D");
  }

  /** Removing the active middle account B moves the pointer to C, which takes its index. */
  method RemoveActiveScenario(legacy: LegacyDecoder, a: Account, b: Account, c: Account)
    requires a.publicKey == "A" && b.publicKey == "B" && c.publicKey == "C"
  {
    var store := ThreeAccounts(legacy, a, b, c, Some("B"));
    ghost var xs := store.Accounts();
    assert xs[0].publicKey != "B" && xs[1].publicKey == "B";
    assert IndexOfFirst(xs, "B") == 1;
    ghost var survivors := Survivors(xs, 1);
    assert |survivors| == 2 && survivors[0] == a.(order := 0) && survivors[1] == c.(order := 1);
    store.RemoveAccount(b);
    assert store.Accounts() == survivors;
    assert store.activeKey == Some("C");
  }

  /** Removing the only account clears the vault, including the pass-through fields. */
  method RemoveLastScenario(legacy: LegacyDecoder, a: Account)
  {
    var store := new Store(legacy, [], true, None, true, Some("1234"));
    store.SaveAccount(a);
    store.RemoveAccount(a);
    assert store.records == [] && store.activeKey.None? && !store.migrated;
    assert !store.biometricEnabled && store.appPin.None?;
  }

  /** A legacy vault is migrated by the first read only; a bad Base58 key reads as empty. */
  method MigrationScenario(legacy: LegacyDecoder)
    requires legacy("not base58").None?
  {
    var store := new Store(legacy, [AccountDto("not base58", "L", None, 0)], false, None, false, None);
    var first := store.GetAccounts();
    assert store.migrated && first[0].privateKey == [];
    ghost var written := store.records;
    var second := store.GetAccounts();
    assert store.records == written && second == first;
  }
}
