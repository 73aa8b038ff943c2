/** The part of the platform's secure-item API the binding calls, restricted to the
    generic-password class. Every call returns the store after it and an OSStatus. */
module SecItem {
  import opened Codec

  /** All generic-password items, keyed by account. A map holds at most one payload per
      account, which is the uniqueness rule the platform enforces on insertion. */
  type Store = map<string, Bytes>

  const ErrSecSuccess: int := 0
  const ErrSecDuplicateItem: int := -25299
  const ErrSecItemNotFound: int := -25300

  /** The store after a call, and the status the call returned. */
  datatype Outcome = Outcome(store: Store, status: int)

  /** `s` and `t` hold the same item, or no item, under account `a`. */
  ghost predicate SameAt(s: Store, t: Store, a: string) {
    (a in s <==> a in t) && (a in s ==> s[a] == t[a])
  }

  /** `s` and `t` differ at most in the item under `account`. */
  ghost predicate AgreeExcept(s: Store, t: Store, account: string) {
    forall a :: a != account ==> SameAt(s, t, a)
  }

  /** `s` and `t` differ at most in the items under `accounts`. */
  ghost predicate AgreeOutside(s: Store, t: Store, accounts: set<string>) {
    forall a :: a !in accounts ==> SameAt(s, t, a)
  }

  /** Agreement outside a set of accounts composes along a sequence of calls. */
  lemma AgreeOutsideTrans(s: Store, t: Store, u: Store, accounts: set<string>, account: string)
    requires AgreeOutside(s, t, accounts) && AgreeExcept(t, u, account)
    ensures AgreeOutside(s, u, accounts + {account})
  {
    forall a | a !in accounts + {account}
      ensures SameAt(s, u, a)
    {
      assert SameAt(s, t, a) && SameAt(t, u, a);
    }
  }

  /** A store that agrees with `s` outside `accounts` and holds none of them is `s` with
      those accounts removed. */
  lemma AgreeOutsideRemoved(s: Store, t: Store, accounts: set<string>)
    requires AgreeOutside(s, t, accounts)
    requires forall a :: a in accounts ==> a !in t
    ensures t == s - accounts
  {
  }

  /** SecItemAdd: refuses a second item for an account that already has one. */
  function Add(s: Store, account: string, data: Bytes): (r: Outcome)
    ensures account in s ==> r.status == ErrSecDuplicateItem && r.store == s
    ensures account !in s ==>
              && r.status == ErrSecSuccess
              && r.store.Keys == s.Keys + {account}
              && r.store[account] == data
              && |r.store| == |s| + 1
    ensures AgreeExcept(s, r.store, account)
  {
    if account in s then Outcome(s, ErrSecDuplicateItem)
    else Outcome(s[account := data], ErrSecSuccess)
  }

  /** SecItemUpdate: replaces the payload of an existing item; reports not-found otherwise. */
  function Update(s: Store, account: string, data: Bytes): (r: Outcome)
    ensures account !in s ==> r.status == ErrSecItemNotFound && r.store == s
    ensures account in s ==>
              && r.status == ErrSecSuccess
              && r.store.Keys == s.Keys
              && r.store[account] == data
    ensures AgreeExcept(s, r.store, account)
  {
    if account in s then Outcome(s[account := data], ErrSecSuccess)
    else Outcome(s, ErrSecItemNotFound)
  }

  /** SecItemDelete for one account: removing an absent item reports not-found and changes nothing. */
  function Delete(s: Store, account: string): (r: Outcome)
    ensures account !in r.store
    ensures r.store.Keys == s.Keys - {account}
    ensures account in s ==> r.status == ErrSecSuccess && |r.store| == |s| - 1
    ensures account !in s ==> r.status == ErrSecItemNotFound && r.store == s
    ensures AgreeExcept(s, r.store, account)
  {
    if account in s then Outcome(s - {account}, ErrSecSuccess)
    else Outcome(s, ErrSecItemNotFound)
  }

  /** SecItemDelete with only the class in the query: removes every generic password. */
  function DeleteClass(s: Store): (r: Outcome)
    ensures |r.store| == 0
    ensures r.status == ErrSecSuccess <==> |s| > 0
    ensures r.status == ErrSecItemNotFound <==> |s| == 0
  {
    Outcome(map[], if |s| == 0 then ErrSecItemNotFound else ErrSecSuccess)
  }

  /** SecItemCopyMatching for one account with a match limit of one, returning data. */
  function CopyMatching(s: Store, account: string): (r: (int, Option<Bytes>))
    ensures account in s ==> r == (ErrSecSuccess, Some(s[account]))
    ensures account !in s ==> r == (ErrSecItemNotFound, None)
  {
    if account in s then (ErrSecSuccess, Some(s[account])) else (ErrSecItemNotFound, None)
  }

  /** SecItemCopyMatching over the whole class with no match limit, returning every
      item's account and data; reports not-found when the class is empty. */
  function CopyAll(s: Store): (r: (int, set<(string, Bytes)>))
    ensures r.0 == ErrSecSuccess ==> |r.1| == |s| > 0
    ensures r.0 != ErrSecSuccess ==> r.0 == ErrSecItemNotFound && |s| == 0
    ensures forall a, d :: (a, d) in r.1 <==> a in s && s[a] == d
  {
    if |s| == 0 then (ErrSecItemNotFound, {}) else (ErrSecSuccess, s.Items)
  }

  // ---------------------------------------------------------------------------
  // Map identities the binding's proofs use

  lemma RemoveAfterWrite(s: Store, k: string, d: Bytes)
    ensures s[k := d] - {k} == s - {k}
  {
  }

  lemma RemoveTwice(s: Store, k: string)
    ensures (s - {k}) - {k} == s - {k}
  {
  }

  lemma WriteAfterRemove(s: Store, k: string, d: Bytes)
    ensures (s - {k})[k := d] == s[k := d]
  {
  }

  lemma WriteTwice(s: Store, k: string, d1: Bytes, d2: Bytes)
    ensures s[k := d1][k := d2] == s[k := d2]
  {
  }
}
