/** The `KeyChain<T, U>` property wrapper as an explicit handle: a binding names one
    account and a codec, and every operation is a function from the store before it to
    the store after it. The binding keeps no state of its own; the store is the truth. */
module KeyChain {
  import opened Codec
  import SecItem

  type Store = SecItem.Store

  /** A declared binding: the account is the key's raw value, the only use the wrapper
      makes of its key. */
  datatype Binding<!U> = Binding(account: string, codec: Codec<U>)

  // ---------------------------------------------------------------------------
  // The wrapper's private primitives

  /** `read()`: fetch the one item for the account and decode it. A missing item and an
      undecodable payload both come back absent. */
  function Read<U>(b: Binding<U>, s: Store): (r: Option<U>)
    ensures b.account !in s ==> r == None
    ensures b.account in s ==> r == b.codec.decode(s[b.account])
  {
    match SecItem.CopyMatching(s, b.account).1
    case None => None
    case Some(data) => b.codec.decode(data)
  }

  /** `save(value:)`: delete the account's item, then add the encoded value. Because the
      delete comes first, the add never meets a duplicate, and the result is an upsert. */
  function Save<U>(b: Binding<U>, s: Store, v: U): (r: SecItem.Outcome)
    ensures r.status == SecItem.ErrSecSuccess
    ensures b.account in r.store && r.store[b.account] == b.codec.encode(v)
    ensures r.store.Keys == s.Keys + {b.account}
    ensures SecItem.AgreeExcept(s, r.store, b.account)
  {
    var cleared := SecItem.Delete(s, b.account).store;
    SecItem.Add(cleared, b.account, b.codec.encode(v))
  }

  /** `update(value:)`: replace the payload of the account's existing item. */
  function Update<U>(b: Binding<U>, s: Store, v: U): (r: SecItem.Outcome)
    ensures r.store.Keys == s.Keys
    ensures b.account in s ==> r.status == SecItem.ErrSecSuccess && r.store[b.account] == b.codec.encode(v)
    ensures b.account !in s ==> r.status == SecItem.ErrSecItemNotFound && r.store == s
    ensures SecItem.AgreeExcept(s, r.store, b.account)
  {
    SecItem.Update(s, b.account, b.codec.encode(v))
  }

  /** `delete()`: remove the account's item, if there is one. */
  function Delete<U>(b: Binding<U>, s: Store): (r: SecItem.Outcome)
    ensures b.account !in r.store
    ensures r.store.Keys == s.Keys - {b.account}
    ensures SecItem.AgreeExcept(s, r.store, b.account)
  {
    SecItem.Delete(s, b.account)
  }

  // ---------------------------------------------------------------------------
  // The wrapped value

  /** The getter: a fresh read on every access. */
  function Get<U>(b: Binding<U>, s: Store): (r: Option<U>)
    ensures r.None? <==> b.account !in s || b.codec.decode(s[b.account]).None?
    ensures r.Some? ==> Some(r.value) == b.codec.decode(s[b.account])
  {
    Read(b, s)
  }

  /** The setter. Absent deletes; a present value is routed to `update` when the current
      item decodes and to `save` otherwise. Whatever the route, the effect is an upsert of
      the encoded value under the account and nothing else. */
  function Set<U>(b: Binding<U>, s: Store, newValue: Option<U>): (r: Store)
    ensures newValue.None? ==> r == s - {b.account}
    ensures newValue.Some? ==> r == s[b.account := b.codec.encode(newValue.value)]
    ensures SecItem.AgreeExcept(s, r, b.account)
    ensures newValue.None? ==> |r| == if b.account in s then |s| - 1 else |s|
    ensures newValue.Some? ==> |r| == if b.account in s then |s| else |s| + 1
  {
    match newValue
    case None => Delete(b, s).store
    case Some(v) =>
      if Read(b, s).Some? then Update(b, s, v).store else Save(b, s, v).store
  }

  /** `init(wrappedValue:key:)` as written: save the initial value if there is one, then
      assign `read()` to the wrapped value. In a class the assignment runs the setter, so
      the value just read is written back: re-encoded when present, deleted when absent. */
  function Init<U(!new)>(b: Binding<U>, initialValue: Option<U>, s: Store): (r: Store)
    ensures SecItem.AgreeExcept(s, r, b.account)
  {
    var primed := if initialValue.Some? then Save(b, s, initialValue.value).store else s;
    Set(b, primed, Read(b, primed))
  }

  /** Construction as evidently intended: save the initial value if there is one, and
      otherwise leave the store alone; the binding only reads. */
  function InitReadOnly<U(!new)>(b: Binding<U>, initialValue: Option<U>, s: Store): (r: Store)
    ensures initialValue.None? ==> r == s
    ensures initialValue.Some? ==> r == s[b.account := b.codec.encode(initialValue.value)]
    ensures Lawful(b.codec) ==> Get(b, r) == if initialValue.Some? then initialValue else Get(b, s)
  {
    if initialValue.Some? then Save(b, s, initialValue.value).store else s
  }

  // ---------------------------------------------------------------------------
  // Construction

  /** With an initial value, construction overwrites whatever the account held and the
      binding then reads exactly that value. */
  lemma InitWithValue<U(!new)>(b: Binding<U>, v: U, s: Store)
    requires Lawful(b.codec)
    ensures Init(b, Some(v), s) == s[b.account := b.codec.encode(v)]
    ensures Get(b, Init(b, Some(v), s)) == Some(v)
  {
    var primed := Save(b, s, v).store;
    assert Read(b, primed) == Some(v);
  }

  /** Without an initial value, construction writes back what it read: the re-encoded
      value when the item decodes, a delete when it is missing or does not decode. What
      the binding reads is the same before and after. */
  lemma InitWithoutValue<U(!new)>(b: Binding<U>, s: Store)
    ensures Get(b, s).Some? ==> Init(b, None, s) == s[b.account := b.codec.encode(Get(b, s).value)]
    ensures Get(b, s).None? ==> Init(b, None, s) == s - {b.account}
    ensures Lawful(b.codec) ==> Get(b, Init(b, None, s)) == Get(b, s)
  {
  }

  /** The write-back in construction erases an item whose payload the binding's codec
      cannot decode, for instance one stored through a binding of another value type. */
  lemma InitErasesUndecodable<U(!new)>(b: Binding<U>, s: Store)
    requires b.account in s && b.codec.decode(s[b.account]).None?
    ensures b.account !in Init(b, None, s)
    ensures |Init(b, None, s)| == |s| - 1
    ensures Init(b, None, s) != InitReadOnly(b, None, s)
  {
    InitWithoutValue(b, s);
  }

  /** Construction as written and as intended leave the same store exactly when an initial
      value is given, or the account has no item, or its payload is the canonical encoding
      of the value it decodes to. */
  lemma InitAgreesWithReadOnly<U(!new)>(b: Binding<U>, initialValue: Option<U>, s: Store)
    requires Lawful(b.codec)
    ensures Init(b, initialValue, s) == InitReadOnly(b, initialValue, s) <==>
              || initialValue.Some?
              || b.account !in s
              || (Get(b, s).Some? && b.codec.encode(Get(b, s).value) == s[b.account])
  {
    if initialValue.Some? {
      InitWithValue(b, initialValue.value, s);
    } else {
      InitWithoutValue(b, s);
      if b.account in s && Get(b, s).Some? {
        var written := Init(b, initialValue, s);
        assert written[b.account] == b.codec.encode(Get(b, s).value);
      }
    }
  }

  // ---------------------------------------------------------------------------
  // Reading after writing

  /** Round trip: after setting a value, the binding reads it back. */
  lemma SetThenGet<U(!new)>(b: Binding<U>, s: Store, v: U)
    requires Lawful(b.codec)
    ensures Get(b, Set(b, s, Some(v))) == Some(v)
  {
  }

  /** After setting absent, the binding reads absent, and nothing is left under its account. */
  lemma SetNoneThenGet<U>(b: Binding<U>, s: Store)
    ensures Get(b, Set(b, s, None)) == None
    ensures b.account !in Set(b, s, None)
  {
  }

  /** Deleting an account that has no item changes nothing, so deleting twice is deleting once. */
  lemma DeleteIsIdempotent<U>(b: Binding<U>, s: Store)
    ensures b.account !in s ==> Set(b, s, None) == s
    ensures Set(b, Set(b, s, None), None) == Set(b, s, None)
  {
  }

  /** Of two writes through a binding, only the second is observable: an overwrite keeps
      only the latest value, and a delete after a write leaves no trace of the write. */
  lemma SecondWriteWins<U>(b: Binding<U>, s: Store, first: Option<U>, second: Option<U>)
    ensures Set(b, Set(b, s, first), second) == Set(b, s, second)
  {
    var k := b.account;
    var written := Set(b, s, first);
    assert written - {k} == s - {k} by {
      if first.Some? {
        SecItem.RemoveAfterWrite(s, k, b.codec.encode(first.value));
      } else {
        SecItem.RemoveTwice(s, k);
      }
    }
    if second.Some? {
      var data := b.codec.encode(second.value);
      if first.Some? {
        SecItem.WriteTwice(s, k, b.codec.encode(first.value), data);
      } else {
        SecItem.WriteAfterRemove(s, k, data);
      }
    }
  }

  /** The update route is taken only when the item exists, so SecItemUpdate never reports
      not-found from the setter, and the count does not change on that route. */
  lemma UpdateRouteFindsItem<U>(b: Binding<U>, s: Store, v: U)
    requires Read(b, s).Some?
    ensures Update(b, s, v).status == SecItem.ErrSecSuccess
    ensures |Set(b, s, Some(v))| == |s|
  {
  }

  // ---------------------------------------------------------------------------
  // Several bindings over one store

  /** Writing through one binding does not change what a binding on another account reads. */
  lemma SetIsolation<U, V>(b1: Binding<U>, b2: Binding<V>, s: Store, newValue: Option<U>)
    requires b1.account != b2.account
    ensures Get(b2, Set(b1, s, newValue)) == Get(b2, s)
  {
  }

  /** Two bindings on one account share its item: the second reads what the first wrote,
      decoded with its own codec, and reads absent after the first deletes. */
  lemma SharedAccount<U, V>(b1: Binding<U>, b2: Binding<V>, s: Store, newValue: Option<U>)
    requires b1.account == b2.account
    ensures newValue.Some? ==> Get(b2, Set(b1, s, newValue)) == b2.codec.decode(b1.codec.encode(newValue.value))
    ensures newValue.None? ==> Get(b2, Set(b1, s, newValue)) == None
  {
  }

  /** In particular, two bindings on one account with the same codec read the same value
      after a write through either. */
  lemma SharedAccountSameCodec<U(!new)>(b1: Binding<U>, b2: Binding<U>, s: Store, newValue: Option<U>)
    requires b1.account == b2.account && b1.codec == b2.codec && Lawful(b1.codec)
    ensures Get(b2, Set(b1, s, newValue)) == newValue
    ensures Get(b1, Set(b2, s, newValue)) == newValue
  {
    SharedAccount(b1, b2, s, newValue);
    SharedAccount(b2, b1, s, newValue);
  }
}
