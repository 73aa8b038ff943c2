/** The store-level helpers the tests use: counting every generic password, and
    deleting them all. */
module KeyChainManager {
  import opened Codec
  import SecItem
  import KeyChain

  type Store = SecItem.Store

  /** `countOfKeyChainItems()`: query every item of the class and count the answers.
      A not-found status and any other failure status both count as zero. */
  function CountOfKeyChainItems(s: Store): (n: int)
    ensures n == |s|
    ensures n == 0 <==> s == map[]
  {
    var (status, items) := SecItem.CopyAll(s);
    if status == SecItem.ErrSecItemNotFound then 0
    else if status != SecItem.ErrSecSuccess then 0
    else |items|
  }

  /** `deleteAll()`: delete with only the class in the query, whatever is stored. */
  function DeleteAll(s: Store): (r: Store)
    ensures CountOfKeyChainItems(r) == 0
    ensures forall a :: a !in r
  {
    SecItem.DeleteClass(s).store
  }

  /** After `deleteAll()` every binding, on every account and of every value type, reads
      absent, and deleting all again changes nothing. */
  lemma DeleteAllReadsAbsent<U>(b: KeyChain.Binding<U>, s: Store)
    ensures KeyChain.Get(b, DeleteAll(s)) == None
    ensures DeleteAll(DeleteAll(s)) == DeleteAll(s)
  {
  }

  /** How each write through a binding moves the count: a write adds one exactly when the
      account had no item, a delete removes one exactly when it had one. */
  lemma CountAfterSet<U>(b: KeyChain.Binding<U>, s: Store, newValue: Option<U>)
    ensures newValue.Some? ==>
              CountOfKeyChainItems(KeyChain.Set(b, s, newValue)) ==
              CountOfKeyChainItems(s) + (if b.account in s then 0 else 1)
    ensures newValue.None? ==>
              CountOfKeyChainItems(KeyChain.Set(b, s, newValue)) ==
              CountOfKeyChainItems(s) - (if b.account in s then 1 else 0)
  {
  }
}
