/** The repository's test scenarios, each replayed over the model from an arbitrary
    starting store: the test's key enumeration, its model type, and one lemma per test
    stating what the test asserts (and, where it follows, a little more). */
module KeyChainTests {
  import opened Codec
  import SecItem
  import JsonInt
  import opened KeyChain
  import KeyChainManager

  /** The tests' key type; its raw value is the case name. */
  datatype TestKey = TestKey1 | TestKey2 | NonExistentKey | StringKey | IntKey | DoubleKey

  function RawValue(k: TestKey): string {
    match k
    case TestKey1 => "testKey1"
    case TestKey2 => "testKey2"
    case NonExistentKey => "nonExistentKey"
    case StringKey => "stringKey"
    case IntKey => "intKey"
    case DoubleKey => "doubleKey"
  }

  /** The tests' record type. */
  datatype TestModel = TestModel(name: string, age: int)

  /** The binding a test declares with `@KeyChain(key: k)`. */
  function Bind<U>(k: TestKey, c: Codec<U>): Binding<U> {
    Binding(RawValue(k), c)
  }

  /** Distinct keys name distinct accounts, so bindings on them are isolated. */
  lemma RawValueInjective(k1: TestKey, k2: TestKey)
    ensures k1 != k2 ==> RawValue(k1) != RawValue(k2)
  {
    if k1 != k2 {
      var r1, r2 := RawValue(k1), RawValue(k2);
      if |r1| == |r2| {
        assert r1[0] != r2[0] || r1[|r1| - 1] != r2[|r2| - 1];
      }
    }
  }

  /** `testKeyChainSaveAndRead`: values written through bindings on two keys each read back. */
  lemma SaveAndRead(c: Codec<TestModel>, s0: Store)
    requires Lawful(c)
    ensures
      var b1, b2 := Bind(TestKey1, c), Bind(TestKey2, c);
      var s1 := Init(b1, None, s0);
      var s2 := Init(b2, None, s1);
      var s3 := Set(b1, s2, Some(TestModel("Bob", 28)));
      var s4 := Set(b2, s3, Some(TestModel("Eve", 35)));
      && Get(b1, s3) == Some(TestModel("Bob", 28))
      && Get(b2, s4) == Some(TestModel("Eve", 35))
      && Get(b1, s4) == Some(TestModel("Bob", 28))
  {
    var b1, b2 := Bind(TestKey1, c), Bind(TestKey2, c);
    RawValueInjective(TestKey1, TestKey2);
    var s1 := Init(b1, None, s0);
    var s2 := Init(b2, None, s1);
    var s3 := Set(b1, s2, Some(TestModel("Bob", 28)));
    SetThenGet(b1, s2, TestModel("Bob", 28));
    SetThenGet(b2, s3, TestModel("Eve", 35));
    SetIsolation(b2, b1, s3, Some(TestModel("Eve", 35)));
  }

  /** `testKeyChainSaveAndRead2`: a binding declared later on the same key reads the value
      written through the earlier one. */
  lemma SaveAndReadShared(c: Codec<TestModel>, s0: Store)
    requires Lawful(c)
    ensures
      var b1, b3 := Bind(TestKey1, c), Bind(TestKey1, c);
      var s1 := Init(b1, None, s0);
      var s2 := Set(b1, s1, Some(TestModel("Bob", 28)));
      var s3 := Init(b3, None, s2);
      Get(b3, s3) == Some(TestModel("Bob", 28))
  {
    var b1 := Bind(TestKey1, c);
    var s1 := Init(b1, None, s0);
    SetThenGet(b1, s1, TestModel("Bob", 28));
    InitWithoutValue(b1, Set(b1, s1, Some(TestModel("Bob", 28))));
  }

  /** `testKeyChainDelete`: a value written and then set to absent reads absent. */
  lemma DeleteAfterWrite(c: Codec<TestModel>, s0: Store)
    ensures
      var b1 := Bind(TestKey1, c);
      var s1 := Init(b1, None, s0);
      var s2 := Set(b1, s1, Some(TestModel("Charlie", 32)));
      var s3 := Set(b1, s2, None);
      Get(b1, s3) == None
  {
  }

  /** `testKeyChainDelete2`: writing to two keys and deleting both leaves both absent and
      removes both items, so from an empty store the count is back to zero. */
  lemma DeleteTwoKeys(c: Codec<TestModel>, s0: Store)
    ensures
      var b1, b2 := Bind(TestKey1, c), Bind(TestKey2, c);
      var s1 := Init(b1, None, s0);
      var s2 := Init(b2, None, s1);
      var s3 := Set(b1, s2, Some(TestModel("David", 27)));
      var s4 := Set(b2, s3, Some(TestModel("Grace", 40)));
      var s5 := Set(b1, s4, None);
      var s6 := Set(b2, s5, None);
      && Get(b1, s6) == None
      && Get(b2, s6) == None
      && s6 == s0 - {RawValue(TestKey1), RawValue(TestKey2)}
      && (s0 == map[] ==> KeyChainManager.CountOfKeyChainItems(s6) == 0)
  {
    var b1, b2 := Bind(TestKey1, c), Bind(TestKey2, c);
    var k1, k2 := RawValue(TestKey1), RawValue(TestKey2);
    var s1 := Init(b1, None, s0);
    var s2 := Init(b2, None, s1);
    var s3 := Set(b1, s2, Some(TestModel("David", 27)));
    var s4 := Set(b2, s3, Some(TestModel("Grace", 40)));
    var s5 := Set(b1, s4, None);
    var s6 := Set(b2, s5, None);
    SetNoneThenGet(b2, s5);
    RawValueInjective(TestKey1, TestKey2);
    SetIsolation(b2, b1, s5, None);
    SetNoneThenGet(b1, s4);
    ErasedPair(s0, s1, s2, s3, s4, s5, s6, k1, k2);
  }

  /** Six calls that alternate between two accounts, each touching only its own, and leave
      neither account with an item, amount to removing both accounts. */
  lemma ErasedPair(s0: Store, s1: Store, s2: Store, s3: Store, s4: Store, s5: Store, s6: Store, k1: string, k2: string)
    requires SecItem.AgreeExcept(s0, s1, k1) && SecItem.AgreeExcept(s1, s2, k2)
    requires SecItem.AgreeExcept(s2, s3, k1) && SecItem.AgreeExcept(s3, s4, k2)
    requires SecItem.AgreeExcept(s4, s5, k1) && SecItem.AgreeExcept(s5, s6, k2)
    requires k1 !in s6 && k2 !in s6
    ensures s6 == s0 - {k1, k2}
  {
    assert SecItem.AgreeOutside(s0, s1, {k1});
    SecItem.AgreeOutsideTrans(s0, s1, s2, {k1}, k2);
    assert {k1} + {k2} == {k1, k2} == {k1, k2} + {k1} == {k1, k2} + {k2};
    SecItem.AgreeOutsideTrans(s0, s2, s3, {k1, k2}, k1);
    SecItem.AgreeOutsideTrans(s0, s3, s4, {k1, k2}, k2);
    SecItem.AgreeOutsideTrans(s0, s4, s5, {k1, k2}, k1);
    SecItem.AgreeOutsideTrans(s0, s5, s6, {k1, k2}, k2);
    SecItem.AgreeOutsideRemoved(s0, s6, {k1, k2});
  }

  /** `testKeyChainDeleteAll`: after `deleteAll()` both bindings read absent. */
  lemma DeleteAllScenario(c: Codec<TestModel>, s0: Store)
    ensures
      var b1, b2 := Bind(TestKey1, c), Bind(TestKey2, c);
      var s1 := Init(b1, None, s0);
      var s2 := Init(b2, None, s1);
      var s3 := Set(b1, s2, Some(TestModel("David", 27)));
      var s4 := Set(b2, s3, Some(TestModel("Grace", 40)));
      var s5 := KeyChainManager.DeleteAll(s4);
      Get(b1, s5) == None && Get(b2, s5) == None && KeyChainManager.CountOfKeyChainItems(s5) == 0
  {
  }

  /** `testStringKeyChainSaveAndRead`: a binding declared with "123" reads the value later
      written through it. */
  lemma StringSaveAndRead(c: Codec<string>, s0: Store)
    requires Lawful(c)
    ensures
      var b := Bind(StringKey, c);
      var s1 := Init(b, Some("123"), s0);
      var s2 := Set(b, s1, Some("NewStringValue"));
      Get(b, s1) == Some("123") && Get(b, s2) == Some("NewStringValue")
  {
    var b := Bind(StringKey, c);
    InitWithValue(b, "123", s0);
  }

  /** `testIntKeyChainSaveAndRead`, with the JSON integer codec: 100 is stored as the bytes
      of "100" and reads back as 100. */
  lemma IntSaveAndRead(s0: Store)
    ensures
      var b := Bind(IntKey, JsonInt.IntCodec);
      var s1 := Init(b, None, s0);
      var s2 := Set(b, s1, Some(100 as JsonInt.Int64));
      && Get(b, s2) == Some(100 as JsonInt.Int64)
      && "intKey" in s2 && s2["intKey"] == [0x31, 0x30, 0x30]
  {
    var b := Bind(IntKey, JsonInt.IntCodec);
    JsonInt.IntCodecLawful();
    var s1 := Init(b, None, s0);
    SetThenGet(b, s1, 100 as JsonInt.Int64);
    EncodeHundred();
  }

  /** The JSON encoding of 100 is the three bytes of "100". */
  lemma EncodeHundred()
    ensures JsonInt.IntCodec.encode(100 as JsonInt.Int64) == [0x31, 0x30, 0x30]
  {
    var one := JsonInt.Digits(1);
    assert one == [0x31];
    var ten := JsonInt.Digits(10);
    assert ten == one + [JsonInt.DigitOf(0)] == [0x31, 0x30];
    assert JsonInt.Digits(100) == ten + [JsonInt.DigitOf(0)];
  }

  /** `testKeyChainDelete3`, without its floating-point binding: a later binding declared
      on the string key with "123" overwrites the stored string, and after both keys are
      set to absent every binding on them reads absent. */
  lemma DeleteThroughEitherBinding(c: Codec<string>, s0: Store)
    requires Lawful(c)
    ensures
      var sb, ib, sb2 := Bind(StringKey, c), Bind(IntKey, JsonInt.IntCodec), Bind(StringKey, c);
      var s1 := Init(sb, Some("123"), s0);
      var s2 := Init(ib, Some(111 as JsonInt.Int64), s1);
      var s3 := Set(sb, s2, Some("DeleteMeString"));
      var s4 := Set(ib, s3, Some(123 as JsonInt.Int64));
      var s5 := Init(sb2, Some("123"), s4);
      var s6 := Set(sb, s5, None);
      var s7 := Set(ib, s6, None);
      && Get(sb, s4) == Some("DeleteMeString")
      && Get(ib, s4) == Some(123 as JsonInt.Int64)
      && Get(sb, s5) == Some("123")
      && Get(sb, s7) == None
      && Get(sb2, s7) == None
      && Get(ib, s7) == None
  {
    var sb, ib := Bind(StringKey, c), Bind(IntKey, JsonInt.IntCodec);
    JsonInt.IntCodecLawful();
    RawValueInjective(StringKey, IntKey);
    var s1 := Init(sb, Some("123"), s0);
    var s2 := Init(ib, Some(111 as JsonInt.Int64), s1);
    var s3 := Set(sb, s2, Some("DeleteMeString"));
    var s4 := Set(ib, s3, Some(123 as JsonInt.Int64));
    SetThenGet(sb, s2, "DeleteMeString");
    SetIsolation(ib, sb, s3, Some(123 as JsonInt.Int64));
    SetThenGet(ib, s3, 123 as JsonInt.Int64);
    InitWithValue(sb, "123", s4);
    var s5 := Init(sb, Some("123"), s4);
    var s6 := Set(sb, s5, None);
    SetIsolation(ib, sb, s6, None);
  }

  /** The construction write-back on a foreign payload: an `Int` binding declared on the
      string key, whose item holds the JSON string "123", deletes that item. */
  lemma InitErasesForeignPayload()
    ensures
      var b := Bind(StringKey, JsonInt.IntCodec);
      var s := map["stringKey" := [0x22, 0x31, 0x32, 0x33, 0x22]];
      Init(b, None, s) == map[] && InitReadOnly(b, None, s) == s
  {
    var b := Bind(StringKey, JsonInt.IntCodec);
    var s: Store := map["stringKey" := [0x22, 0x31, 0x32, 0x33, 0x22]];
    assert JsonInt.Decode(s["stringKey"]) == None;
    InitErasesUndecodable(b, s);
  }
}
