/**
  `Array_Prototype`: a non-persistent, in-memory key/value pool held in one
  private PHP array.

  The pool is a finite map from string keys to PHP values. Each public
  method is a function from the pool before the call (and the call's
  arguments) to a `Step`: the value the method returns and the pool after
  it. Reads return the pool they were given.
 */
module ArrayStore {
  import opened Identifier

  /** A PHP value as the pool sees it: `null`, or any other value. */
  datatype Mixed<T> = Null | Val(value: T)

  /** The private `$data` array. */
  type Pool<T> = map<string, Mixed<T>>

  /** What a method returns, together with the pool after the call. */
  datatype Step<R, T> = Step(result: R, data: Pool<T>)

  /** The return value of `store()`: the new key, or PHP's `false`. */
  datatype KeyOrFalse = Key(id: string) | False

  /** A fresh object starts with an empty pool. */
  function Empty<T>(): (data: Pool<T>)
    ensures forall key :: key !in data
  {
    map[]
  }

  /** `exists()`: `array_key_exists` on the pool. */
  function Exists<T>(data: Pool<T>, key: string): (r: Step<bool, T>)
    ensures r.data == data
    ensures r.result <==> key in data
  {
    Step(key in data, data)
  }

  /** `get()`: the stored value, or `null` when the key is absent. */
  function Get<T>(data: Pool<T>, key: string): (r: Step<Mixed<T>, T>)
    ensures r.data == data
    ensures key in data ==> r.result == data[key]
    ensures key !in data ==> r.result == Null
  {
    if Exists(data, key).result then Step(data[key], data) else Step(Null, data)
  }

  /** `set()`: insert or overwrite; always returns `true`. */
  function Set<T>(data: Pool<T>, key: string, v: Mixed<T>): (r: Step<bool, T>)
    ensures r.result
    ensures r.data.Keys == data.Keys + {key}
    ensures r.data[key] == v
    ensures forall k :: k in data && k != key ==> r.data[k] == data[k]
  {
    Step(true, data[key := v])
  }

  /** `add()`: insert only when the key is absent; never overwrites. */
  function Add<T>(data: Pool<T>, key: string, v: Mixed<T>): (r: Step<bool, T>)
    ensures r.result <==> key !in data
    ensures r.result ==> r.data == data[key := v]
    ensures !r.result ==> r.data == data
  {
    if Exists(data, key).result then Step(false, data) else Set(data, key, v)
  }

  /** `replace()`: overwrite only when the key is present; never inserts. */
  function Replace<T>(data: Pool<T>, key: string, v: Mixed<T>): (r: Step<bool, T>)
    ensures r.result <==> key in data
    ensures r.data.Keys == data.Keys
    ensures key in data ==> r.data[key] == v
    ensures forall k :: k in data && k != key ==> r.data[k] == data[k]
  {
    if key !in data then Step(false, data) else Set(data, key, v)
  }

  /** `delete()`: remove the key when present. */
  function Delete<T>(data: Pool<T>, key: string): (r: Step<bool, T>)
    ensures r.result <==> key in data
    ensures r.data.Keys == data.Keys - {key}
    ensures forall k :: k in r.data ==> r.data[k] == data[k]
  {
    if !Exists(data, key).result then Step(false, data) else Step(true, data - {key})
  }

  /**
    `store()`: add the value under the identifier `uuid()` makes from the
    draws `d`; on a collision return `false` without trying another key.
   */
  function Store<T>(data: Pool<T>, v: Mixed<T>, d: Draws): (r: Step<KeyOrFalse, T>)
    requires InRange(d)
    ensures r.result.Key? <==> Uuid(d) !in data
    ensures r.result.Key? ==> r.result.id == Uuid(d) && IsUuidText(r.result.id)
    ensures r.result.Key? ==> r.data == data[r.result.id := v]
    ensures r.result.False? ==> r.data == data
  {
    var key := Uuid(d);
    var added := Add(data, key, v);
    if added.result then Step(Key(key), added.data) else Step(False, added.data)
  }

  // Laws relating the operations to one another.

  /** A fresh pool has no keys and reads `null` everywhere. */
  lemma EmptyReads<T>(key: string)
    ensures !Exists(Empty<T>(), key).result
    ensures Get(Empty<T>(), key).result == Null
  {
  }

  /** A non-null read proves presence, and presence makes the read the stored value. */
  lemma GetAgreesWithExists<T>(data: Pool<T>, key: string)
    ensures Get(data, key).result.Val? ==> Exists(data, key).result
    ensures Exists(data, key).result ==> Get(data, key).result == data[key]
  {
  }

  /**
    `get()` cannot tell an absent key from a key holding `null`; only
    `exists()` can.
   */
  lemma NullIsAmbiguous<T>(data: Pool<T>, key: string)
    ensures Get(Set(data, key, Null).data, key).result == Get(Delete(data, key).data, key).result
    ensures Exists(Set(data, key, Null).data, key).result
    ensures !Exists(Delete(data, key).data, key).result
  {
  }

  /** Read after `set()`: the key reads back the value; every other key reads as before. */
  lemma ReadAfterSet<T>(data: Pool<T>, key: string, v: Mixed<T>, other: string)
    requires other != key
    ensures Exists(Set(data, key, v).data, key).result
    ensures Get(Set(data, key, v).data, key).result == v
    ensures Get(Set(data, key, v).data, other).result == Get(data, other).result
    ensures Exists(Set(data, key, v).data, other).result == Exists(data, other).result
  {
  }

  /** On an absent key `add()` is `set()`; on a present key `replace()` is `set()`. */
  lemma AddReplaceAreGuardedSet<T>(data: Pool<T>, key: string, v: Mixed<T>)
    ensures key !in data ==> Add(data, key, v) == Set(data, key, v)
    ensures key in data ==> Replace(data, key, v) == Set(data, key, v)
    ensures key in data ==> Add(data, key, v) == Step(false, data)
    ensures key !in data ==> Replace(data, key, v) == Step(false, data)
  {
  }

  /** A second `add()` of the same key fails and the first value stays. */
  lemma AddTwice<T>(data: Pool<T>, key: string, v1: Mixed<T>, v2: Mixed<T>)
    requires key !in data
    ensures Add(data, key, v1).result
    ensures !Add(Add(data, key, v1).data, key, v2).result
    ensures Add(Add(data, key, v1).data, key, v2).data == Add(data, key, v1).data
    ensures Get(Add(Add(data, key, v1).data, key, v2).data, key).result == v1
  {
  }

  /** `replace()` on an absent key does not create it. */
  lemma ReplaceDoesNotCreate<T>(data: Pool<T>, key: string, v: Mixed<T>)
    requires key !in data
    ensures !Exists(Replace(data, key, v).data, key).result
  {
  }

  /** `delete()` undoes a successful `add()`. */
  lemma DeleteUndoesAdd<T>(data: Pool<T>, key: string, v: Mixed<T>)
    requires key !in data
    ensures Delete(Add(data, key, v).data, key) == Step(true, data)
  {
  }

  /** A second `delete()` of the same key returns `false` and changes nothing. */
  lemma DeleteTwice<T>(data: Pool<T>, key: string)
    ensures !Exists(Delete(data, key).data, key).result
    ensures Delete(Delete(data, key).data, key) == Step(false, Delete(data, key).data)
  {
  }

  /** `store()` is `add()` under the generated key, and its key reads back the value. */
  lemma StoreIsAdd<T>(data: Pool<T>, v: Mixed<T>, d: Draws)
    requires InRange(d)
    ensures Store(data, v, d).data == Add(data, Uuid(d), v).data
    ensures Store(data, v, d).result.Key? ==> Get(Store(data, v, d).data, Uuid(d)).result == v
  {
  }

  /**
    Two `store()` calls on the same pool give different keys unless the
    eight draws repeat exactly.
   */
  lemma StoreKeysDiffer<T>(data: Pool<T>, v1: Mixed<T>, v2: Mixed<T>, d1: Draws, d2: Draws)
    requires InRange(d1) && InRange(d2) && d1 != d2
    requires Store(data, v1, d1).result.Key? && Store(data, v2, d2).result.Key?
    ensures Store(data, v1, d1).result.id != Store(data, v2, d2).result.id
  {
    UuidInjective(d1, d2);
  }

  /**
    `store()` after a successful `store()`: with the same draws the key is
    taken, so the call returns `false` and changes nothing (no second key is
    tried); with other draws it succeeds exactly when its key was absent
    before both calls.
   */
  lemma StoreAfterStore<T>(data: Pool<T>, v1: Mixed<T>, v2: Mixed<T>, d1: Draws, d2: Draws)
    requires InRange(d1) && InRange(d2)
    requires Store(data, v1, d1).result.Key?
    ensures var p := Store(data, v1, d1).data;
      Store(p, v2, d1) == Step(False, p)
    ensures var p := Store(data, v1, d1).data;
      Store(p, v2, d2).result.Key? <==> d2 != d1 && Uuid(d2) !in data
  {
    UuidInjective(d1, d2);
  }

  /** The session `add a 1; add a 2; get a; replace a 2; get a; delete a; exists a`. */
  lemma Session()
    ensures var p0 := Empty<int>();
      var s1 := Add(p0, "a", Val(1));
      var s2 := Add(s1.data, "a", Val(2));
      var s3 := Replace(s2.data, "a", Val(2));
      var s4 := Delete(s3.data, "a");
      && s1.result && !s2.result
      && Get(s2.data, "a").result == Val(1)
      && s3.result
      && Get(s3.data, "a").result == Val(2)
      && s4.result
      && !Exists(s4.data, "a").result
  {
  }
}
