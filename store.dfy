/**
 * The key-value store of `redis.rs`: two maps keyed by the same keys, one
 * holding the values and one holding when each key was written and when it
 * expires, plus the initialise / get_store / reset lifecycle of the
 * process-wide instance.
 *
 * Wall-clock time is a parameter `now`, in milliseconds.
 */
module Store {
  import opened Wrappers
  import opened Text

  // ---------------------------------------------------------------------
  // Values and metadata (redis_data_structure.rs)
  // ---------------------------------------------------------------------

  datatype LinkedList = LinkedList(head: LinkedListNode)
  datatype LinkedListNode = LinkedListNode(data: Bytes, next: Option<LinkedList>)

  /** A stored value: a string, or a list (which no operation here creates). */
  datatype DataType = String(s: Bytes) | List(list: LinkedList)

  /** When a key was written and, if it expires, when. */
  datatype DateTimeMeta = DateTimeMeta(createdAt: int, expireAt: Option<int>)

  /** The optional arguments of `set`: an expiry in milliseconds. */
  datatype SetOptionalArgs = SetOptionalArgs(expireInMs: Option<u64>)

  const TWO_TO_63: int := 0x8000_0000_0000_0000
  const TWO_TO_64: int := 0x1_0000_0000_0000_0000

  /**
   * Rust's `x as i64` on a `u64`: the same 64 bits read as two's complement,
   * so values from 2^63 up become negative.
   */
  function AsI64(x: u64): (r: i64)
    ensures (x as int - r as int) % TWO_TO_64 == 0
    ensures r >= 0 <==> x as int < TWO_TO_63
  {
    if x as int < TWO_TO_63 then x as int as i64 else (x as int - TWO_TO_64) as i64
  }

  /** A duration below 2^63 milliseconds keeps its value. */
  lemma AsI64Small(x: u64)
    requires x as int < TWO_TO_63
    ensures AsI64(x) as int == x as int
  {
    var r := AsI64(x);
    assert (x as int - r as int) % TWO_TO_64 == 0;
    assert -TWO_TO_64 < x as int - r as int < TWO_TO_64;
  }

  /**
   * The instants a chrono `DateTime<Utc>` can hold, in milliseconds since
   * the epoch: from the first millisecond of year -262144 to the last
   * millisecond of year 262143 (proleptic Gregorian calendar).
   */
  const MIN_TIME_MS: int := -8_334_632_937_600_000
  const MAX_TIME_MS: int := 8_210_298_412_799_999

  predicate InDateRange(t: int) {
    MIN_TIME_MS <= t <= MAX_TIME_MS
  }

  /**
   * `checked_add_signed` of a duration of `ms` milliseconds: the later (or
   * earlier) instant, or `None` when it falls outside the date range.
   */
  function CheckedAddMs(t: int, ms: i64): (r: Option<int>)
    ensures r.Some? <==> InDateRange(t + ms as int)
    ensures r.Some? ==> r.value - t == ms as int
  {
    if InDateRange(t + ms as int) then Some(t + ms as int) else None
  }

  /**
   * The metadata `set` writes: created now, and expiring `ms` milliseconds
   * later exactly when an expiry was given and that instant exists.
   */
  function MetaFor(opt: Option<SetOptionalArgs>, now: int): (m: DateTimeMeta)
    ensures m.createdAt == now
    ensures m.expireAt.Some? <==>
      opt.Some? && opt.value.expireInMs.Some? && InDateRange(now + AsI64(opt.value.expireInMs.value) as int)
    ensures m.expireAt.Some? ==> m.expireAt.value == now + AsI64(opt.value.expireInMs.value) as int
  {
    match opt
    case None => DateTimeMeta(now, None)
    case Some(args) =>
      match args.expireInMs
      case None => DateTimeMeta(now, None)
      case Some(ms) => DateTimeMeta(now, CheckedAddMs(now, AsI64(ms)))
  }

  /** A key's metadata says it has expired: an expiry exists and lies strictly before `now`. */
  predicate HasExpired(m: DateTimeMeta, now: int) {
    m.expireAt.Some? && m.expireAt.value < now
  }

  /** A key written without an expiry never expires. */
  lemma NoExpiryNeverExpires(opt: Option<SetOptionalArgs>, createdAt: int, now: int)
    requires opt.None? || opt.value.expireInMs.None?
    ensures !HasExpired(MetaFor(opt, createdAt), now)
  {
  }

  /**
   * A key written at `t0` with an expiry of `ms` milliseconds (below 2^63,
   * and not past the end of the date range) has expired at `now` exactly
   * when `now > t0 + ms`; at `t0 + ms` itself it is still live.
   */
  lemma ExpiryIsStrict(ms: u64, t0: int, now: int)
    requires ms as int < TWO_TO_63 && InDateRange(t0 + ms as int)
    ensures HasExpired(MetaFor(Some(SetOptionalArgs(Some(ms))), t0), now) <==> now > t0 + ms as int
  {
    AsI64Small(ms);
  }

  /**
   * An expiry whose instant lies outside the date range is dropped by
   * `checked_add_signed`: the key is written without an expiry and never
   * expires.
   */
  lemma ExpiryOutOfRangeNeverExpires(ms: u64, t0: int, now: int)
    requires !InDateRange(t0 + AsI64(ms) as int)
    ensures MetaFor(Some(SetOptionalArgs(Some(ms))), t0).expireAt.None?
    ensures !HasExpired(MetaFor(Some(SetOptionalArgs(Some(ms))), t0), now)
  {
  }

  /**
   * An expiry of 2^63 milliseconds or more wraps to a negative duration.
   * Written at a representable `t0`, the key gets an expiry only when
   * `t0` minus the wrapped distance is still in the date range (that is,
   * `ms` is within about 8.3e15 of 2^64), and that expiry already lies
   * before `t0`; otherwise it gets none and never expires.
   */
  lemma HugeExpiryIsInThePast(ms: u64, t0: int)
    requires ms as int >= TWO_TO_63 && InDateRange(t0)
    ensures var m := MetaFor(Some(SetOptionalArgs(Some(ms))), t0);
      && (m.expireAt.Some? <==> ms as int >= TWO_TO_64 + MIN_TIME_MS - t0)
      && (m.expireAt.Some? ==> HasExpired(m, t0))
  {
    assert AsI64(ms) as int == ms as int - TWO_TO_64;
  }

  /** The keys listed in `keys`. */
  function KeySet(keys: seq<Bytes>): set<Bytes>
    decreases |keys|
  {
    if keys == [] then {} else KeySet(keys[..|keys| - 1]) + {keys[|keys| - 1]}
  }

  /** `KeySet(keys)` holds exactly the keys that occur in `keys`. */
  lemma {:induction false} KeySetMembers(keys: seq<Bytes>)
    ensures forall k :: k in KeySet(keys) <==> k in keys
    decreases |keys|
  {
    if keys != [] {
      var init := keys[..|keys| - 1];
      KeySetMembers(init);
      assert keys == init + [keys[|keys| - 1]];
    }
  }

  /** The keys among the first `i + 1` are those among the first `i` and key `i`. */
  lemma KeySetSnoc(keys: seq<Bytes>, i: nat)
    requires i < |keys|
    ensures KeySet(keys[..i + 1]) == KeySet(keys[..i]) + {keys[i]}
  {
    assert keys[..i + 1][..i] == keys[..i];
  }

  /** Listing keys, possibly with repeats, names at most as many distinct keys. */
  lemma {:induction false} KeySetSize(keys: seq<Bytes>)
    ensures |KeySet(keys)| <= |keys|
  {
    if keys != [] {
      var init := keys[..|keys| - 1];
      KeySetSize(init);
    }
  }

  /**
   * One step of `delete`: with the keys in `seen` already handled, handling
   * `k` removes it, and counts it, exactly when it still holds a value.
   */
  lemma DeleteStep<V>(m: map<Bytes, V>, seen: set<Bytes>, k: Bytes)
    ensures k in m - seen <==> k in m && k !in seen
    ensures k in m - seen ==>
      && (m - seen) - {k} == m - (seen + {k})
      && |m.Keys * (seen + {k})| == |m.Keys * seen| + 1
    ensures k !in m - seen ==>
      && m - seen == m - (seen + {k})
      && m.Keys * (seen + {k}) == m.Keys * seen
  {
    if k in m && k !in seen {
      assert m.Keys * (seen + {k}) == (m.Keys * seen) + {k};
    }
  }

  /** Removing the same keys from two maps with the same keys leaves them with the same keys. */
  lemma SameKeysAfterRemoval<V, W>(m: map<Bytes, V>, n: map<Bytes, W>, gone: set<Bytes>)
    requires m.Keys == n.Keys
    ensures (m - gone).Keys == (n - gone).Keys
  {
    assert (m - gone).Keys == m.Keys - gone;
    assert (n - gone).Keys == n.Keys - gone;
  }

  /**
   * The loop of `delete` after `i` keys, restated for key `i`: removing it
   * (when it holds a value) or skipping it keeps both maps equal to the
   * originals without the first `i + 1` keys, and the count equal to how
   * many of those held a value.
   */
  lemma DeleteLoopStep<V, W>(data0: map<Bytes, V>, dateTime0: map<Bytes, W>, keys: seq<Bytes>, i: nat,
                             seen: set<Bytes>, count: int)
    requires data0.Keys == dateTime0.Keys
    requires i < |keys| && seen == KeySet(keys[..i])
    requires count == |data0.Keys * seen|
    ensures KeySet(keys[..i + 1]) == seen + {keys[i]}
    ensures keys[i] in data0 - seen <==> keys[i] in dateTime0 - seen
    ensures keys[i] in data0 - seen ==>
      && (data0 - seen) - {keys[i]} == data0 - (seen + {keys[i]})
      && (dateTime0 - seen) - {keys[i]} == dateTime0 - (seen + {keys[i]})
      && count + 1 == |data0.Keys * (seen + {keys[i]})|
    ensures keys[i] !in data0 - seen ==>
      && data0 - seen == data0 - (seen + {keys[i]})
      && dateTime0 - seen == dateTime0 - (seen + {keys[i]})
      && count == |data0.Keys * (seen + {keys[i]})|
  {
    KeySetSnoc(keys, i);
    DeleteStep(data0, seen, keys[i]);
    DeleteStep(dateTime0, seen, keys[i]);
  }

  // ---------------------------------------------------------------------
  // RedisStore
  // ---------------------------------------------------------------------

  class RedisStore {
    var data: map<Bytes, DataType>
    var dateTime: map<Bytes, DateTimeMeta>

    /** Every key has both a value and metadata, and nothing else has either. */
    ghost predicate Valid()
      reads this
    {
      data.Keys == dateTime.Keys
    }

    /** The store `initialise` creates: both maps empty. */
    constructor ()
      ensures data == map[] && dateTime == map[]
      ensures Valid()
    {
      data := map[];
      dateTime := map[];
    }

    /** `get`: the string stored under `key`; `None` when absent or not a string. */
    function Get(key: Bytes): (r: Option<Bytes>)
      reads this
      ensures r.Some? <==> key in data && data[key].String?
      ensures r.Some? ==> data[key] == String(r.value)
    {
      if key !in data then None
      else match data[key]
        case String(s) => Some(s)
        case List(_) => None
    }

    /** `is_key_expired`: false for an absent key or one without an expiry; otherwise whether the expiry is strictly before `now`. */
    function IsKeyExpired(key: Bytes, now: int): (r: bool)
      reads this
      ensures r <==> key in dateTime && HasExpired(dateTime[key], now)
      ensures key !in dateTime ==> !r
    {
      if key !in dateTime then false
      else if dateTime[key].expireAt.None? then false
      else dateTime[key].expireAt.value < now
    }

    /**
     * `set`: stores `value` under `key`, replaces the key's metadata by
     * fresh metadata written at `now`, and returns the previous value.
     * No other key changes.
     */
    method Set(key: Bytes, value: Bytes, opt: Option<SetOptionalArgs>, now: int) returns (prev: Option<DataType>)
      modifies this
      ensures data == old(data)[key := String(value)]
      ensures dateTime == old(dateTime)[key := MetaFor(opt, now)]
      ensures prev.Some? <==> key in old(data)
      ensures prev.Some? ==> prev.value == old(data)[key]
      ensures Get(key) == Some(value)
      ensures forall k :: k != key ==> Get(k) == old(Get(k)) && IsKeyExpired(k, now) == old(IsKeyExpired(k, now))
      ensures old(Valid()) ==> Valid()
    {
      prev := if key in data then Some(data[key]) else None;
      data := data[key := String(value)];
      if opt.None? {
        dateTime := dateTime[key := DateTimeMeta(now, None)];
        return;
      }
      var setArgs := opt.value;
      if setArgs.expireInMs.None? {
        dateTime := dateTime[key := DateTimeMeta(now, None)];
        return;
      }
      var duration := setArgs.expireInMs.value;
      var expireAt := CheckedAddMs(now, AsI64(duration));
      dateTime := dateTime[key := DateTimeMeta(now, expireAt)];
    }

    /**
     * `delete`: removes every listed key that holds a value, from both
     * maps, and returns how many distinct keys were removed. A key listed
     * twice is removed and counted once. A `Vec` never holds 2^64 keys.
     */
    method Delete(keys: seq<Bytes>) returns (count: u64)
      requires Valid()
      requires |keys| < TWO_TO_64
      modifies this
      ensures data == old(data) - KeySet(keys)
      ensures dateTime == old(dateTime) - KeySet(keys)
      ensures count as int == |old(data).Keys * KeySet(keys)|
      ensures count as int <= |keys|
      ensures Valid()
    {
      count := 0;
      ghost var data0, dateTime0 := data, dateTime;
      ghost var seen: set<Bytes> := {};
      for i := 0 to |keys|
        invariant seen == KeySet(keys[..i])
        invariant data == data0 - seen
        invariant dateTime == dateTime0 - seen
        invariant count as int == |data0.Keys * seen|
        invariant count as int <= i
      {
        var key := keys[i];
        DeleteLoopStep(data0, dateTime0, keys, i, seen, count as int);
        if key in data {
          data := data - {key};
          dateTime := dateTime - {key};
          count := count + 1;
        }
        seen := seen + {key};
      }
      assert keys[..|keys|] == keys;
      SameKeysAfterRemoval(data0, dateTime0, seen);
    }
  }

  // ---------------------------------------------------------------------
  // The process-wide store and its lifecycle
  // ---------------------------------------------------------------------

  const NotInitialised: Bytes := "Store is not initialised."

  /**
   * The `STORE` slot and the `INIT` guard. `integrationTest` says which of
   * the two builds of `initialise` is in use: the default one runs at most
   * once per process (`Once::call_once`), the `integration_test` one
   * creates a new store on every call.
   */
  class GlobalStore {
    var store: RedisStore?
    var initDone: bool
    const integrationTest: bool

    /** Process start: no store, and the `Once` guard not yet used. */
    constructor (integrationTest: bool)
      ensures this.integrationTest == integrationTest
      ensures store == null && !initDone
    {
      this.integrationTest := integrationTest;
      store := null;
      initDone := false;
    }

    /**
     * `initialise`: installs a fresh empty store, except in the default
     * build once the guard has run, when nothing changes — even after a
     * `reset`.
     */
    method Initialise()
      modifies this
      ensures integrationTest || !old(initDone) ==>
        && store != null && fresh(store)
        && store.data == map[] && store.dateTime == map[]
      ensures !integrationTest && old(initDone) ==> store == old(store)
      ensures initDone == (old(initDone) || !integrationTest)
    {
      if integrationTest {
        store := new RedisStore();
      } else if !initDone {
        initDone := true;
        store := new RedisStore();
      }
    }

    /** `get_store`: the installed store, or the panic message when there is none. */
    function GetStore(): (r: Result<RedisStore, Bytes>)
      reads this
      ensures r.Failure? <==> store == null
      ensures r.Failure? ==> r.error == NotInitialised
      ensures r.Success? ==> r.value == store
    {
      if store == null then Failure(NotInitialised) else Success(store)
    }

    /**
     * `reset`: when a store is installed, empties both of its maps and
     * uninstalls it; with no store, nothing changes. The `Once` guard is
     * not reset.
     */
    method Reset()
      modifies this, store
      ensures store == null
      ensures old(store) != null ==> old(store).data == map[] && old(store).dateTime == map[]
      ensures initDone == old(initDone)
      ensures old(store) == null ==> unchanged(this)
    {
      if store == null {
        return;
      }
      store.data := map[];
      store.dateTime := map[];
      store := null;
    }
  }

  // ---------------------------------------------------------------------
  // The unit tests of redis.rs:194-352
  // ---------------------------------------------------------------------

  /** redis.rs:194-201: `get_store` before `initialise` fails with "Store is not initialised." */
  method GetStoreBeforeInitialise(integrationTest: bool) returns (r: Result<RedisStore, Bytes>)
    ensures r == Failure(NotInitialised)
  {
    var global := new GlobalStore(integrationTest);
    r := global.GetStore();
  }

  /**
   * redis.rs:203-231: set, get, reset, initialise. In the `integration_test`
   * build the new store is empty; in the default build `initialise` does
   * nothing the second time, so `get_store` fails.
   */
  method ResetThenInitialise(integrationTest: bool) returns (before: Option<Bytes>, after: Result<RedisStore, Bytes>)
    ensures before == Some("value")
    ensures integrationTest ==> after.Success? && after.value.data == map[]
    ensures !integrationTest ==> after == Failure(NotInitialised)
  {
    var global := new GlobalStore(integrationTest);
    global.Initialise();
    var store := global.store;
    var _ := store.Set("key", "value", None, 0);
    before := store.Get("key");
    global.Reset();
    global.Initialise();
    after := global.GetStore();
  }

  /**
   * redis.rs:233-298: an absent key reads as `None`; a set key reads back
   * with the right metadata. `now` is a clock reading at least 50 ms before
   * the end of the date range.
   */
  method SetThenGet(now: int) returns (absent: Option<Bytes>, plain: Option<Bytes>, plainMeta: DateTimeMeta,
                                       expiring: Option<Bytes>, expiringMeta: DateTimeMeta)
    requires InDateRange(now) && InDateRange(now + 50)
    ensures absent == None
    ensures plain == Some("value") && plainMeta == DateTimeMeta(now, None)
    ensures expiring == Some("value") && expiringMeta == DateTimeMeta(now, Some(now + 50))
  {
    var store := new RedisStore();
    absent := store.Get("random");
    var _ := store.Set("key", "value", None, now);
    plain := store.Get("key");
    plainMeta := store.dateTime["key"];

    var other := new RedisStore();
    var _ := other.Set("key", "value", Some(SetOptionalArgs(Some(50))), now);
    expiring := other.Get("key");
    expiringMeta := other.dateTime["key"];
  }

  /** redis.rs:300-323: a deleted key reads as `None`; naming it twice still deletes one key. */
  method SetThenDelete(now: int) returns (deleted: u64, after: Option<Bytes>)
    ensures deleted == 1 && after == None
  {
    var store := new RedisStore();
    var _ := store.Set("key", "value", None, now);
    assert KeySet(["key", "key"]) == {"key"};
    deleted := store.Delete(["key", "key"]);
    after := store.Get("key");
  }

  /** redis.rs:325-352: a key set to expire in 50 ms is live 50 ms later and expired 51 ms later. */
  method KeyExpires(t0: int) returns (atFifty: bool, afterFifty: bool)
    requires InDateRange(t0) && InDateRange(t0 + 50)
    ensures !atFifty && afterFifty
  {
    var store := new RedisStore();
    var _ := store.Set("key", "value", Some(SetOptionalArgs(Some(50))), t0);
    atFifty := store.IsKeyExpired("key", t0 + 50);
    afterFifty := store.IsKeyExpired("key", t0 + 51);
  }
}
