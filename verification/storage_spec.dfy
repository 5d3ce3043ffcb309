/**
  The abstract meaning of the storage: a table from key to the value and the
  stored 32-bit expiration, and what the read operations return from it.
  These definitions do not mention the two indices; the class in
  `KeyValueStorage` is proved to agree with them.
 */
module StorageSpec {
  import opened LexOrder
  import opened FixedWidth

  /** What the storage holds for one key. */
  datatype Record = Record(value: string, expiration: u32)

  /** The abstract contents: every key with its value and stored expiration. */
  type Table = map<string, Record>

  /** One constructor argument: key, value and ttl (0 meaning "never"). */
  type InitEntry = (string, string, u32)

  /** One element of a range scan: key and value. */
  type Pair = (string, string)

  /** `key` is present and its stored expiration is strictly after `now`. */
  predicate Live(table: Table, key: string, now: u64)
  {
    key in table && table[key].expiration > now
  }

  /** The table after writing `value` under `key` with `ttl` at clock sample `now`. */
  function Store(table: Table, key: string, value: string, ttl: u32, now: u64): Table
  {
    table[key := Record(value, ExpirationFor(ttl, now))]
  }

  /**
    A freshly written entry is visible exactly while the clock is below its
    stored expiration: the narrowed sentinel for ttl 0, `now + ttl` mod 2^32
    otherwise.
   */
  lemma StoredLiveness(table: Table, key: string, value: string, ttl: u32, written: u64, now: u64)
    ensures Live(Store(table, key, value, ttl, written), key, now) <==>
            now < (if ttl == 0 then NEVER_STORED else (written + ttl) % TWO_32)
  {
    ExpirationForValue(ttl, written);
  }

  /**
    Strict expiry: while `written + ttl` fits in 32 bits, an entry
    written at `written` is visible at `now` iff `now < written + ttl`; at
    `now == written + ttl` it is already gone.
   */
  lemma TtlBoundary(table: Table, key: string, value: string, ttl: u32, written: u64, now: u64)
    requires ttl != 0 && written + ttl < TWO_32
    ensures Live(Store(table, key, value, ttl, written), key, now) <==> now < written + ttl
  {
    ExpirationWithoutWrap(ttl, written);
  }

  /**
    An entry written with ttl 0 stores 4294967295, so it is visible at every
    clock sample below that value and at none from that value on.
   */
  lemma NeverExpiresOnlyBelowSentinel(table: Table, key: string, value: string, written: u64, now: u64)
    ensures Live(Store(table, key, value, 0, written), key, now) <==> now < NEVER_STORED
  {
    ExpirationForValue(0, written);
  }

  /**
    A write whose `written + ttl` reaches 2^32 (with a clock sample below
    2^32) is not visible even at the clock sample it was written at.
   */
  lemma WrappedWriteIsExpired(table: Table, key: string, value: string, ttl: u32, written: u64)
    requires written < TWO_32 <= written + ttl
    ensures !Live(Store(table, key, value, ttl, written), key, written)
  {
    ExpirationWraps(ttl, written);
  }

  /**
    The table built by the constructor: the entries written in order, all
    with the same clock sample.
   */
  function Loaded(entries: seq<InitEntry>, now: u64): Table
  {
    if |entries| == 0 then map[]
    else
      var last := entries[|entries| - 1];
      Store(Loaded(entries[..|entries| - 1], now), last.0, last.1, last.2, now)
  }

  /** No entry after index `i` has the same key as entry `i`. */
  predicate IsLastOccurrence(entries: seq<InitEntry>, i: nat)
    requires i < |entries|
  {
    forall j :: i < j < |entries| ==> entries[j].0 != entries[i].0
  }

  /** The keys named by a batch of constructor entries. */
  function EntryKeys(entries: seq<InitEntry>): set<string>
  {
    set i | 0 <= i < |entries| :: entries[i].0
  }

  /** The constructor stores exactly the keys of its entries. */
  lemma {:induction false} LoadedKeys(entries: seq<InitEntry>, now: u64)
    ensures Loaded(entries, now).Keys == EntryKeys(entries)
  {
    if |entries| > 0 {
      var n := |entries| - 1;
      LoadedKeys(entries[..n], now);
      assert EntryKeys(entries) == EntryKeys(entries[..n]) + {entries[n].0} by {
        forall k | k in EntryKeys(entries) ensures k in EntryKeys(entries[..n]) + {entries[n].0} {
          var i :| 0 <= i < |entries| && entries[i].0 == k;
          if i < n {
            assert entries[..n][i] == entries[i];
          }
        }
      }
    }
  }

  /** A key repeated in the batch holds the value and ttl of its last occurrence. */
  lemma {:induction false} LoadedLastWriteWins(entries: seq<InitEntry>, now: u64, i: nat)
    requires i < |entries| && IsLastOccurrence(entries, i)
    ensures entries[i].0 in Loaded(entries, now)
    ensures Loaded(entries, now)[entries[i].0] == Record(entries[i].1, ExpirationFor(entries[i].2, now))
  {
    var n := |entries| - 1;
    if i < n {
      var front := entries[..n];
      assert entries[i].0 != entries[n].0;
      assert front[i] == entries[i];
      assert IsLastOccurrence(front, i);
      LoadedLastWriteWins(front, now, i);
    }
  }

  /** The keys of a scan result. */
  function KeysOf(r: seq<Pair>): set<string>
  {
    set i | 0 <= i < |r| :: r[i].0
  }

  lemma KeysOfAppend(r: seq<Pair>, x: Pair)
    ensures KeysOf(r + [x]) == KeysOf(r) + {x.0}
  {
    var r' := r + [x];
    forall k | k in KeysOf(r') ensures k in KeysOf(r) + {x.0} {
      var i :| 0 <= i < |r'| && r'[i].0 == k;
      if i < |r| {
        assert r'[i] == r[i];
      }
    }
    forall k | k in KeysOf(r) ensures k in KeysOf(r') {
      var i :| 0 <= i < |r| && r[i].0 == k;
      assert r'[i] == r[i];
    }
    assert r'[|r|] == x;
  }

  /** Keys strictly increase along `r`. */
  ghost predicate StrictlyAscending(r: seq<Pair>)
  {
    forall i, j :: 0 <= i < j < |r| ==> Less(r[i].0, r[j].0)
  }

  /** The live keys at or after `start`. */
  function LiveFrom(table: Table, start: string, now: u64): set<string>
  {
    set k | k in table && Live(table, k, now) && LessEq(start, k)
  }

  /**
    `r` is what a range scan from `start` for at most `count` entries at
    clock sample `now` returns: live entries at or after `start`, in
    strictly ascending key order, with their values, at most `count` of
    them, and no live key at or after `start` skipped up to the last key
    returned (or at all, when fewer than `count` came back).
   */
  ghost predicate IsScanResult(table: Table, start: string, count: nat, now: u64, r: seq<Pair>)
  {
    && StrictlyAscending(r)
    && (forall i :: 0 <= i < |r| ==>
          Live(table, r[i].0, now) && LessEq(start, r[i].0) && r[i].1 == table[r[i].0].value)
    && |r| <= count
    && (forall k :: k in LiveFrom(table, start, now) ==>
          (|r| < count || (0 < |r| && LessEq(k, r[|r| - 1].0))) ==>
          k in KeysOf(r))
  }

  /** Two scan results that agree before position `i` agree at `i` too: `a` cannot skip ahead of `b`. */
  lemma ScanCannotSkip(table: Table, start: string, count: nat, now: u64, a: seq<Pair>, b: seq<Pair>, i: nat)
    requires IsScanResult(table, start, count, now, a) && IsScanResult(table, start, count, now, b)
    requires i < |a| && i < |b|
    requires forall j :: 0 <= j < i ==> a[j].0 == b[j].0
    ensures !Less(a[i].0, b[i].0)
  {
    if Less(a[i].0, b[i].0) {
      var k := a[i].0;
      var last := |b| - 1;
      if i < last {
        LessTransitive(k, b[i].0, b[last].0);
      }
      assert k in LiveFrom(table, start, now);
      assert k in KeysOf(b);
      var j :| 0 <= j < |b| && b[j].0 == k;
      if j > i {
        LessAsymmetric(b[i].0, k);
      } else {
        LessIrreflexive(k);
      }
    }
  }

  lemma {:induction false} ScanKeysAgree(table: Table, start: string, count: nat, now: u64, a: seq<Pair>, b: seq<Pair>, n: nat)
    requires IsScanResult(table, start, count, now, a) && IsScanResult(table, start, count, now, b)
    requires n <= |a| && n <= |b|
    ensures forall j :: 0 <= j < n ==> a[j].0 == b[j].0
  {
    if n > 0 {
      ScanKeysAgree(table, start, count, now, a, b, n - 1);
      var i := n - 1;
      ScanCannotSkip(table, start, count, now, a, b, i);
      ScanCannotSkip(table, start, count, now, b, a, i);
      Trichotomy(a[i].0, b[i].0);
    }
  }

  lemma ScanLengthsAgree(table: Table, start: string, count: nat, now: u64, a: seq<Pair>, b: seq<Pair>)
    requires IsScanResult(table, start, count, now, a) && IsScanResult(table, start, count, now, b)
    requires |b| <= |a|
    requires forall j :: 0 <= j < |b| ==> a[j].0 == b[j].0
    ensures |a| == |b|
  {
    if |b| < |a| {
      var n := |b|;
      var k := a[n].0;
      assert k in LiveFrom(table, start, now);
      assert k in KeysOf(b);
      var j :| 0 <= j < n && b[j].0 == k;
      LessIrreflexive(k);
    }
  }

  /**
    A scan result is unique: the conditions of `IsScanResult` determine
    the returned sequence completely.
   */
  lemma ScanResultUnique(table: Table, start: string, count: nat, now: u64, a: seq<Pair>, b: seq<Pair>)
    requires IsScanResult(table, start, count, now, a) && IsScanResult(table, start, count, now, b)
    ensures a == b
  {
    if |a| <= |b| {
      ScanKeysAgree(table, start, count, now, a, b, |a|);
      ScanLengthsAgree(table, start, count, now, b, a);
    } else {
      ScanKeysAgree(table, start, count, now, a, b, |b|);
      ScanLengthsAgree(table, start, count, now, a, b);
    }
    forall j | 0 <= j < |a|
      ensures a[j] == b[j]
    {
    }
  }

  /** A strictly ascending sequence has as many distinct keys as elements. */
  lemma {:induction false} AscendingKeysCount(r: seq<Pair>)
    requires StrictlyAscending(r)
    ensures |KeysOf(r)| == |r|
  {
    if |r| > 0 {
      var n := |r| - 1;
      var front := r[..n];
      assert StrictlyAscending(front);
      AscendingKeysCount(front);
      forall i | 0 <= i < n
        ensures front[i].0 != r[n].0
      {
        LessIrreflexive(front[i].0);
      }
      assert KeysOf(r) == KeysOf(front) + {r[n].0};
    }
  }

  /**
    A scan returns `count` entries when at least that many live keys lie at
    or after `start`, and all of them otherwise.
   */
  lemma ScanLength(table: Table, start: string, count: nat, now: u64, r: seq<Pair>)
    requires IsScanResult(table, start, count, now, r)
    ensures |r| == if count < |LiveFrom(table, start, now)| then count else |LiveFrom(table, start, now)|
    ensures |r| < count ==> KeysOf(r) == LiveFrom(table, start, now)
  {
    var live := LiveFrom(table, start, now);
    AscendingKeysCount(r);
    assert KeysOf(r) <= live;
    SubsetCardinality(KeysOf(r), live);
    if |r| < count {
      assert live <= KeysOf(r);
      SubsetCardinality(live, KeysOf(r));
    }
  }

  lemma {:induction false} SubsetCardinality(small: set<string>, big: set<string>)
    requires small <= big
    ensures |small| <= |big|
  {
    if small != {} {
      var x :| x in small;
      SubsetCardinality(small - {x}, big - {x});
    }
  }
}
