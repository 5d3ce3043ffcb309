/**
  The storage's unit tests, replayed against the contracts. Each test loads
  the same five entries at time 0, then reads, writes, removes or scans at
  later clock samples. Two scans that the tests do not contain are added as
  further examples.
 */
module Scenario {
  import opened LexOrder
  import opened Optional
  import opened StorageSpec
  import opened KeyValueStorage

  /** The fixture's entries: keys "a" to "e" with ttls 1, 5, 4, 6 and 0. */
  function FixtureEntries(): seq<InitEntry>
  {
    [("a", "k1", 1), ("b", "k2", 5), ("c", "k3", 4), ("d", "k4", 6), ("e", "k5", 0)]
  }

  /** The table the fixture's entries load into at time 0. */
  function FixtureTable(): Table
  {
    map["a" := Record("k1", 1), "b" := Record("k2", 5), "c" := Record("k3", 4),
        "d" := Record("k4", 6), "e" := Record("k5", 0xFFFF_FFFF)]
  }

  lemma FixtureLoaded()
    ensures Loaded(FixtureEntries(), 0) == FixtureTable()
  {
    var entries := FixtureEntries();
    assert Loaded(entries[..1], 0) == map["a" := Record("k1", 1)] by {
      assert entries[..1][..0] == entries[..0];
    }
    assert Loaded(entries[..2], 0) == map["a" := Record("k1", 1), "b" := Record("k2", 5)] by {
      assert entries[..2][..1] == entries[..1];
    }
    assert Loaded(entries[..3], 0) == map["a" := Record("k1", 1), "b" := Record("k2", 5), "c" := Record("k3", 4)] by {
      assert entries[..3][..2] == entries[..2];
    }
    assert Loaded(entries[..4], 0) == map["a" := Record("k1", 1), "b" := Record("k2", 5), "c" := Record("k3", 4),
                                          "d" := Record("k4", 6)] by {
      assert entries[..4][..3] == entries[..3];
    }
    assert entries[..5] == entries;
  }

  /** Keys that increase between neighbours increase along the whole sequence. */
  lemma {:induction false} AscendingByNeighbours(r: seq<Pair>)
    requires forall i :: 0 <= i < |r| - 1 ==> Less(r[i].0, r[i + 1].0)
    ensures StrictlyAscending(r)
  {
    if |r| > 1 {
      var front := r[..|r| - 1];
      AscendingByNeighbours(front);
      forall i | 0 <= i < |r| - 1
        ensures Less(r[i].0, r[|r| - 1].0)
      {
        if i < |r| - 2 {
          assert Less(front[i].0, front[|r| - 2].0);
          LessTransitive(r[i].0, r[|r| - 2].0, r[|r| - 1].0);
        }
      }
    }
  }

  /** A scan from "a" for 5 entries at time 0 returns the whole fixture. */
  lemma ScanAllAtZero()
    ensures IsScanResult(FixtureTable(), "a", 5, 0,
                         [("a", "k1"), ("b", "k2"), ("c", "k3"), ("d", "k4"), ("e", "k5")])
  {
    var r: seq<Pair> := [("a", "k1"), ("b", "k2"), ("c", "k3"), ("d", "k4"), ("e", "k5")];
    AscendingByNeighbours(r);
    assert LiveFrom(FixtureTable(), "a", 0) <= KeysOf(r) by {
      forall k | k in LiveFrom(FixtureTable(), "a", 0) ensures k in KeysOf(r) {
        assert k == r[0].0 || k == r[1].0 || k == r[2].0 || k == r[3].0 || k == r[4].0;
      }
    }
  }

  /** At time 4 the scan from "a" skips "a" (expired at 1) and "c" (expired at 4). */
  lemma ScanAtFour()
    ensures IsScanResult(FixtureTable(), "a", 5, 4, [("b", "k2"), ("d", "k4"), ("e", "k5")])
  {
    var r: seq<Pair> := [("b", "k2"), ("d", "k4"), ("e", "k5")];
    AscendingByNeighbours(r);
    assert LiveFrom(FixtureTable(), "a", 4) <= KeysOf(r) by {
      forall k | k in LiveFrom(FixtureTable(), "a", 4) ensures k in KeysOf(r) {
        assert k == r[0].0 || k == r[1].0 || k == r[2].0;
      }
    }
  }

  /** A scan from "c" for 2 entries at time 0 stops after "d". */
  lemma ScanFromCAtZero()
    ensures IsScanResult(FixtureTable(), "c", 2, 0, [("c", "k3"), ("d", "k4")])
  {
    var r: seq<Pair> := [("c", "k3"), ("d", "k4")];
    AscendingByNeighbours(r);
    forall k | k in LiveFrom(FixtureTable(), "c", 0) && LessEq(k, "d")
      ensures k in KeysOf(r)
    {
      assert k == r[0].0 || k == r[1].0;
    }
  }

  /** Reads of "a" at times 0, 1 and 2 and of "e" at 0 and 200, and the stubbed eviction. */
  method FixtureReads()
  {
    var s := new KVStorage(FixtureEntries(), 0);
    FixtureLoaded();
    assert s.Get("a", 0) == Some("k1");
    assert s.Get("a", 1) == None;
    assert s.Get("a", 2) == None;
    assert s.Get("e", 0) == Some("k5");
    assert s.Get("e", 200) == Some("k5");
    var none := s.RemoveOneExpiredEntry(4);
    assert none == None;
  }

  /**
    The fixture's one range scan (from "a" for 5 at time 0), and two more
    examples: the same scan at time 4, and a scan from "c" for 2 at time 0.
   */
  method FixtureScans()
  {
    var s := new KVStorage(FixtureEntries(), 0);
    FixtureLoaded();
    var all := s.GetManySorted("a", 5, 0);
    ScanAllAtZero();
    ScanResultUnique(FixtureTable(), "a", 5, 0, all, [("a", "k1"), ("b", "k2"), ("c", "k3"), ("d", "k4"), ("e", "k5")]);
    var later := s.GetManySorted("a", 5, 4);
    ScanAtFour();
    ScanResultUnique(FixtureTable(), "a", 5, 4, later, [("b", "k2"), ("d", "k4"), ("e", "k5")]);
    var two := s.GetManySorted("c", 2, 0);
    ScanFromCAtZero();
    ScanResultUnique(FixtureTable(), "c", 2, 0, two, [("c", "k3"), ("d", "k4")]);
  }

  /** A new key written at 7 with ttl 6 is visible at 7. */
  method SetNewKeyReadAtOnce()
  {
    var s := new KVStorage(FixtureEntries(), 0);
    s.Set("w", "kNew", 6, 7);
    assert s.Get("w", 7) == Some("kNew");
  }

  /** A new key written at 2 with ttl 6 is visible at 7 and gone at 8. */
  method SetNewKeyAfterExpiration()
  {
    var s := new KVStorage(FixtureEntries(), 0);
    s.Set("w", "kNew", 6, 2);
    assert s.Get("w", 7) == Some("kNew");
    assert s.Get("w", 8) == None;
  }

  /** A new key written at 0 with ttl 0 is visible at 0. */
  method SetNewKeyForever()
  {
    var s := new KVStorage(FixtureEntries(), 0);
    s.Set("w", "kNew", 0, 0);
    assert s.Get("w", 0) == Some("kNew");
  }

  /** A new key written at 100 with ttl 0 is visible at 1200. */
  method SetNewKeyForeverAfterDelay()
  {
    var s := new KVStorage(FixtureEntries(), 0);
    s.Set("w", "kNew", 0, 100);
    assert s.Get("w", 1200) == Some("kNew");
  }

  /** Overwriting "a" at 7 with ttl 6 makes it read "kNew" at 7. */
  method SetExistingKeyReadAtOnce()
  {
    var s := new KVStorage(FixtureEntries(), 0);
    s.Set("a", "kNew", 6, 7);
    assert s.Get("a", 7) == Some("kNew");
  }

  /** Overwriting "a" at 2 with ttl 6 makes it gone at 8. */
  method SetExistingKeyAfterExpiration()
  {
    var s := new KVStorage(FixtureEntries(), 0);
    s.Set("a", "kNew", 6, 2);
    assert s.Get("a", 8) == None;
  }

  /** Overwriting "a" at 0 with ttl 0 makes it read "kNew" at 0. */
  method SetExistingKeyForever()
  {
    var s := new KVStorage(FixtureEntries(), 0);
    s.Set("a", "kNew", 0, 0);
    assert s.Get("a", 0) == Some("kNew");
  }

  /** Overwriting "a" at 100 with ttl 0 keeps it visible at 1200 and orphans its first slot. */
  method SetExistingKeyForeverAfterDelay()
  {
    var s := new KVStorage(FixtureEntries(), 0);
    FixtureLoaded();
    assert "a" in s.Contents();
    ghost var firstSlot := s.values["a"].slot;
    s.Set("a", "kNew", 0, 100);
    assert s.Get("a", 1200) == Some("kNew");
    assert firstSlot in s.Orphans();
  }

  /** Removing a present key reports true and hides it; an absent key reports false. */
  method FixtureRemove()
  {
    var s := new KVStorage(FixtureEntries(), 0);
    FixtureLoaded();
    assert "a" in s.Contents() && "u" !in s.Contents();
    var removed := s.Remove("a");
    assert removed;
    assert s.Get("a", 0) == None;
    var absent := s.Remove("u");
    assert !absent;
  }
}
