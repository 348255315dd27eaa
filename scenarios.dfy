/**
  Clients of the callback object: event sequences a matcher could send, and
  what the object answers and builds for them.
 */
module Scenarios {
  import opened Registry
  import opened Assembly
  import opened Callback

  /**
    "banana" (rank 1) overlaps "anaconda" (rank 2) by 3 and "anaconda" overlaps
    "dashing" (rank 3) by 2: both events commit.
   */
  method BananaEvents() returns (cb: SuperstringCallback)
    ensures fresh(cb) && cb.Valid() && cb.nStrings == 3
    ensures cb.merges == [Merge(0, 1, 3), Merge(1, 2, 2)]
    ensures cb.rightavailable[..] == [true, false, false]
  {
    cb := new SuperstringCallback(3);
    assert cb.rightavailable[..] == [true, true, true];
    var done := cb.Callback(1, 3, 1, 1);
    assert done && cb.merges == [Merge(0, 1, 3)];
    assert cb.rightavailable[..] == [true, false, true];
    done := cb.Callback(2, 2, 2, 2);
    assert done;
  }

  /**
    After those two events the final assembly, as written, returns
    "aaanaconda" rather than "bananacondashing".
   */
  method BananaScenario() returns (superstring: string)
    ensures superstring == "aaanaconda"
  {
    var cb := BananaEvents();
    assert Sort(cb.merges) == cb.merges by {
      SortedPermutationUnique(Sort(cb.merges), cb.merges);
    }
    assert NextAvailable(cb.rightavailable[..], 0) == 0;
    superstring := cb.BuildFinalSuperstring(["banana", "anaconda", "dashing"]);
    AsWrittenBanana();
  }

  /**
    With two strings the merge counter never reaches its bound, so a second
    event commits a second merge: both strings end up consumed as right
    strings, the two merges form a cycle, and no chain head remains.
   */
  method CounterNeverStops() returns (mergeCount: nat, headLeft: bool)
    ensures mergeCount == 2 && !headLeft
  {
    var cb := new SuperstringCallback(2);
    assert cb.rightavailable[..] == [true, true];
    var done := cb.Callback(1, 1, 1, 1);
    assert done && cb.merges == [Merge(0, 1, 1)];
    assert cb.rightavailable[..] == [true, false];
    done := cb.Callback(2, 1, 0, 1);
    assert done && cb.merges == [Merge(0, 1, 1), Merge(1, 0, 1)];
    mergeCount := |cb.merges|;
    headLeft := cb.rightavailable[0] || cb.rightavailable[1];
  }
}
