/**
  Value-level specification of the merge registry kept by the superstring
  callback: the merge records, the availability scan, the candidate a callback
  event resolves to, and the invariant that every committed merge keeps.
 */
module Registry {

  /** Largest value of the source's unsigned index type (a 64-bit std::size_t). */
  const SizeMax: nat := 0xFFFF_FFFF_FFFF_FFFF

  type SizeT = x: int | 0 <= x <= SizeMax

  /** `x - 1` in std::size_t arithmetic: 0 wraps around to SizeMax. */
  function WrapDec(x: SizeT): SizeT {
    if x == 0 then SizeMax else x - 1
  }

  /** `x + 1` in std::size_t arithmetic: SizeMax wraps around to 0. */
  function WrapInc(x: SizeT): SizeT {
    if x == SizeMax then 0 else x + 1
  }

  /** A scan started from `WrapDec(b) + 1` starts at `b`, also for b == 0. */
  lemma WrapIncDec(b: SizeT)
    ensures WrapInc(WrapDec(b)) == b
  {
  }

  /** One committed merge: the left string's suffix overlaps the right string's prefix. */
  datatype Merge = Merge(left: nat, right: nat, overlap: nat)

  /**
    The smallest index `k >= from` with `avail[k]`, or `|avail|` when there is
    none (the scan of get_next_right_available, started at `from`).
   */
  function NextAvailable(avail: seq<bool>, from: nat): (k: nat)
    decreases |avail| - from
    ensures k == |avail| || (from <= k < |avail| && avail[k])
    ensures forall j :: from <= j < k && j < |avail| ==> !avail[j]
  {
    if from >= |avail| then |avail|
    else if avail[from] then from
    else NextAvailable(avail, from + 1)
  }

  /** `k <= hi` may be taken as the right string of a merge whose left string is `skip`. */
  predicate Eligible(avail: seq<bool>, skip: nat, hi: nat, k: nat) {
    k <= hi && k < |avail| && avail[k] && k != skip
  }

  /**
    Reference definition of what one overlap event resolves to: the smallest
    available index in `[lo, hi]` other than the left string `skip`, or
    `|avail|` when there is none.
   */
  function FirstEligible(avail: seq<bool>, skip: nat, lo: nat, hi: nat): (k: nat)
    decreases |avail| - lo
    ensures k == |avail| || (lo <= k && Eligible(avail, skip, hi, k))
    ensures forall j :: lo <= j < k ==> !Eligible(avail, skip, hi, j)
  {
    if lo >= |avail| || lo > hi then |avail|
    else if avail[lo] && lo != skip then lo
    else FirstEligible(avail, skip, lo + 1, hi)
  }

  /**
    The two-attempt search of the callback (scan from `lo`; if that finds the
    left string itself, scan once more after it) finds exactly FirstEligible.
   */
  lemma TwoScansFindFirstEligible(avail: seq<bool>, skip: nat, lo: nat, hi: nat)
    requires hi < |avail|
    ensures FirstEligible(avail, skip, lo, hi) ==
      var k1 := NextAvailable(avail, lo);
      if k1 > hi then |avail|
      else if k1 != skip then k1
      else
        var k2 := NextAvailable(avail, k1 + 1);
        if k2 > hi then |avail| else k2
  {
    var k1 := NextAvailable(avail, lo);
    if k1 <= hi && k1 != skip {
      assert Eligible(avail, skip, hi, k1);
    } else if k1 <= hi {
      var k2 := NextAvailable(avail, k1 + 1);
      if k2 <= hi {
        assert Eligible(avail, skip, hi, k2);
      }
    }
  }

  /** The right strings of the merges recorded so far. */
  function Rights(ms: seq<Merge>): set<nat> {
    set j | 0 <= j < |ms| :: ms[j].right
  }

  /** The indices whose availability flag has been cleared. */
  function Unavailable(avail: seq<bool>): set<nat> {
    set i: nat | i < |avail| && !avail[i]
  }

  /**
    What every state reached from construction by committed merges satisfies:
    chain roots are string indices, a string whose root moved has been consumed
    as a right string, every left string is an index, and the consumed strings
    are exactly the right strings of the merge list, one merge each.
   */
  ghost predicate RegistryInvariant(leftend: seq<nat>, avail: seq<bool>, ms: seq<Merge>) {
    && |leftend| == |avail|
    && (forall i :: 0 <= i < |leftend| ==> leftend[i] < |avail|)
    && (forall i :: 0 <= i < |leftend| && leftend[i] != i ==> !avail[i])
    && (forall j :: 0 <= j < |ms| ==> ms[j].left < |avail|)
    && Rights(ms) == Unavailable(avail)
    && |Unavailable(avail)| == |ms|
  }

  /** The freshly constructed registry satisfies the invariant. */
  lemma InitialInvariant(n: nat)
    ensures RegistryInvariant(seq(n, i => i), seq(n, i => true), [])
  {
    assert Unavailable(seq(n, i => true)) == {};
  }

  /**
    Committing `(l, r, o)` for an available `r` (clearing its flag and giving
    it the root of `l`) keeps the invariant.
   */
  lemma CommitPreserves(leftend: seq<nat>, avail: seq<bool>, ms: seq<Merge>, l: nat, r: nat, o: nat)
    requires RegistryInvariant(leftend, avail, ms)
    requires l < |avail| && r < |avail| && avail[r]
    ensures RegistryInvariant(leftend[r := leftend[l]], avail[r := false], ms + [Merge(l, r, o)])
  {
    var ms' := ms + [Merge(l, r, o)];
    var avail' := avail[r := false];
    assert Rights(ms') == Rights(ms) + {r} by {
      forall x | x in Rights(ms') ensures x in Rights(ms) + {r} {
        var j :| 0 <= j < |ms'| && ms'[j].right == x;
        if j < |ms| { assert ms'[j] == ms[j]; }
      }
      forall x | x in Rights(ms) ensures x in Rights(ms') {
        var j :| 0 <= j < |ms| && ms[j].right == x;
        assert ms'[j] == ms[j];
      }
      assert ms'[|ms|].right == r;
    }
    assert Unavailable(avail') == Unavailable(avail) + {r};
    assert r !in Unavailable(avail);
  }

  /** Reordering the merge list (as the final sort does) keeps the invariant. */
  lemma PermutationPreserves(leftend: seq<nat>, avail: seq<bool>, ms: seq<Merge>, ms': seq<Merge>)
    requires RegistryInvariant(leftend, avail, ms)
    requires multiset(ms') == multiset(ms)
    ensures RegistryInvariant(leftend, avail, ms')
  {
    assert |ms'| == |multiset(ms')| == |multiset(ms)| == |ms|;
    forall j | 0 <= j < |ms'| ensures ms'[j] in ms && ms'[j].left < |avail| {
      assert ms'[j] in multiset(ms');
    }
    assert Rights(ms') == Rights(ms) by {
      forall x | x in Rights(ms') ensures x in Rights(ms) {
        var j :| 0 <= j < |ms'| && ms'[j].right == x;
        var i :| 0 <= i < |ms| && ms[i] == ms'[j];
      }
      forall x | x in Rights(ms) ensures x in Rights(ms') {
        var i :| 0 <= i < |ms| && ms[i].right == x;
        assert ms[i] in multiset(ms);
        var j :| 0 <= j < |ms'| && ms'[j] == ms[i];
      }
    }
  }

  /** The string indices `0 .. n - 1`, as a set. */
  function Indices(n: nat): (r: set<nat>)
    ensures forall i :: i in r <==> 0 <= i < n
    ensures |r| == n
  {
    if n == 0 then {}
    else
      var below := Indices(n - 1);
      assert n - 1 !in below;
      below + {n - 1}
  }

  /** A subset has no more elements than its superset. */
  lemma {:induction false} SubsetSize(a: set<nat>, b: set<nat>)
    requires a <= b
    ensures |a| <= |b|
    decreases a
  {
    if a != {} {
      var x :| x in a;
      SubsetSize(a - {x}, b - {x});
    }
  }

  /** No more merges than strings can ever be committed. */
  lemma MergeCountBound(leftend: seq<nat>, avail: seq<bool>, ms: seq<Merge>)
    requires RegistryInvariant(leftend, avail, ms)
    ensures |ms| <= |avail|
  {
    SubsetSize(Unavailable(avail), Indices(|avail|));
  }

  /**
    While fewer merges than strings are committed some string is still
    available, so the scan for the chain head finds one.
   */
  lemma HeadExists(leftend: seq<nat>, avail: seq<bool>, ms: seq<Merge>)
    requires RegistryInvariant(leftend, avail, ms)
    requires |ms| < |avail|
    ensures NextAvailable(avail, 0) < |avail|
  {
    if NextAvailable(avail, 0) == |avail| {
      assert Indices(|avail|) <= Unavailable(avail);
      SubsetSize(Indices(|avail|), Unavailable(avail));
    }
  }

  /** A list of `k` merges names at most `k` distinct right strings. */
  lemma {:induction false} RightsAtMostLength(ms: seq<Merge>)
    ensures |Rights(ms)| <= |ms|
  {
    if ms != [] {
      var prefix := ms[..|ms| - 1];
      RightsAtMostLength(prefix);
      var last := ms[|ms| - 1].right;
      assert Rights(ms) <= Rights(prefix) + {last} by {
        forall x | x in Rights(ms) ensures x in Rights(prefix) + {ms[|ms| - 1].right} {
          var j :| 0 <= j < |ms| && ms[j].right == x;
          if j < |ms| - 1 { assert prefix[j] == ms[j]; }
        }
      }
      SubsetSize(Rights(ms), Rights(prefix) + {last});
      assert |Rights(prefix) + {last}| <= |Rights(prefix)| + 1;
    }
  }

  /**
    Under the invariant the right strings of the merge list are pairwise
    distinct: no string is consumed as a right string twice.
   */
  lemma RightsDistinct(leftend: seq<nat>, avail: seq<bool>, ms: seq<Merge>)
    requires RegistryInvariant(leftend, avail, ms)
    ensures forall a, b :: 0 <= a < b < |ms| ==> ms[a].right != ms[b].right
  {
    forall a, b | 0 <= a < b < |ms| ensures ms[a].right != ms[b].right {
      if ms[a].right == ms[b].right {
        var rest := ms[..b] + ms[b + 1..];
        assert Rights(ms) <= Rights(rest) by {
          forall x | x in Rights(ms) ensures x in Rights(rest) {
            var j :| 0 <= j < |ms| && ms[j].right == x;
            if j < b {
              assert rest[j] == ms[j];
            } else if j == b {
              assert rest[a] == ms[a];
            } else {
              assert rest[j - 1] == ms[j];
            }
          }
        }
        RightsAtMostLength(rest);
        SubsetSize(Rights(ms), Rights(rest));
        assert false;
      }
    }
  }

  /**
    After `n - 1` merges over `n >= 1` strings exactly one string is still
    available, and the scan from 0 finds it: that is where assembly starts.
   */
  lemma HeadUnique(leftend: seq<nat>, avail: seq<bool>, ms: seq<Merge>)
    requires RegistryInvariant(leftend, avail, ms)
    requires |avail| >= 1 && |ms| == |avail| - 1
    ensures NextAvailable(avail, 0) < |avail|
    ensures forall i :: 0 <= i < |avail| && avail[i] ==> i == NextAvailable(avail, 0)
  {
    var free := set i: nat | i < |avail| && avail[i];
    assert Indices(|avail|) == free + Unavailable(avail);
    assert free * Unavailable(avail) == {};
    assert |free| == 1;
    var h :| h in free;
    forall i | 0 <= i < |avail| && avail[i] ensures i == h {
      assert i in free;
      if i != h {
        SubsetSize({h, i}, free);
      }
    }
  }
}
