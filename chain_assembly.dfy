/**
  The assembly the final step evidently intends: start at the chain head, follow
  each merge from its left string to its right string, keep every left string
  without the part it shares with its successor, and end with the last string
  whole. Unlike the loop as written, this yields a string of the expected length
  that contains every string of the chain.
 */
module ChainAssembly {
  import opened Registry
  import opened Assembly

  datatype Option<T> = None | Some(value: T)

  /** The first record of `ms` whose left string is `left`, if any. */
  function FindByLeft(ms: seq<Merge>, left: nat): (r: Option<Merge>)
    ensures r.Some? ==> r.value in ms && r.value.left == left
    ensures r.None? ==> forall j :: 0 <= j < |ms| ==> ms[j].left != left
  {
    if ms == [] then None
    else if ms[0].left == left then Some(ms[0])
    else FindByLeft(ms[1..], left)
  }

  /** Consecutive merges share a string: each right string is the next left string. */
  predicate Linked(chain: seq<Merge>) {
    forall i :: 0 <= i < |chain| - 1 ==> chain[i].right == chain[i + 1].left
  }

  /**
    At most `count` merges of `ms`, followed from `start` along left-to-right
    adjacency: each step is the record looked up by the previous right string,
    and the walk ends early only at a string that is no merge's left string.
   */
  function Follow(ms: seq<Merge>, start: nat, count: nat): (chain: seq<Merge>)
    ensures |chain| <= count
    ensures forall i :: 0 <= i < |chain| ==> chain[i] in ms
    ensures chain != [] ==> chain[0].left == start
    ensures Linked(chain)
    ensures chain != [] ==> FindByLeft(ms, start) == Some(chain[0])
    ensures forall i :: 0 < i < |chain| ==> FindByLeft(ms, chain[i - 1].right) == Some(chain[i])
    ensures |chain| < count ==> FindByLeft(ms, if chain == [] then start else chain[|chain| - 1].right).None?
    decreases count
  {
    if count == 0 then []
    else
      match FindByLeft(ms, start)
      case None => []
      case Some(m) => [m] + Follow(ms, m.right, count - 1)
  }

  /** The strings a non-empty chain passes through, in order. */
  function Visited(chain: seq<Merge>): (order: seq<nat>)
    requires chain != []
    ensures |order| == |chain| + 1
    ensures forall i :: 0 <= i < |chain| ==> order[i] == chain[i].left
    ensures order[|chain|] == chain[|chain| - 1].right
  {
    if |chain| == 1 then [chain[0].left, chain[0].right]
    else [chain[0].left] + Visited(chain[1..])
  }

  /** Every merge of the chain names strings that exist and an overlap its left string can give. */
  predicate ChainFits(strings: seq<string>, chain: seq<Merge>) {
    && chain != []
    && Linked(chain)
    && forall i :: 0 <= i < |chain| ==>
         && chain[i].left < |strings|
         && chain[i].right < |strings|
         && chain[i].overlap <= |strings[chain[i].left]|
  }

  /** The left string without its last `overlap` characters, i.e. without the shared part. */
  function Unshared(strings: seq<string>, m: Merge): (r: string)
    requires m.left < |strings| && m.overlap <= |strings[m.left]|
    ensures |r| == |strings[m.left]| - m.overlap
  {
    strings[m.left][..|strings[m.left]| - m.overlap]
  }

  /** The intended concatenation along a chain. */
  function ChainSuperstring(strings: seq<string>, chain: seq<Merge>): string
    requires ChainFits(strings, chain)
    decreases |chain|
  {
    if |chain| == 1 then Unshared(strings, chain[0]) + strings[chain[0].right]
    else Unshared(strings, chain[0]) + ChainSuperstring(strings, chain[1..])
  }

  /** Length of string `i`; an index that names no string contributes nothing. */
  function LengthOf(strings: seq<string>, i: nat): nat {
    if i < |strings| then |strings[i]| else 0
  }

  /** Total length of the strings visited in `order`. */
  function SumLengths(strings: seq<string>, order: seq<nat>): nat {
    if order == [] then 0 else LengthOf(strings, order[0]) + SumLengths(strings, order[1..])
  }

  function SumOverlaps(chain: seq<Merge>): nat {
    if chain == [] then 0 else chain[0].overlap + SumOverlaps(chain[1..])
  }

  /** The indices `0 .. n - 1` in order. */
  function AllIndices(n: nat): (order: seq<nat>)
    ensures |order| == n
    ensures forall i :: 0 <= i < n ==> order[i] == i
  {
    if n == 0 then [] else AllIndices(n - 1) + [n - 1]
  }

  /** The result is as long as the strings visited, less every overlap. */
  lemma {:induction false} ChainSuperstringLength(strings: seq<string>, chain: seq<Merge>)
    requires ChainFits(strings, chain)
    ensures |ChainSuperstring(strings, chain)| + SumOverlaps(chain) == SumLengths(strings, Visited(chain))
    decreases |chain|
  {
    var m := chain[0];
    if |chain| == 1 {
      assert Visited(chain) == [m.left, m.right];
      assert Visited(chain)[1..] == [m.right];
      assert [m.right][1..] == [];
      assert SumLengths(strings, [m.right]) == LengthOf(strings, m.right);
      assert chain[1..] == [];
      assert SumOverlaps(chain) == m.overlap;
    } else {
      ChainSuperstringLength(strings, chain[1..]);
      assert Visited(chain)[1..] == Visited(chain[1..]);
    }
  }

  lemma {:induction false} SumLengthsAppend(strings: seq<string>, a: seq<nat>, b: seq<nat>)
    ensures SumLengths(strings, a + b) == SumLengths(strings, a) + SumLengths(strings, b)
  {
    if a != [] {
      assert (a + b)[1..] == a[1..] + b;
      SumLengthsAppend(strings, a[1..], b);
    } else {
      assert a + b == b;
    }
  }

  /** Taking out the element at `k` takes out its length. */
  lemma {:induction false} SumLengthsRemoveAt(strings: seq<string>, b: seq<nat>, k: nat)
    requires k < |b|
    ensures SumLengths(strings, b) == LengthOf(strings, b[k]) + SumLengths(strings, b[..k] + b[k + 1..])
    ensures multiset(b[..k] + b[k + 1..]) == multiset(b) - multiset{b[k]}
  {
    var tail := [b[k]] + b[k + 1..];
    assert b == b[..k] + tail;
    SumLengthsAppend(strings, b[..k], tail);
    SumLengthsAppend(strings, b[..k], b[k + 1..]);
    assert tail[1..] == b[k + 1..];
  }

  /** The total length does not depend on the order the strings are visited in. */
  lemma {:induction false} SumLengthsPermutation(strings: seq<string>, a: seq<nat>, b: seq<nat>)
    requires multiset(a) == multiset(b)
    ensures SumLengths(strings, a) == SumLengths(strings, b)
    decreases |a|
  {
    if a == [] {
      assert |multiset(b)| == 0;
    } else {
      assert a[0] in multiset(b);
      var k :| 0 <= k < |b| && b[k] == a[0];
      var rest := b[..k] + b[k + 1..];
      SumLengthsRemoveAt(strings, b, k);
      SumLengthsRemoveAt(strings, a, 0);
      assert a[..0] + a[1..] == a[1..];
      assert multiset(a[1..]) == multiset(rest);
      SumLengthsPermutation(strings, a[1..], rest);
    }
  }

  /**
    When the chain passes through every string exactly once, the result is as
    long as all strings together less all overlaps.
   */
  lemma ChainSuperstringTotalLength(strings: seq<string>, chain: seq<Merge>)
    requires ChainFits(strings, chain)
    requires multiset(Visited(chain)) == multiset(AllIndices(|strings|))
    ensures |ChainSuperstring(strings, chain)| + SumOverlaps(chain) == SumLengths(strings, AllIndices(|strings|))
  {
    ChainSuperstringLength(strings, chain);
    SumLengthsPermutation(strings, Visited(chain), AllIndices(|strings|));
  }

  /** `p` occurs in `s` starting at position `k`. */
  predicate OccursAt(p: string, s: string, k: nat) {
    k + |p| <= |s| && s[k..k + |p|] == p
  }

  /** Every overlap of the chain is real: the left string ends with what the right string starts with. */
  predicate TrueOverlaps(strings: seq<string>, chain: seq<Merge>)
    requires ChainFits(strings, chain)
  {
    forall i :: 0 <= i < |chain| ==>
      var l, r, o := strings[chain[i].left], strings[chain[i].right], chain[i].overlap;
      o <= |r| && l[|l| - o..] == r[..o]
  }

  lemma TrueOverlapsTail(strings: seq<string>, chain: seq<Merge>)
    requires ChainFits(strings, chain) && TrueOverlaps(strings, chain) && |chain| > 1
    ensures ChainFits(strings, chain[1..]) && TrueOverlaps(strings, chain[1..])
  {
    var tail := chain[1..];
    forall j | 0 <= j < |tail|
      ensures var l', r', o' := strings[tail[j].left], strings[tail[j].right], tail[j].overlap;
              o' <= |r'| && l'[|l'| - o'..] == r'[..o']
    {
      assert tail[j] == chain[j + 1];
    }
  }

  lemma OccursAfterPrefix(x: string, p: string, rest: string, k: nat)
    requires OccursAt(x, rest, k)
    ensures OccursAt(x, p + rest, |p| + k)
  {
    assert (p + rest)[|p| + k..|p| + k + |x|] == rest[k..k + |x|];
  }

  /** With real overlaps the result starts with the chain head's string. */
  lemma {:induction false} ChainStartsWithHead(strings: seq<string>, chain: seq<Merge>)
    requires ChainFits(strings, chain) && TrueOverlaps(strings, chain)
    ensures OccursAt(strings[chain[0].left], ChainSuperstring(strings, chain), 0)
    decreases |chain|
  {
    var m := chain[0];
    var l, r, o := strings[m.left], strings[m.right], m.overlap;
    var p := Unshared(strings, m);
    assert l == p + l[|l| - o..];
    assert l[|l| - o..] == r[..o];
    if |chain| == 1 {
      var s := p + r;
      assert s[..|l|] == p + r[..o];
    } else {
      TrueOverlapsTail(strings, chain);
      ChainStartsWithHead(strings, chain[1..]);
      var rest := ChainSuperstring(strings, chain[1..]);
      assert chain[1].left == m.right;
      assert rest[..|r|] == r;
      var s := p + rest;
      assert s[..|l|] == p + rest[..o];
      assert rest[..o] == r[..o];
    }
  }

  /** A one-merge chain's result ends with its right string. */
  lemma SingleMergeContainsRight(strings: seq<string>, chain: seq<Merge>)
    requires ChainFits(strings, chain) && |chain| == 1
    ensures OccursAt(strings[chain[0].right], ChainSuperstring(strings, chain), |Unshared(strings, chain[0])|)
  {
    var r := strings[chain[0].right];
    assert OccursAt(r, r, 0);
    OccursAfterPrefix(r, Unshared(strings, chain[0]), r, 0);
  }

  /** Dropping the first merge of a fitting chain leaves a fitting chain. */
  lemma {:induction false} TailFits(strings: seq<string>, chain: seq<Merge>)
    requires ChainFits(strings, chain) && |chain| > 1
    ensures ChainFits(strings, chain[1..])
  {
    var tail := chain[1..];
    forall j | 0 <= j < |tail|
      ensures tail[j].left < |strings| && tail[j].right < |strings| && tail[j].overlap <= |strings[tail[j].left]|
    {
      assert tail[j] == chain[j + 1];
    }
    forall j | 0 <= j < |tail| - 1 ensures tail[j].right == tail[j + 1].left {
      assert tail[j] == chain[j + 1] && tail[j + 1] == chain[j + 2];
    }
  }

  /** A longer chain's result is its first unshared part followed by the result of its tail. */
  lemma {:induction false} UnfoldChain(strings: seq<string>, chain: seq<Merge>)
    requires ChainFits(strings, chain) && |chain| > 1
    ensures ChainFits(strings, chain[1..])
    ensures ChainSuperstring(strings, chain) == Unshared(strings, chain[0]) + ChainSuperstring(strings, chain[1..])
  {
    TailFits(strings, chain);
  }

  /** After its first string, a longer chain visits what its tail visits. */
  lemma {:induction false} VisitedTail(chain: seq<Merge>)
    requires |chain| > 1
    ensures forall i :: 1 <= i < |Visited(chain)| ==> Visited(chain)[i] == Visited(chain[1..])[i - 1]
  {
    var tail := chain[1..];
    forall i | 1 <= i < |Visited(chain)| ensures Visited(chain)[i] == Visited(tail)[i - 1] {
      if i < |chain| {
        assert tail[i - 1] == chain[i];
      } else {
        assert tail[|tail| - 1] == chain[|chain| - 1];
      }
    }
  }

  /** With real overlaps every string the chain passes through occurs in the result. */
  lemma {:induction false} ChainContainsVisited(strings: seq<string>, chain: seq<Merge>, i: nat)
    requires ChainFits(strings, chain) && TrueOverlaps(strings, chain)
    requires i < |Visited(chain)|
    ensures exists k :: OccursAt(strings[Visited(chain)[i]], ChainSuperstring(strings, chain), k)
    decreases |chain|
  {
    if i == 0 {
      ChainStartsWithHead(strings, chain);
      assert OccursAt(strings[Visited(chain)[i]], ChainSuperstring(strings, chain), 0);
    } else if |chain| == 1 {
      SingleMergeContainsRight(strings, chain);
      assert Visited(chain)[i] == chain[0].right;
    } else {
      var tail := chain[1..];
      TrueOverlapsTail(strings, chain);
      UnfoldChain(strings, chain);
      VisitedTail(chain);
      ChainContainsVisited(strings, tail, i - 1);
      var rest := ChainSuperstring(strings, tail);
      var x := strings[Visited(tail)[i - 1]];
      var k: nat :| OccursAt(x, rest, k);
      OccursAfterPrefix(x, Unshared(strings, chain[0]), rest, k);
    }
  }

  /**
    The intended final assembly: follow `|strings| - 1` merges from the chain
    head, looking each one up by its left string, and concatenate along them.
   */
  function AssembleAlongChain(strings: seq<string>, ms: seq<Merge>, avail: seq<bool>): string
    requires |strings| >= 2 ==> ChainFits(strings, Follow(ms, NextAvailable(avail, 0), |strings| - 1))
  {
    if |strings| == 0 then ""
    else if |strings| == 1 then strings[0]
    else ChainSuperstring(strings, Follow(ms, NextAvailable(avail, 0), |strings| - 1))
  }

  /** On the three-string example the walk from string 0 takes both merges, in order. */
  lemma BananaChain()
    ensures Follow([Merge(0, 1, 3), Merge(1, 2, 2)], 0, 2) == [Merge(0, 1, 3), Merge(1, 2, 2)]
  {
    var ms := [Merge(0, 1, 3), Merge(1, 2, 2)];
    assert FindByLeft(ms, 0) == Some(Merge(0, 1, 3));
    assert FindByLeft(ms, 1) == Some(Merge(1, 2, 2)) by {
      assert ms[1..] == [Merge(1, 2, 2)];
    }
    assert Follow(ms, 2, 0) == [];
    assert Follow(ms, 1, 1) == [Merge(1, 2, 2)];
  }

  /**
    On the three-string example ("banana" overlaps "anaconda" by 3, "anaconda"
    overlaps "dashing" by 2) the chain assembly yields "bananacondashing", of
    length 6 + 8 + 7 - 3 - 2; the code as written yields "aaanaconda"
    (AsWrittenBanana).
   */
  lemma AlongChainBanana()
    ensures var strings := ["banana", "anaconda", "dashing"];
      var ms := [Merge(0, 1, 3), Merge(1, 2, 2)];
      var avail := [true, false, false];
      && ChainFits(strings, Follow(ms, NextAvailable(avail, 0), 2))
      && AssembleAlongChain(strings, ms, avail) == "bananacondashing"
      && AssembleAlongChain(strings, ms, avail) != AssembleAsWritten(strings, ms, avail)
  {
    assert NextAvailable([true, false, false], 0) == 0;
    BananaChain();
    BananaChainSuperstring();
    AsWrittenBanana();
  }

  /** The intended concatenation along the example's two merges. */
  lemma BananaChainSuperstring()
    ensures ChainFits(["banana", "anaconda", "dashing"], [Merge(0, 1, 3), Merge(1, 2, 2)])
    ensures ChainSuperstring(["banana", "anaconda", "dashing"], [Merge(0, 1, 3), Merge(1, 2, 2)])
         == "bananacondashing"
  {
    var strings := ["banana", "anaconda", "dashing"];
    var chain := [Merge(0, 1, 3), Merge(1, 2, 2)];
    assert chain[1..] == [Merge(1, 2, 2)];
    assert Unshared(strings, Merge(0, 1, 3)) == "ban";
    assert Unshared(strings, Merge(1, 2, 2)) == "anacon";
    assert ChainSuperstring(strings, chain[1..]) == "anacon" + "dashing";
  }

  /**
    The walk on the three-string example passes through every string once, so
    together with AlongChainBanana the example meets the hypotheses of
    AlongChainTotalLength.
   */
  lemma AlongChainBananaVisitsAll()
    ensures multiset(Visited(Follow([Merge(0, 1, 3), Merge(1, 2, 2)], 0, 2))) == multiset(AllIndices(3))
  {
    BananaChain();
    var chain := [Merge(0, 1, 3), Merge(1, 2, 2)];
    assert chain[1..] == [Merge(1, 2, 2)];
    assert Visited(chain) == [0, 1, 2];
    assert AllIndices(3) == [0, 1, 2];
  }

  /**
    When the walk from the chain head fits the strings and passes through every
    string exactly once, the intended assembly is as long as all strings
    together less the overlaps of the merges it follows.
   */
  lemma AlongChainTotalLength(strings: seq<string>, ms: seq<Merge>, avail: seq<bool>)
    requires |strings| >= 2
    requires ChainFits(strings, Follow(ms, NextAvailable(avail, 0), |strings| - 1))
    requires multiset(Visited(Follow(ms, NextAvailable(avail, 0), |strings| - 1)))
          == multiset(AllIndices(|strings|))
    ensures |AssembleAlongChain(strings, ms, avail)| + SumOverlaps(Follow(ms, NextAvailable(avail, 0), |strings| - 1))
         == SumLengths(strings, AllIndices(|strings|))
  {
    ChainSuperstringTotalLength(strings, Follow(ms, NextAvailable(avail, 0), |strings| - 1));
  }
}
