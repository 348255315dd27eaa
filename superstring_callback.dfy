/**
  The callback object the suffix-array matcher drives: per-string chain roots
  and availability flags in fixed-size arrays, an append-only merge list, and
  the final assembly over that state.
 */
module Callback {
  import opened Registry
  import opened Assembly

  class SuperstringCallback {
    /** Number of strings, fixed at construction. */
    const nStrings: SizeT
    /** Merge counter; no operation ever increments it. */
    var mergesDone: nat
    /** Chain root recorded for each string. */
    const leftend: array<nat>
    /** Successor index of each string; written by the constructor and never read. */
    const next: array<nat>
    /** Whether each string may still become the right string of a merge. */
    const rightavailable: array<bool>
    /** Committed merges, in commit order until the final sort. */
    var merges: seq<Merge>

    /** The arrays have one slot per string. */
    ghost predicate WellFormed()
      reads this
    {
      leftend.Length == nStrings && rightavailable.Length == nStrings && next.Length == nStrings
    }

    /** The object invariant: the registry invariant over the array contents, and an untouched counter. */
    ghost predicate Valid()
      reads this, leftend, rightavailable
    {
      && WellFormed()
      && mergesDone == 0
      && RegistryInvariant(leftend[..], rightavailable[..], merges)
    }

    constructor (n: SizeT)
      ensures Valid()
      ensures fresh(leftend) && fresh(rightavailable) && fresh(next)
      ensures nStrings == n && merges == [] && mergesDone == 0
      ensures forall i :: 0 <= i < n ==> leftend[i] == i && rightavailable[i] && next[i] == i + 1
    {
      var roots := new nat[n];
      var successors := new nat[n];
      var available := new bool[n];
      var i := 0;
      while i < n
        invariant 0 <= i <= n
        invariant forall j :: 0 <= j < i ==> roots[j] == j && successors[j] == j + 1 && available[j]
      {
        roots[i] := i;
        successors[i] := i + 1;
        available[i] := true;
        i := i + 1;
      }
      nStrings := n;
      mergesDone := 0;
      leftend := roots;
      next := successors;
      rightavailable := available;
      merges := [];
      InitialInvariant(n);
      assert roots[..] == seq(n, j => j);
      assert available[..] == seq(n, j => true);
    }

    /**
      Commits the merge `(left, right, overlap)` unless the chain root of
      `right` is already `left`.
     */
    method TryMerge(left: nat, right: nat, overlap: nat) returns (committed: bool)
      requires WellFormed()
      requires left < nStrings && right < nStrings
      modifies this`merges, leftend, rightavailable
      ensures WellFormed()
      ensures committed <==> old(leftend[right]) != left
      ensures committed ==>
        && merges == old(merges) + [Merge(left, right, overlap)]
        && rightavailable[..] == old(rightavailable[..])[right := false]
        && leftend[..] == old(leftend[..])[right := old(leftend[left])]
      ensures !committed ==> merges == old(merges) && unchanged(leftend, rightavailable)
      ensures old(Valid()) && old(rightavailable[right]) ==> Valid()
    {
      ghost var roots, available, recorded := leftend[..], rightavailable[..], merges;
      ghost var wasValid := Valid();
      if leftend[right] != left {
        merges := merges + [Merge(left, right, overlap)];
        rightavailable[right] := false;
        leftend[right] := leftend[left];
        if wasValid && available[right] {
          CommitPreserves(roots, available, recorded, left, right, overlap);
          assert leftend[..] == roots[right := roots[left]];
          assert rightavailable[..] == available[right := false];
        }
        return true;
      }
      return false;
    }

    /** A hint of how many candidates will follow; it has no effect. */
    method SetSubstringCount(count: SizeT)
      ensures unchanged(this, leftend, rightavailable, next)
    {
    }

    /**
      The smallest available index after `index` (the first one computed in
      std::size_t arithmetic), or `nStrings` when there is none.
     */
    method NextRightAvailable(index: SizeT) returns (k: nat)
      requires WellFormed()
      ensures k == NextAvailable(rightavailable[..], WrapInc(index))
    {
      var i := WrapInc(index);
      while i < nStrings
        invariant WrapInc(index) <= i
        invariant NextAvailable(rightavailable[..], i) == NextAvailable(rightavailable[..], WrapInc(index))
      {
        if rightavailable[i] {
          return i;
        }
        i := i + 1;
      }
      return nStrings;
    }

    /**
      One overlap event: the string of lexicographic rank `readLexRank`
      (1-based) overlaps the strings whose ranks lie in
      `[matchSaBegin, matchSaEnd]` by `matchLength` characters. With one
      string there is nothing to merge and the event is answered "done".
      Otherwise the event commits the merge of that string with the first
      eligible right string and answers whether it did.
     */
    method Callback(readLexRank: SizeT, matchLength: SizeT, matchSaBegin: SizeT, matchSaEnd: SizeT)
      returns (done: bool)
      requires Valid()
      requires nStrings >= 1
      requires nStrings >= 2 ==> 1 <= readLexRank <= nStrings && matchSaEnd < nStrings
      modifies this`merges, leftend, rightavailable
      ensures Valid()
      ensures nStrings == 1 ==> done && merges == old(merges) && unchanged(leftend, rightavailable)
      ensures nStrings >= 2 ==>
        var k := FirstEligible(old(rightavailable[..]), (readLexRank - 1) as nat, matchSaBegin, matchSaEnd);
        && (done <==> k < nStrings)
        && (done ==>
              && merges == old(merges) + [Merge((readLexRank - 1) as nat, k, matchLength)]
              && rightavailable[..] == old(rightavailable[..])[k := false]
              && leftend[..] == old(leftend[..])[k := old(leftend[(readLexRank - 1) as nat])])
        && (!done ==> merges == old(merges) && unchanged(leftend, rightavailable))
    {
      if mergesDone >= nStrings - 1 {
        return true;
      }
      var lexRank := readLexRank - 1;
      ghost var available := rightavailable[..];
      TwoScansFindFirstEligible(available, lexRank, matchSaBegin, matchSaEnd);
      WrapIncDec(matchSaBegin);

      var k := NextRightAvailable(WrapDec(matchSaBegin));
      if k > matchSaEnd {
        return false;
      }
      // An available string is still its own chain root, so this attempt
      // fails exactly when k is the left string itself.
      assert leftend[k] == k;
      var ok := TryMerge(lexRank, k, matchLength);
      if ok {
        return true;
      }
      assert k == lexRank && rightavailable[..] == available;
      assert WrapInc(k) == k + 1;

      k := NextRightAvailable(k);
      if k > matchSaEnd {
        return false;
      }
      assert leftend[k] == k;
      ok := TryMerge(lexRank, k, matchLength);
      return ok;
    }

    /**
      Sorts the merge list and concatenates as the code is written (see
      AssembleAsWritten). With fewer than two strings the state is untouched.
     */
    method BuildFinalSuperstring(strings: seq<string>) returns (superstring: string)
      requires Valid()
      requires |strings| == nStrings
      requires |strings| >= 2 ==> AssemblyDefined(strings, Sort(merges), rightavailable[..])
      modifies this`merges
      ensures Valid()
      ensures |strings| <= 1 ==> merges == old(merges)
      ensures |strings| >= 2 ==> merges == Sort(old(merges))
      ensures superstring == AssembleAsWritten(strings, merges, rightavailable[..])
    {
      if |strings| == 0 {
        return "";
      }
      if |strings| == 1 {
        return strings[0];
      }

      PermutationPreserves(leftend[..], rightavailable[..], merges, Sort(merges));
      merges := Sort(merges);
      var currentStringIdx := nStrings;

      var i := 0;
      while i < nStrings
        invariant 0 <= i <= nStrings
        invariant forall j :: 0 <= j < i ==> !rightavailable[j]
      {
        if rightavailable[i] {
          currentStringIdx := i;
          break;
        }
        i := i + 1;
      }
      assert currentStringIdx == NextAvailable(rightavailable[..], 0);

      superstring := "";
      ghost var m := merges[currentStringIdx];
      ghost var piece := Suffix(strings[m.left], m.right);
      i := 0;
      while i < nStrings - 1
        invariant 0 <= i <= nStrings - 1
        invariant superstring == Repeat(piece, i) + (if i == nStrings - 1 then strings[m.right] else [])
      {
        var leftStringIdx := merges[currentStringIdx].left;
        var rightStringIdx := merges[currentStringIdx].right;
        var overlap := merges[currentStringIdx].right;

        superstring := superstring + strings[leftStringIdx][|strings[leftStringIdx]| - overlap..];
        if i == nStrings - 2 {
          superstring := superstring + strings[rightStringIdx];
        }
        leftStringIdx := rightStringIdx;
        i := i + 1;
      }
    }
  }
}
