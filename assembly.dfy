/**
  The final assembly step as the source performs it: the merge list is put into
  lexicographic order of its triples, the scan for the first still-available
  string picks a position, and the loop concatenates pieces of the strings.
 */
module Assembly {
  import opened Registry

  /** Lexicographic order on `(left, right, overlap)` triples, as std::sort orders std::tuple. */
  predicate MergeLe(a: Merge, b: Merge) {
    || a.left < b.left
    || (a.left == b.left && a.right < b.right)
    || (a.left == b.left && a.right == b.right && a.overlap <= b.overlap)
  }

  predicate Sorted(ms: seq<Merge>) {
    forall i, j :: 0 <= i < j < |ms| ==> MergeLe(ms[i], ms[j])
  }

  /** Every element of `tail` that is `m` or comes from `s[1..]` is at least `s[0]`. */
  lemma HeadBelowAll(m: Merge, s: seq<Merge>, tail: seq<Merge>)
    requires Sorted(s) && s != [] && !MergeLe(m, s[0])
    requires multiset(tail) == multiset(s[1..]) + multiset{m}
    ensures forall x :: x in tail ==> MergeLe(s[0], x)
  {
    forall x | x in tail ensures MergeLe(s[0], x) {
      assert x in multiset(tail);
      if x != m {
        assert x in multiset(s[1..]);
        var i :| 0 <= i < |s[1..]| && s[1..][i] == x;
        assert s[i + 1] == x;
      }
    }
  }

  /** Insertion of one record into a sorted list. */
  function Insert(m: Merge, s: seq<Merge>): (r: seq<Merge>)
    requires Sorted(s)
    ensures Sorted(r)
    ensures multiset(r) == multiset(s) + multiset{m}
  {
    if s == [] then [m]
    else if MergeLe(m, s[0]) then
      assert forall j :: 0 <= j < |s| ==> MergeLe(m, s[j]) by {
        forall j | 0 <= j < |s| ensures MergeLe(m, s[j]) {
          if j > 0 { assert MergeLe(s[0], s[j]); }
        }
      }
      [m] + s
    else
      var tail := Insert(m, s[1..]);
      assert s == [s[0]] + s[1..];
      HeadBelowAll(m, s, tail);
      assert forall j :: 0 <= j < |tail| ==> MergeLe(s[0], tail[j]) by {
        forall j | 0 <= j < |tail| ensures MergeLe(s[0], tail[j]) {
          assert tail[j] in tail;
        }
      }
      [s[0]] + tail
  }

  /** The merge list in lexicographic order: a sorted permutation of its input. */
  function Sort(ms: seq<Merge>): (r: seq<Merge>)
    ensures Sorted(r)
    ensures multiset(r) == multiset(ms)
  {
    if ms == [] then []
    else
      assert ms == [ms[0]] + ms[1..];
      Insert(ms[0], Sort(ms[1..]))
  }

  /**
    A sorted permutation is unique, so Sort describes std::sort's result
    exactly, whatever algorithm the library uses.
   */
  lemma {:induction false} SortedPermutationUnique(a: seq<Merge>, b: seq<Merge>)
    requires Sorted(a) && Sorted(b)
    requires multiset(a) == multiset(b)
    ensures a == b
    decreases |a|
  {
    assert |a| == |multiset(a)| == |multiset(b)| == |b|;
    if a != [] {
      assert a[0] in multiset(b);
      var i :| 0 <= i < |b| && b[i] == a[0];
      assert MergeLe(b[0], a[0]) by {
        if i > 0 { assert MergeLe(b[0], b[i]); }
      }
      assert b[0] in multiset(a);
      var j :| 0 <= j < |a| && a[j] == b[0];
      assert MergeLe(a[0], b[0]) by {
        if j > 0 { assert MergeLe(a[0], a[j]); }
      }
      assert a[0] == b[0];
      assert a == [a[0]] + a[1..];
      assert b == [b[0]] + b[1..];
      assert multiset(a[1..]) == multiset(a) - multiset{a[0]};
      assert multiset(b[1..]) == multiset(b) - multiset{b[0]};
      SortedPermutationUnique(a[1..], b[1..]);
    }
  }

  /**
    Sorting an already sorted list changes nothing: a second assembly over the
    same state sorts to the same list and so builds the same string.
   */
  lemma SortIdempotent(ms: seq<Merge>)
    ensures Sort(Sort(ms)) == Sort(ms)
  {
    SortedPermutationUnique(Sort(Sort(ms)), Sort(ms));
  }

  /** The last `k` characters of `s` (`s.substr(s.size() - k)`). */
  function Suffix(s: string, k: nat): (r: string)
    requires k <= |s|
    ensures |r| == k
  {
    s[|s| - k..]
  }

  /** `p` written `k` times. */
  function Repeat(p: string, k: nat): (r: string)
    ensures |r| == k * |p|
  {
    if k == 0 then [] else Repeat(p, k - 1) + p
  }

  /**
    What the concatenation loop needs of the sorted merge list: some string is
    still available, the position that scan finds is a position of the merge
    list, and the record there names strings whose lengths allow the substring.
   */
  predicate AssemblyDefined(strings: seq<string>, sorted: seq<Merge>, avail: seq<bool>) {
    var head := NextAvailable(avail, 0);
    && head < |avail|
    && head < |sorted|
    && sorted[head].left < |strings|
    && sorted[head].right < |strings|
    && sorted[head].right <= |strings[sorted[head].left]|
  }

  /**
    The string build_final_superstring returns for `strings`, the sorted merge
    list and the availability flags, as the code is written: the record at the
    position of the first available string is read on every one of the
    `|strings| - 1` iterations, its right index is used as the overlap, the
    last that many characters of its left string are appended each time, and
    its right string is appended once at the end.
   */
  function AssembleAsWritten(strings: seq<string>, sorted: seq<Merge>, avail: seq<bool>): string
    requires |strings| >= 2 ==> AssemblyDefined(strings, sorted, avail)
  {
    if |strings| == 0 then ""
    else if |strings| == 1 then strings[0]
    else
      var m := sorted[NextAvailable(avail, 0)];
      Repeat(Suffix(strings[m.left], m.right), |strings| - 1) + strings[m.right]
  }

  /**
    For two or more strings the length of the result is fixed by one record:
    `|strings| - 1` times its right index, plus the length of its right string.
    Neither the recorded overlaps nor the other strings enter it.
   */
  lemma AsWrittenLength(strings: seq<string>, sorted: seq<Merge>, avail: seq<bool>)
    requires |strings| >= 2 && AssemblyDefined(strings, sorted, avail)
    ensures var m := sorted[NextAvailable(avail, 0)];
      |AssembleAsWritten(strings, sorted, avail)| == (|strings| - 1) * m.right + |strings[m.right]|
  {
  }

  /**
    Two merge lists that agree on the left and right index of the record at the
    head position assemble to the same string: every other record, and every
    overlap length, is ignored.
   */
  lemma AsWrittenReadsOneRecord(strings: seq<string>, s1: seq<Merge>, s2: seq<Merge>, avail: seq<bool>)
    requires |strings| >= 2 && AssemblyDefined(strings, s1, avail)
    requires NextAvailable(avail, 0) < |s2|
    requires s2[NextAvailable(avail, 0)].left == s1[NextAvailable(avail, 0)].left
    requires s2[NextAvailable(avail, 0)].right == s1[NextAvailable(avail, 0)].right
    ensures AssemblyDefined(strings, s2, avail)
    ensures AssembleAsWritten(strings, s2, avail) == AssembleAsWritten(strings, s1, avail)
  {
  }

  /**
    The three-string example of an overlap chain: "banana" overlaps "anaconda"
    by 3, "anaconda" overlaps "dashing" by 2. The chain's superstring would be
    "bananacondashing"; the code as written returns "aaanaconda".
   */
  lemma AsWrittenBanana()
    ensures AssembleAsWritten(["banana", "anaconda", "dashing"],
                              [Merge(0, 1, 3), Merge(1, 2, 2)],
                              [true, false, false]) == "aaanaconda"
  {
    assert NextAvailable([true, false, false], 0) == 0;
    assert Suffix("banana", 1) == "a";
    assert Repeat("a", 2) == "aa" by {
      assert Repeat("a", 1) == "a";
    }
  }
}
