/** The ordering of body keys before hashing:
    `postParams.sort((a, b) => a.toLowerCase().localeCompare(b.toLowerCase()))`.
    The comparator says two keys are equal when they are equal up to case,
    and `Array.prototype.sort` is stable, so such keys keep their insertion
    order. The specification is a stable insertion sort on sequences
    (`SortKeys`); `SortInPlace` performs it on the array. */
module KeySort {
  import opened Text

  /** The comparator's "negative" answer: `a` sorts strictly before `b`. */
  predicate KeyLess(a: string, b: string) {
    StrLess(Lower(a), Lower(b))
  }

  /** Keys that the comparator calls equal. */
  predicate SameCase(a: string, b: string) {
    Lower(a) == Lower(b)
  }

  /** `a` may sort before `b` (the comparator does not put `b` first). */
  lemma KeyLessTotal(a: string, b: string)
    ensures !KeyLess(b, a) <==> SameCase(a, b) || KeyLess(a, b)
  {
    StrLessTotal(Lower(a), Lower(b));
    StrLessAsymmetric(Lower(a), Lower(b));
    StrLessIrreflexive(Lower(a));
  }

  lemma KeyNotLessTransitive(a: string, b: string, c: string)
    requires !KeyLess(b, a) && !KeyLess(c, b)
    ensures !KeyLess(c, a)
  {
    KeyLessTotal(a, b);
    KeyLessTotal(b, c);
    KeyLessTotal(a, c);
    if KeyLess(a, b) && KeyLess(b, c) {
      StrLessTransitive(Lower(a), Lower(b), Lower(c));
    }
  }

  predicate Sorted(s: seq<string>) {
    forall i, j :: 0 <= i < j < |s| ==> !KeyLess(s[j], s[i])
  }

  /** No two keys are equal up to case. */
  predicate CaseDistinct(s: seq<string>) {
    forall i, j :: 0 <= i < j < |s| ==> !SameCase(s[i], s[j])
  }

  /** The keys of `s` that are equal to `l` up to case, in their order in `s`. */
  function WithCase(s: seq<string>, l: string): (r: seq<string>)
    decreases |s|
  {
    if s == [] then []
    else WithCase(s[..|s| - 1], l) + (if Lower(s[|s| - 1]) == l then [s[|s| - 1]] else [])
  }

  /** One step of insertion sort: `x` moves left past every key that sorts
      strictly after it, and stops behind the first one that does not. */
  function Insert(x: string, s: seq<string>): (r: seq<string>)
    ensures |r| == |s| + 1
    decreases |s|
  {
    if s == [] then [x]
    else if KeyLess(x, s[|s| - 1]) then Insert(x, s[..|s| - 1]) + [s[|s| - 1]]
    else s + [x]
  }

  /** The stable sort the handlers get from `Array.prototype.sort`. */
  function SortKeys(s: seq<string>): (r: seq<string>)
    ensures |r| == |s|
    decreases |s|
  {
    if s == [] then [] else Insert(s[|s| - 1], SortKeys(s[..|s| - 1]))
  }

  /** Where `Insert` puts `x`: every key after it sorts strictly after `x`,
      and the key just before it does not. */
  lemma {:induction false} InsertSplit(x: string, s: seq<string>) returns (k: nat)
    ensures k <= |s| && Insert(x, s) == s[..k] + [x] + s[k..]
    ensures forall i :: k <= i < |s| ==> KeyLess(x, s[i])
    ensures k > 0 ==> !KeyLess(x, s[k - 1])
    decreases |s|
  {
    if s == [] {
      k := 0;
    } else if KeyLess(x, s[|s| - 1]) {
      var init := s[..|s| - 1];
      k := InsertSplit(x, init);
      assert init[..k] == s[..k];
      assert init[k..] + [s[|s| - 1]] == s[k..];
      forall i | k <= i < |s|
        ensures KeyLess(x, s[i])
      {
        if i < |s| - 1 {
          assert s[i] == init[i];
        }
      }
      assert k > 0 ==> s[k - 1] == init[k - 1];
    } else {
      k := |s|;
      assert s[..k] == s && s[k..] == [];
    }
  }

  lemma InsertMultiset(x: string, s: seq<string>)
    ensures multiset(Insert(x, s)) == multiset(s) + multiset{x}
  {
    var k := InsertSplit(x, s);
    assert s == s[..k] + s[k..];
  }

  lemma InsertSorted(x: string, s: seq<string>)
    requires Sorted(s)
    ensures Sorted(Insert(x, s))
  {
    var k := InsertSplit(x, s);
    var r := Insert(x, s);
    forall i, j | 0 <= i < j < |r|
      ensures !KeyLess(r[j], r[i])
    {
      SplitIndex(s, x, k, i);
      SplitIndex(s, x, k, j);
      if i == k {
        StrLessAsymmetric(Lower(x), Lower(s[j - 1]));
      } else if j == k && i < k - 1 {
        KeyNotLessTransitive(s[i], s[k - 1], x);
      }
    }
  }

  /** The keys of `s[..k] + [x] + s[k..]`, position by position. */
  lemma SplitIndex(s: seq<string>, x: string, k: nat, i: nat)
    requires k <= |s| && i <= |s|
    ensures (s[..k] + [x] + s[k..])[i] == if i < k then s[i] else if i == k then x else s[i - 1]
  {
  }

  lemma WithCaseAppend(a: seq<string>, b: seq<string>, l: string)
    ensures WithCase(a + b, l) == WithCase(a, l) + WithCase(b, l)
    decreases |b|
  {
    if b == [] {
      assert a + b == a;
    } else {
      assert (a + b)[..|a + b| - 1] == a + b[..|b| - 1];
      WithCaseAppend(a, b[..|b| - 1], l);
    }
  }

  lemma WithCaseNone(s: seq<string>, l: string)
    requires forall i :: 0 <= i < |s| ==> Lower(s[i]) != l
    ensures WithCase(s, l) == []
    decreases |s|
  {
    if s != [] {
      WithCaseNone(s[..|s| - 1], l);
    }
  }

  /** Inserting `x` appends it to the keys of its own case and changes the
      order of no other keys. */
  lemma InsertWithCase(x: string, s: seq<string>, l: string)
    ensures WithCase(Insert(x, s), l) == WithCase(s, l) + (if Lower(x) == l then [x] else [])
  {
    var k := InsertSplit(x, s);
    var tail := s[k..];
    WithCaseAppend(s[..k] + [x], tail, l);
    WithCaseAppend(s[..k], [x], l);
    WithCaseAppend(s[..k], tail, l);
    assert s == s[..k] + tail;
    assert WithCase([x], l) == (if Lower(x) == l then [x] else []) by {
      assert [x][..0] == [];
    }
    if Lower(x) == l {
      forall i | 0 <= i < |tail| ensures Lower(tail[i]) != l {
        StrLessIrreflexive(l);
      }
      WithCaseNone(tail, l);
    }
  }

  lemma InsertCaseDistinct(x: string, s: seq<string>)
    requires CaseDistinct(s)
    requires forall i :: 0 <= i < |s| ==> !SameCase(s[i], x)
    ensures CaseDistinct(Insert(x, s))
  {
    var k := InsertSplit(x, s);
    var r := Insert(x, s);
    forall i, j | 0 <= i < j < |r|
      ensures !SameCase(r[i], r[j])
    {
      SplitIndex(s, x, k, i);
      SplitIndex(s, x, k, j);
    }
  }

  /** The sorted keys are a permutation of the input. */
  lemma {:induction false} SortKeysPermutation(s: seq<string>)
    ensures multiset(SortKeys(s)) == multiset(s)
    decreases |s|
  {
    if s != [] {
      var init := s[..|s| - 1];
      SortKeysPermutation(init);
      InsertMultiset(s[|s| - 1], SortKeys(init));
      assert s == init + [s[|s| - 1]];
    }
  }

  /** The sorted keys are in comparator order. */
  lemma {:induction false} SortKeysSorted(s: seq<string>)
    ensures Sorted(SortKeys(s))
    decreases |s|
  {
    if s != [] {
      SortKeysSorted(s[..|s| - 1]);
      InsertSorted(s[|s| - 1], SortKeys(s[..|s| - 1]));
    }
  }

  /** Stability: keys equal up to case come out in their insertion order. */
  lemma {:induction false} SortKeysStable(s: seq<string>, l: string)
    ensures WithCase(SortKeys(s), l) == WithCase(s, l)
    decreases |s|
  {
    if s != [] {
      var init := s[..|s| - 1];
      SortKeysStable(init, l);
      InsertWithCase(s[|s| - 1], SortKeys(init), l);
    }
  }

  lemma {:induction false} SortKeysCaseDistinct(s: seq<string>)
    requires CaseDistinct(s)
    ensures CaseDistinct(SortKeys(s))
    decreases |s|
  {
    if s != [] {
      var init := s[..|s| - 1];
      var x := s[|s| - 1];
      SortKeysCaseDistinct(init);
      var t := SortKeys(init);
      SortKeysPermutation(init);
      forall i | 0 <= i < |t| ensures !SameCase(t[i], x) {
        assert t[i] in multiset(init);
        var j :| 0 <= j < |init| && init[j] == t[i];
        assert s[j] == t[i];
      }
      InsertCaseDistinct(x, t);
    }
  }

  /** Two sorted arrangements of one collection of case-distinct keys
      start with the same key. */
  lemma SortedSameHead(a: seq<string>, b: seq<string>)
    requires Sorted(a) && Sorted(b) && CaseDistinct(a)
    requires |a| > 0 && multiset(a) == multiset(b)
    ensures |b| > 0 && a[0] == b[0]
  {
    assert a[0] in multiset(b);
    assert b[0] in multiset(a);
    var j :| 0 <= j < |b| && b[j] == a[0];
    var i :| 0 <= i < |a| && a[i] == b[0];
    if i > 0 && j > 0 {
      assert !KeyLess(b[j], b[0]) && !KeyLess(a[i], a[0]);
      KeyLessTotal(b[0], a[0]);
      KeyLessTotal(a[0], b[0]);
      assert false;
    }
  }

  lemma DropHead(a: seq<string>)
    requires |a| > 0
    ensures multiset(a[1..]) == multiset(a) - multiset{a[0]}
    ensures Sorted(a) ==> Sorted(a[1..])
    ensures CaseDistinct(a) ==> CaseDistinct(a[1..])
  {
    assert a == [a[0]] + a[1..];
  }

  /** Among keys pairwise distinct up to case, there is one sorted
      arrangement of a given collection. */
  lemma {:induction false} SortedUnique(a: seq<string>, b: seq<string>)
    requires Sorted(a) && Sorted(b) && CaseDistinct(a) && CaseDistinct(b)
    requires multiset(a) == multiset(b)
    ensures a == b
    decreases |a|
  {
    if a == [] {
      assert |b| == |multiset(b)| == 0;
    } else {
      SortedSameHead(a, b);
      var a', b' := a[1..], b[1..];
      assert a == [a[0]] + a' && b == [b[0]] + b';
      DropHead(a);
      DropHead(b);
      SortedUnique(a', b');
    }
  }

  /** For keys pairwise distinct up to case, the sorted order does not
      depend on the order the keys arrived in. */
  lemma SortKeysOrderIndependent(s: seq<string>, t: seq<string>)
    requires CaseDistinct(s) && CaseDistinct(t)
    requires multiset(s) == multiset(t)
    ensures SortKeys(s) == SortKeys(t)
  {
    SortKeysPermutation(s);
    SortKeysPermutation(t);
    SortKeysSorted(s);
    SortKeysSorted(t);
    SortKeysCaseDistinct(s);
    SortKeysCaseDistinct(t);
    SortedUnique(SortKeys(s), SortKeys(t));
  }

  /** The in-place sort of `postParams`: a stable insertion sort. */
  method SortInPlace(a: array<string>)
    modifies a
    ensures a[..] == SortKeys(old(a[..]))
  {
    ghost var input := a[..];
    var i := 0;
    while i < a.Length
      invariant 0 <= i <= a.Length
      invariant a[..i] == SortKeys(input[..i])
      invariant a[i..] == input[i..]
    {
      assert a[i] == input[i];
      InsertInPlace(a, i);
      assert input[..i + 1][..i] == input[..i];
      assert SortKeys(input[..i + 1]) == Insert(input[i], SortKeys(input[..i]));
      assert a[i + 1..] == input[i + 1..];
      i := i + 1;
    }
    assert a[..] == a[..a.Length] && input == input[..a.Length];
  }

  /** Moves `a[i]` left while it sorts strictly before its neighbour. */
  method InsertInPlace(a: array<string>, i: nat)
    requires i < a.Length
    modifies a
    ensures a[..i + 1] == Insert(old(a[i]), old(a[..i]))
    ensures a[i + 1..] == old(a[i + 1..])
  {
    ghost var s := a[..i];
    ghost var rest := a[i + 1..];
    var x := a[i];
    var j := i;
    assert a[..] == a[..i] + [a[i]] + a[i + 1..];
    assert s[..i] == s && s[i..] == [];
    while j > 0 && KeyLess(a[j], a[j - 1])
      invariant 0 <= j <= i
      invariant a[..] == s[..j] + [x] + s[j..] + rest
      invariant Insert(x, s) == Insert(x, s[..j]) + s[j..]
    {
      ghost var before := a[..];
      assert before[j] == x && before[j - 1] == s[j - 1];
      SwapStep(s, x, rest, j);
      InsertPastLast(x, s, j);
      a[j - 1], a[j] := a[j], a[j - 1];
      assert a[..] == before[j - 1 := x][j := s[j - 1]];
      j := j - 1;
    }
    InsertStops(x, s, j);
    assert a[..][..i + 1] == s[..j] + [x] + s[j..];
  }

  /** Swapping `x` with the key before it moves it one place left. */
  lemma SwapStep(s: seq<string>, x: string, rest: seq<string>, j: nat)
    requires 0 < j <= |s|
    ensures (s[..j] + [x] + s[j..] + rest)[j - 1 := x][j := s[j - 1]] == s[..j - 1] + [x] + s[j - 1..] + rest
  {
    var u := (s[..j] + [x] + s[j..] + rest)[j - 1 := x][j := s[j - 1]];
    var v := s[..j - 1] + [x] + s[j - 1..] + rest;
    forall k | 0 <= k < |u|
      ensures u[k] == v[k]
    {
      if k > j {
        assert u[k] == (s[j..] + rest)[k - j - 1];
        assert v[k] == (s[j - 1..] + rest)[k - j];
      }
    }
  }

  /** While `x` sorts before the key at `j - 1`, it belongs further left. */
  lemma InsertPastLast(x: string, s: seq<string>, j: nat)
    requires 0 < j <= |s| && KeyLess(x, s[j - 1])
    requires Insert(x, s) == Insert(x, s[..j]) + s[j..]
    ensures Insert(x, s) == Insert(x, s[..j - 1]) + s[j - 1..]
  {
    assert s[..j][..j - 1] == s[..j - 1];
    assert s[j - 1..] == [s[j - 1]] + s[j..];
  }

  /** Once `x` no longer sorts before its left neighbour, it stays there. */
  lemma InsertStops(x: string, s: seq<string>, j: nat)
    requires j <= |s| && (j > 0 ==> !KeyLess(x, s[j - 1]))
    requires Insert(x, s) == Insert(x, s[..j]) + s[j..]
    ensures Insert(x, s) == s[..j] + [x] + s[j..]
  {
  }
}
