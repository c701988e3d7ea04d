/** pandas' `duplicated(keep='first')` and `drop_duplicates(keep='first')`
    over a sequence of rows: an entry is a duplicate when it equals an
    earlier entry, and dropping duplicates keeps every other entry, in
    order. */
module Dedup {

  /** No value occurs twice in `s`. */
  predicate NoDuplicates<T(==)>(s: seq<T>) {
    forall i, j :: 0 <= i < j < |s| ==> s[i] != s[j]
  }

  /** Entry `i` of `s` equals some entry before it. */
  predicate Duplicated<T(==)>(s: seq<T>, i: nat)
    requires i < |s|
  {
    s[i] in s[..i]
  }

  /** Whether an entry is a duplicate depends only on the entries up to it. */
  lemma DuplicatedInPrefix<T>(s: seq<T>, n: nat, i: nat)
    requires i < n <= |s|
    ensures Duplicated(s[..n], i) == Duplicated(s, i)
  {
    assert s[..n][..i] == s[..i];
  }

  /** The indices of the entries that are not duplicates, ascending: exactly
      the first occurrence of each distinct value. */
  function KeptIndices<T(==)>(s: seq<T>): (idx: seq<nat>)
    ensures forall k :: 0 <= k < |idx| ==> idx[k] < |s| && !Duplicated(s, idx[k])
    ensures forall k, l :: 0 <= k < l < |idx| ==> idx[k] < idx[l]
    ensures forall i :: 0 <= i < |s| && !Duplicated(s, i) ==> i in idx
    ensures |idx| <= |s|
  {
    if s == [] then []
    else
      var n := |s| - 1;
      var prev := KeptIndices(s[..n]);
      forall k | 0 <= k < |prev| ensures !Duplicated(s, prev[k]) {
        DuplicatedInPrefix(s, n, prev[k]);
      }
      forall i | 0 <= i < n && !Duplicated(s, i) ensures i in prev {
        DuplicatedInPrefix(s, n, i);
      }
      prev + (if Duplicated(s, n) then [] else [n])
  }

  /** The entries of `s` at the positions `idx`. */
  function Pick<T>(s: seq<T>, idx: seq<nat>): (r: seq<T>)
    requires forall k :: 0 <= k < |idx| ==> idx[k] < |s|
    ensures |r| == |idx|
    ensures forall k :: 0 <= k < |idx| ==> r[k] == s[idx[k]]
  {
    seq(|idx|, k requires 0 <= k < |idx| => s[idx[k]])
  }

  /** `drop_duplicates(keep='first')`: the entries that are not duplicates. */
  function KeepFirst<T(==)>(s: seq<T>): (r: seq<T>)
    ensures |r| <= |s|
    ensures forall k :: 0 <= k < |r| ==> r[k] in s
  {
    Pick(s, KeptIndices(s))
  }

  /** After dropping duplicates no two entries are equal. */
  lemma KeepFirstNoDuplicates<T>(s: seq<T>)
    ensures NoDuplicates(KeepFirst(s))
  {
    var idx := KeptIndices(s);
    var r := KeepFirst(s);
    forall k, l | 0 <= k < l < |r| ensures r[k] != r[l] {
      assert idx[k] < idx[l];
      assert s[idx[k]] in s[..idx[l]];
    }
  }

  /** The first index at which `x` occurs in `s`. */
  function FirstIndex<T(==)>(s: seq<T>, x: T): (i: nat)
    requires x in s
    ensures i < |s| && s[i] == x && x !in s[..i]
  {
    if s[0] == x then 0
    else
      assert x in s[1..];
      var i := FirstIndex(s[1..], x);
      assert s[..i + 1] == [s[0]] + s[1..][..i];
      i + 1
  }

  /** Dropping duplicates loses no value and invents none. */
  lemma {:induction false} KeepFirstSameValues<T>(s: seq<T>, x: T)
    ensures x in KeepFirst(s) <==> x in s
  {
    var idx := KeptIndices(s);
    if x in s {
      var i := FirstIndex(s, x);
      assert !Duplicated(s, i);
      var k :| 0 <= k < |idx| && idx[k] == i;
      assert KeepFirst(s)[k] == x;
    }
  }

  /** A kept entry is the first occurrence of its value, and the kept
      entries appear in the order of their first occurrences. */
  lemma KeepFirstOrder<T>(s: seq<T>, k: nat, l: nat)
    requires k < l < |KeepFirst(s)|
    ensures KeepFirst(s)[k] in s && KeepFirst(s)[l] in s
    ensures FirstIndex(s, KeepFirst(s)[k]) < FirstIndex(s, KeepFirst(s)[l])
  {
    var idx := KeptIndices(s);
    var r := KeepFirst(s);
    FirstIsKept(s, idx[k]);
    FirstIsKept(s, idx[l]);
  }

  /** An entry that is not a duplicate is where its value first occurs. */
  lemma FirstIsKept<T>(s: seq<T>, i: nat)
    requires i < |s| && !Duplicated(s, i)
    ensures FirstIndex(s, s[i]) == i
  {
    var f := FirstIndex(s, s[i]);
    assert forall j :: 0 <= j < i ==> s[..i][j] == s[j] && s[j] != s[i];
    assert forall j :: 0 <= j < f ==> s[..f][j] == s[j] && s[j] != s[i];
  }

  /** In a sequence without repeats no entry is a duplicate, so every index
      is kept. */
  lemma {:induction false} KeptIndicesOfDistinct<T>(s: seq<T>)
    requires NoDuplicates(s)
    ensures KeptIndices(s) == seq(|s|, i => i)
  {
    if s != [] {
      var n := |s| - 1;
      assert NoDuplicates(s[..n]);
      KeptIndicesOfDistinct(s[..n]);
      assert !Duplicated(s, n) by {
        assert forall j :: 0 <= j < n ==> s[..n][j] == s[j] && s[j] != s[n];
      }
    }
  }

  /** Dropping duplicates a second time changes nothing. */
  lemma KeepFirstOfDistinct<T>(s: seq<T>)
    requires NoDuplicates(s)
    ensures KeepFirst(s) == s
  {
    KeptIndicesOfDistinct(s);
  }

  /** Splitting a sequence without repeats into its head and tail: the tail
      has no repeats and does not hold the head. */
  lemma HeadAndTail<T>(s: seq<T>)
    requires NoDuplicates(s) && s != []
    ensures NoDuplicates(s[1..]) && s[0] !in s[1..]
    ensures forall x :: x in s <==> x == s[0] || x in s[1..]
  {
    assert s == [s[0]] + s[1..];
    assert forall i :: 0 <= i < |s| - 1 ==> s[1..][i] == s[i + 1] != s[0];
  }
}
