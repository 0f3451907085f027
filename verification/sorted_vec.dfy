/**
 A growable vector with the two in-place operations that make a list canonical: sorting, and
 dropping consecutive repeats. Over any total order the result depends on the elements alone.
 */
module SortedVec {

  // ---- Orders --------------------------------------------------------------------

  ghost predicate IsTotal<T(!new)>(leq: (T, T) -> bool) {
    forall x, y :: leq(x, y) || leq(y, x)
  }

  ghost predicate IsAntisymmetric<T(!new)>(leq: (T, T) -> bool) {
    forall x, y :: leq(x, y) && leq(y, x) ==> x == y
  }

  ghost predicate IsTransitive<T(!new)>(leq: (T, T) -> bool) {
    forall x, y, z :: leq(x, y) && leq(y, z) ==> leq(x, z)
  }

  ghost predicate IsTotalOrder<T(!new)>(leq: (T, T) -> bool) {
    IsTotal(leq) && IsAntisymmetric(leq) && IsTransitive(leq)
  }

  ghost predicate IsSorted<T>(leq: (T, T) -> bool, s: seq<T>) {
    forall i, j :: 0 <= i < j < |s| ==> leq(s[i], s[j])
  }

  /** Sorted without repeats. */
  ghost predicate IsStrictlySorted<T>(leq: (T, T) -> bool, s: seq<T>) {
    forall i, j :: 0 <= i < j < |s| ==> leq(s[i], s[j]) && s[i] != s[j]
  }

  ghost predicate SameElements<T(!new)>(s: seq<T>, t: seq<T>) {
    forall x :: x in s <==> x in t
  }

  // ---- What dropping repeats does --------------------------------------------------

  /** `Vec::dedup`: of each run of equal neighbours, the first stays. */
  function Dedup<T(==)>(s: seq<T>): seq<T> {
    if |s| <= 1 then s
    else if s[|s| - 1] == s[|s| - 2] then Dedup(s[..|s| - 1])
    else Dedup(s[..|s| - 1]) + [s[|s| - 1]]
  }

  lemma {:induction false} DedupKeepsElements<T(!new)>(s: seq<T>)
    ensures SameElements(Dedup(s), s)
    ensures s != [] ==> Dedup(s) != [] && Dedup(s)[|Dedup(s)| - 1] == s[|s| - 1]
    ensures |Dedup(s)| <= |s|
  {
    if |s| > 1 {
      var init := s[..|s| - 1];
      DedupKeepsElements(init);
      assert s == init + [s[|s| - 1]];
      assert init[|init| - 1] == s[|s| - 2];
    }
  }

  /** One more element: it stays exactly when it differs from the last one kept. */
  lemma DedupGrows<T(!new)>(s: seq<T>, r: nat)
    requires 1 <= r < |s|
    ensures var d := Dedup(s[..r]);
            d != [] && Dedup(s[..r + 1]) == if s[r] == d[|d| - 1] then d else d + [s[r]]
  {
    assert s[..r + 1][..r] == s[..r];
    DedupKeepsElements(s[..r]);
  }

  lemma {:induction false} DedupOfSorted<T(!new)>(leq: (T, T) -> bool, s: seq<T>)
    requires IsTotalOrder(leq) && IsSorted(leq, s)
    ensures IsStrictlySorted(leq, Dedup(s))
  {
    if |s| > 1 {
      var init, last := s[..|s| - 1], s[|s| - 1];
      DedupOfSorted(leq, init);
      DedupKeepsElements(init);
      if last != s[|s| - 2] {
        var d := Dedup(init);
        forall i | 0 <= i < |d| ensures leq(d[i], last) && d[i] != last {
          assert d[i] in d;
          var k :| 0 <= k < |init| && init[k] == d[i];
          assert leq(s[k], last) && leq(s[k], s[|s| - 2]);
          assert leq(s[|s| - 2], last);
        }
      }
    }
  }

  // ---- Canonicity ---------------------------------------------------------------------

  lemma HeadIsLeast<T(!new)>(leq: (T, T) -> bool, s: seq<T>, x: T)
    requires IsTotalOrder(leq) && IsStrictlySorted(leq, s) && x in s
    ensures leq(s[0], x)
  {
    var i :| 0 <= i < |s| && s[i] == x;
    if i == 0 {
      assert leq(x, x);
    }
  }

  lemma NonemptyTogether<T(!new)>(s: seq<T>, t: seq<T>)
    requires SameElements(s, t) && t != []
    ensures s != [] && t[0] in s
  {
    assert t[0] in t;
  }

  /** Strictly sorted sequences with the same elements are equal. */
  lemma {:induction false} StrictlySortedUnique<T(!new)>(leq: (T, T) -> bool, s: seq<T>, t: seq<T>)
    requires IsTotalOrder(leq) && IsStrictlySorted(leq, s) && IsStrictlySorted(leq, t)
    requires SameElements(s, t)
    ensures s == t
  {
    if t != [] {
      NonemptyTogether(s, t);
    }
    if s != [] {
      NonemptyTogether(t, s);
      HeadIsLeast(leq, s, t[0]);
      HeadIsLeast(leq, t, s[0]);
      var s', t' := s[1..], t[1..];
      forall x ensures x in s' <==> x in t' {
        RestOfStrict(leq, s, x);
        RestOfStrict(leq, t, x);
      }
      StrictlySortedUnique(leq, s', t');
      assert s == [s[0]] + s' && t == [t[0]] + t';
    }
  }

  lemma RestOfStrict<T>(leq: (T, T) -> bool, s: seq<T>, x: T)
    requires IsStrictlySorted(leq, s) && s != []
    ensures x in s[1..] <==> x in s && x != s[0]
  {
    assert s == [s[0]] + s[1..];
    if x in s[1..] {
      var k :| 0 <= k < |s[1..]| && s[1..][k] == x;
      assert s[k + 1] == x;
    }
  }

  /** Sorted but for pairs ending at `j`, where only the direct neighbour is known to be in order. */
  ghost predicate IsSortedExcept<T>(leq: (T, T) -> bool, s: seq<T>, j: nat) {
    && j < |s|
    && (forall a, b :: 0 <= a < b < |s| && b != j ==> leq(s[a], s[b]))
    && (j > 0 ==> leq(s[j - 1], s[j]))
  }

  lemma SunkIsSorted<T(!new)>(leq: (T, T) -> bool, s: seq<T>, j: nat)
    requires IsTransitive(leq) && IsSortedExcept(leq, s, j)
    ensures IsSorted(leq, s)
  {
    forall a | 0 <= a < j ensures leq(s[a], s[j]) {
      if a < j - 1 {
        assert leq(s[a], s[j - 1]) && leq(s[j - 1], s[j]);
      }
    }
  }

  // ---- The vector -------------------------------------------------------------------------

  class Vec<T(==, !new)> {
    var buf: array<T>
    var len: nat

    ghost predicate Valid()
      reads this
    {
      len <= buf.Length
    }

    ghost function Contents(): seq<T>
      reads this, buf
      requires Valid()
    {
      buf[..len]
    }

    /** A vector collecting `items`. */
    constructor (items: seq<T>)
      ensures Valid() && fresh(buf) && Contents() == items
    {
      buf := new T[|items|](i requires 0 <= i < |items| => items[i]);
      len := |items|;
    }

    /** Swap element `i` down until the one before it is no larger. */
    method Sink(leq: (T, T) -> bool, i: nat) returns (ghost j: nat)
      requires Valid() && i < len && IsTotal(leq) && IsSorted(leq, buf[..i])
      modifies buf
      ensures IsSortedExcept(leq, buf[..i + 1], j)
      ensures forall k :: i < k < buf.Length ==> buf[k] == old(buf[k])
      ensures multiset(buf[..]) == old(multiset(buf[..]))
    {
      var k := i;
      assert forall a, b :: 0 <= a < b < i ==> leq(buf[..i][a], buf[..i][b]);
      while k > 0 && !leq(buf[k - 1], buf[k])
        invariant 0 <= k <= i
        invariant forall a, b :: 0 <= a < b <= i && b != k ==> leq(buf[a], buf[b])
        invariant forall m :: i < m < buf.Length ==> buf[m] == old(buf[m])
        invariant multiset(buf[..]) == old(multiset(buf[..]))
      {
        buf[k - 1], buf[k] := buf[k], buf[k - 1];
        k := k - 1;
      }
      j := k;
    }

    /** Sink element `i` into the sorted elements before it. */
    method Insert(leq: (T, T) -> bool, i: nat)
      requires Valid() && i < len && IsTotalOrder(leq) && IsSorted(leq, buf[..i])
      modifies buf
      ensures IsSorted(leq, buf[..i + 1])
      ensures forall k :: i < k < buf.Length ==> buf[k] == old(buf[k])
      ensures multiset(buf[..]) == old(multiset(buf[..]))
    {
      ghost var j := Sink(leq, i);
      SunkIsSorted(leq, buf[..i + 1], j);
    }

    /** `sort_unstable`, by insertion. */
    method Sort(leq: (T, T) -> bool)
      requires Valid() && IsTotalOrder(leq)
      modifies buf
      ensures Valid() && IsSorted(leq, Contents())
      ensures multiset(Contents()) == old(multiset(Contents()))
    {
      ghost var tail := buf[len..];
      assert buf[..] == buf[..len] + tail;
      assert multiset(buf[..]) == multiset(Contents()) + multiset(tail);
      assert multiset(Contents()) == multiset(buf[..]) - multiset(tail);
      for i := 0 to len
        invariant len == old(len) && buf == old(buf)
        invariant IsSorted(leq, buf[..i])
        invariant buf[len..] == tail
        invariant multiset(buf[..]) == old(multiset(buf[..]))
      {
        Insert(leq, i);
      }
      assert buf[..] == buf[..len] + tail;
      assert multiset(buf[..]) == multiset(Contents()) + multiset(tail);
      assert multiset(Contents()) == multiset(buf[..]) - multiset(tail);
    }

    /** `dedup`: compact in place, then cut off the rest. */
    method DropRepeats()
      requires Valid()
      modifies this`len, buf
      ensures Valid() && buf == old(buf)
      ensures Contents() == Dedup(old(Contents()))
    {
      ghost var s := Contents();
      if len <= 1 { return; }
      var w := 1;
      for r := 1 to len
        invariant 1 <= w <= r && len == |s| && buf == old(buf)
        invariant buf[..w] == Dedup(s[..r])
        invariant forall k :: r <= k < len ==> buf[k] == s[k]
      {
        ghost var d := Dedup(s[..r]);
        DedupGrows(s, r);
        assert buf[r] == s[r] && buf[w - 1] == d[w - 1];
        if buf[r] != buf[w - 1] {
          buf[w] := buf[r];
          w := w + 1;
          assert buf[..w - 1] == d && buf[w - 1] == s[r];
        }
      }
      assert s[..len] == s;
      len := w;
    }
  }
}
