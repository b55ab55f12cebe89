/**
 * Sequence-level specifications of the linked list's operations: the value a
 * reversal produces, the position a deletion by value removes, and what a
 * removal leaves behind.
 */
module Seqs {

  /** The elements of `s` in the opposite order. */
  function Reversed<T>(s: seq<T>): (r: seq<T>)
    ensures |r| == |s|
  {
    if s == [] then [] else [s[|s| - 1]] + Reversed(s[..|s| - 1])
  }

  /** Position `i` of the reversal holds position `|s| - 1 - i` of the original. */
  lemma {:induction false} ReversedAt<T>(s: seq<T>, i: nat)
    requires i < |s|
    ensures Reversed(s)[i] == s[|s| - 1 - i]
  {
    if i > 0 {
      ReversedAt(s[..|s| - 1], i - 1);
    }
  }

  /** Reversing twice gives back the original order. */
  lemma ReversedTwice<T>(s: seq<T>)
    ensures Reversed(Reversed(s)) == s
  {
    forall i | 0 <= i < |s|
      ensures Reversed(Reversed(s))[i] == s[i]
    {
      ReversedAt(s, |s| - 1 - i);
      ReversedAt(Reversed(s), i);
    }
  }

  /** The reversal holds the same elements, as many times each. */
  lemma {:induction false} ReversedSameElements<T>(s: seq<T>)
    ensures multiset(Reversed(s)) == multiset(s)
  {
    if s != [] {
      ReversedSameElements(s[..|s| - 1]);
      assert s == s[..|s| - 1] + [s[|s| - 1]];
    }
  }

  /**
   * The position of the first occurrence of `v` in `s`, or `|s|` when `v`
   * does not occur: the node a deletion by value unlinks.
   */
  function FirstIndex<T(==)>(s: seq<T>, v: T): (k: nat)
    ensures k <= |s|
    ensures k < |s| ==> s[k] == v
    ensures forall j :: 0 <= j < k ==> s[j] != v
  {
    if s == [] then 0
    else if s[0] == v then 0
    else 1 + FirstIndex(s[1..], v)
  }

  /** No element occurs twice in `s`. */
  ghost predicate Distinct<T>(s: seq<T>) {
    forall i, j :: 0 <= i < j < |s| ==> s[i] != s[j]
  }

  /** A reversal of distinct elements is again distinct. */
  lemma ReversedDistinct<T>(s: seq<T>)
    requires Distinct(s)
    ensures Distinct(Reversed(s))
  {
    forall i, j | 0 <= i < j < |s|
      ensures Reversed(s)[i] != Reversed(s)[j]
    {
      ReversedAt(s, i);
      ReversedAt(s, j);
    }
  }

  /** `s` without its element at position `k`. */
  function RemoveAt<T>(s: seq<T>, k: nat): (r: seq<T>)
    requires k < |s|
    ensures |r| == |s| - 1
  {
    if k == 0 then s[1..] else [s[0]] + RemoveAt(s[1..], k - 1)
  }

  /** Positions before `k` keep their element; later ones take their right neighbour's. */
  lemma {:induction false} RemoveAtAt<T>(s: seq<T>, k: nat, j: nat)
    requires k < |s| && j < |s| - 1
    ensures RemoveAt(s, k)[j] == if j < k then s[j] else s[j + 1]
  {
    if k > 0 && j > 0 {
      RemoveAtAt(s[1..], k - 1, j - 1);
    }
  }

  /** Removing an element from distinct elements leaves distinct elements. */
  lemma RemoveAtDistinct<T>(s: seq<T>, k: nat)
    requires k < |s| && Distinct(s)
    ensures Distinct(RemoveAt(s, k))
  {
    forall i, j | 0 <= i < j < |s| - 1
      ensures RemoveAt(s, k)[i] != RemoveAt(s, k)[j]
    {
      RemoveAtAt(s, k, i);
      RemoveAtAt(s, k, j);
    }
  }

  /** Removing position `k` takes away one copy of `s[k]` and nothing else. */
  lemma {:induction false} RemoveAtMultiset<T>(s: seq<T>, k: nat)
    requires k < |s|
    ensures multiset(RemoveAt(s, k)) == multiset(s) - multiset{s[k]}
  {
    assert s == [s[0]] + s[1..];
    if k > 0 {
      RemoveAtMultiset(s[1..], k - 1);
    }
  }

  /** Removing the first occurrence of `v` takes away exactly one `v` and nothing else. */
  lemma RemoveFirstOccurrence<T>(s: seq<T>, v: T)
    requires v in s
    ensures FirstIndex(s, v) < |s|
    ensures multiset(RemoveAt(s, FirstIndex(s, v))) == multiset(s) - multiset{v}
  {
    RemoveAtMultiset(s, FirstIndex(s, v));
  }

  /**
   * After removing the first occurrence of `v`, `v` is still present exactly
   * when `s` held it at least twice.
   */
  lemma StillPresentAfterRemoval<T>(s: seq<T>, v: T)
    requires v in s
    ensures FirstIndex(s, v) < |s|
    ensures v in RemoveAt(s, FirstIndex(s, v)) <==> multiset(s)[v] >= 2
  {
    RemoveFirstOccurrence(s, v);
    var r := RemoveAt(s, FirstIndex(s, v));
    assert v in r <==> v in multiset(r);
  }
}
