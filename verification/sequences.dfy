/**
 Reference definitions of the list operations on plain sequences.

 Each operation of the linked list is specified against one of these
 functions; each function is in turn tied to an independent, index-wise
 description by a lemma, so that a contract stated with them says what the
 resulting contents are, not how the list computes them.
 */
module Sequences {

  /** No value occurs twice in `s`. */
  ghost predicate Distinct<T>(s: seq<T>) {
    forall i, j :: 0 <= i < j < |s| ==> s[i] != s[j]
  }

  /** The set of values occurring in `s`. */
  function Elems<T>(s: seq<T>): set<T> {
    set x | x in s
  }

  /** The number of occurrences of `x` in `s`. */
  function Count<T(==)>(s: seq<T>, x: T): (n: nat)
    ensures n <= |s|
    ensures n == 0 <==> x !in s
  {
    if |s| == 0 then 0
    else (if s[0] == x then 1 else 0) + Count(s[1..], x)
  }

  /** The position of the first occurrence of `x` in `s`. */
  function IndexOf<T(==)>(s: seq<T>, x: T): (k: nat)
    requires x in s
    ensures k < |s| && s[k] == x
    ensures forall i :: 0 <= i < k ==> s[i] != x
  {
    if s[0] == x then 0 else 1 + IndexOf(s[1..], x)
  }

  /** In a sequence without repetitions, a value's position is its only one. */
  lemma IndexOfDistinct<T>(s: seq<T>, k: nat)
    requires Distinct(s) && k < |s|
    ensures IndexOf(s, s[k]) == k
  {
  }

  /** `s` without its position `k`. */
  function RemoveAt<T>(s: seq<T>, k: nat): (r: seq<T>)
    requires k < |s|
    ensures |r| == |s| - 1
    ensures forall i :: 0 <= i < |r| ==> r[i] == (if i < k then s[i] else s[i + 1])
  {
    s[..k] + s[k + 1..]
  }

  /** `s` with its first `x` replaced by `v`. */
  function ReplaceFirst<T(==)>(s: seq<T>, x: T, v: T): seq<T> {
    if |s| == 0 then []
    else if s[0] == x then [v] + s[1..]
    else [s[0]] + ReplaceFirst(s[1..], x, v)
  }

  /** Replacing the first `x` changes exactly the position `IndexOf(s, x)`, and nothing when `x` is absent. */
  lemma {:induction false} ReplaceFirstAt<T>(s: seq<T>, x: T, v: T)
    ensures x !in s ==> ReplaceFirst(s, x, v) == s
    ensures x in s ==> ReplaceFirst(s, x, v) == s[IndexOf(s, x) := v]
  {
    if |s| > 0 && s[0] != x {
      ReplaceFirstAt(s[1..], x, v);
      assert s == [s[0]] + s[1..];
      if x in s {
        assert x in s[1..];
      }
    }
  }

  /** `s` with every `x` replaced by `v`. */
  function ReplaceAll<T(==)>(s: seq<T>, x: T, v: T): seq<T> {
    if |s| == 0 then []
    else [if s[0] == x then v else s[0]] + ReplaceAll(s[1..], x, v)
  }

  /** Replacing every `x` rewrites exactly the positions holding `x`, and keeps the length. */
  lemma {:induction false} ReplaceAllAt<T>(s: seq<T>, x: T, v: T)
    ensures |ReplaceAll(s, x, v)| == |s|
    ensures forall i :: 0 <= i < |s| ==> ReplaceAll(s, x, v)[i] == (if s[i] == x then v else s[i])
  {
    if |s| > 0 {
      ReplaceAllAt(s[1..], x, v);
    }
  }

  /** `s` without its first `x`. */
  function RemoveFirst<T(==)>(s: seq<T>, x: T): seq<T> {
    if |s| == 0 then []
    else if s[0] == x then s[1..]
    else [s[0]] + RemoveFirst(s[1..], x)
  }

  /** Removing the first `x` cuts out exactly the position `IndexOf(s, x)`, and nothing when `x` is absent. */
  lemma {:induction false} RemoveFirstAt<T>(s: seq<T>, x: T)
    ensures x !in s ==> RemoveFirst(s, x) == s
    ensures x in s ==> RemoveFirst(s, x) == RemoveAt(s, IndexOf(s, x))
  {
    if |s| > 0 && s[0] != x {
      RemoveFirstAt(s[1..], x);
      assert s == [s[0]] + s[1..];
      if x in s {
        assert x in s[1..];
        var k := IndexOf(s[1..], x);
        assert IndexOf(s, x) == k + 1;
        var r, tail, e := RemoveFirst(s, x), RemoveAt(s[1..], k), RemoveAt(s, k + 1);
        assert r == [s[0]] + tail;
        forall i | 0 <= i < |r| ensures r[i] == e[i] {
          if i > 0 {
            assert r[i] == tail[i - 1];
          }
        }
        assert r == e;
      }
    }
  }

  /** `s` without any `x`: the order of the other values is kept. */
  function RemoveAll<T(==)>(s: seq<T>, x: T): seq<T> {
    if |s| == 0 then []
    else if s[0] == x then RemoveAll(s[1..], x)
    else [s[0]] + RemoveAll(s[1..], x)
  }

  /**
   Removing every `x` leaves no `x`, removes exactly `Count(s, x)` values, and
   keeps every other value with its multiplicity.
   */
  lemma {:induction false} RemoveAllSpec<T>(s: seq<T>, x: T)
    ensures x !in RemoveAll(s, x)
    ensures |RemoveAll(s, x)| == |s| - Count(s, x)
    ensures multiset(RemoveAll(s, x)) == multiset(s)[x := 0]
  {
    if |s| > 0 {
      RemoveAllSpec(s[1..], x);
      assert s == [s[0]] + s[1..];
      assert multiset(s) == multiset{s[0]} + multiset(s[1..]);
    }
  }

  /** `s` read backwards. */
  function Reverse<T>(s: seq<T>): seq<T> {
    if |s| == 0 then [] else Reverse(s[1..]) + [s[0]]
  }

  /** The value at position `i` of the reverse is the one at the mirrored position of `s`. */
  lemma {:induction false} ReverseAt<T>(s: seq<T>)
    ensures |Reverse(s)| == |s|
    ensures forall i :: 0 <= i < |s| ==> Reverse(s)[i] == s[|s| - 1 - i]
  {
    if |s| > 0 {
      ReverseAt(s[1..]);
    }
  }

  /** Reversing twice gives the sequence back. */
  lemma ReverseInvolution<T>(s: seq<T>)
    ensures Reverse(Reverse(s)) == s
  {
    ReverseAt(s);
    ReverseAt(Reverse(s));
  }

  /** Where the value at position `m` stands once positions `i` and `j` are exchanged. */
  function SwappedPosition(i: nat, j: nat, m: nat): nat {
    if m == i then j else if m == j then i else m
  }

  /** `s` with the values at positions `i` and `j` exchanged. */
  function Swap<T>(s: seq<T>, i: nat, j: nat): seq<T>
    requires i < |s| && j < |s|
  {
    s[i := s[j]][j := s[i]]
  }

  /** Position `m` of the exchanged sequence holds what stood at `SwappedPosition(i, j, m)`. */
  lemma SwapAt<T>(s: seq<T>, i: nat, j: nat, m: nat)
    requires i < |s| && j < |s| && m < |s|
    ensures |Swap(s, i, j)| == |s|
    ensures Swap(s, i, j)[m] == s[SwappedPosition(i, j, m)]
  {
  }

  /** An exchange keeps a sequence free of repetitions. */
  lemma SwapDistinct<T>(s: seq<T>, i: nat, j: nat)
    requires Distinct(s) && i < |s| && j < |s|
    ensures Distinct(Swap(s, i, j))
  {
    var r := Swap(s, i, j);
    forall a, b | 0 <= a < b < |r| ensures r[a] != r[b] {
      SwapAt(s, i, j, a);
      SwapAt(s, i, j, b);
    }
  }

  /** Exchanging the same two positions twice gives the sequence back; an exchange keeps the multiset. */
  lemma SwapInvolution<T>(s: seq<T>, i: nat, j: nat)
    requires i < |s| && j < |s|
    ensures Swap(Swap(s, i, j), j, i) == s
    ensures multiset(Swap(s, i, j)) == multiset(s)
  {
  }
}
