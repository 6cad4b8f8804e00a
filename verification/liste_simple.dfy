/**
 The singly linked list of integers (`ListeSimple`): a head link `tete`
 into the arena of cells and a `size` counter.

 The list's abstract meaning is the chain of cells reached from `tete`
 (`Order`) and the elements along it (`Contents`). `Valid` is the class
 invariant: that chain is finite, visits no cell twice and has exactly
 `size` cells. A cell unlinked by a removal stays in the arena, unreachable,
 as it would on the Java heap until collected. Every operation is stated
 against these two sequences.
 */
module Listes {
  import opened Wrappers
  import opened Sequences
  import opened Noeuds
  import Text

  datatype ListeSimple = ListeSimple(tas: Tas, tete: Option<Id>, size: nat)

  /** The link to position `k` of the chain `o`: `None` one past its end. */
  function Ptr(o: seq<Id>, k: nat): Option<Id> {
    if k < |o| then Some(o[k]) else None
  }

  /** `o` is the chain of cells met by following links from `start` until `null`. */
  ghost predicate IsChain(tas: Tas, start: Option<Id>, o: seq<Id>) {
    && Distinct(o)
    && (forall i :: 0 <= i < |o| ==> o[i] in tas)
    && start == Ptr(o, 0)
    && (forall i {:trigger tas[o[i]]} :: 0 <= i < |o| ==> tas[o[i]].suivant == Ptr(o, i + 1))
  }

  /** The cells met by following at most `n` links from `p`. */
  function Walk(tas: Tas, p: Option<Id>, n: nat): seq<Id>
    decreases n
  {
    if n == 0 || p.None? || p.value !in tas then []
    else [p.value] + Walk(tas, tas[p.value].suivant, n - 1)
  }

  /** The cells of the list, head first. */
  function Order(l: ListeSimple): seq<Id> {
    Walk(l.tas, l.tete, l.size)
  }

  /** The class invariant: `size` counts the cells reachable from `tete`, which end in `null`. */
  ghost predicate Valid(l: ListeSimple) {
    var o := Order(l);
    && |o| == l.size
    && IsChain(l.tas, l.tete, o)
  }

  /** The elements of the cells `o`. */
  function Values(tas: Tas, o: seq<Id>): (vs: seq<int>)
    requires forall i :: 0 <= i < |o| ==> o[i] in tas
    ensures |vs| == |o|
    ensures forall i {:trigger vs[i]} :: 0 <= i < |o| ==> vs[i] == tas[o[i]].element
  {
    seq(|o|, i requires 0 <= i < |o| => tas[o[i]].element)
  }

  /** The integers in the list, head first. */
  ghost function Contents(l: ListeSimple): seq<int>
    requires Valid(l)
  {
    Values(l.tas, Order(l))
  }

  /** The elements along a concatenation are the concatenated elements. */
  lemma ValuesConcat(tas: Tas, a: seq<Id>, b: seq<Id>)
    requires forall i :: 0 <= i < |a| ==> a[i] in tas
    requires forall i :: 0 <= i < |b| ==> b[i] in tas
    ensures Values(tas, a + b) == Values(tas, a) + Values(tas, b)
  {
    var ab := a + b;
    assert forall i :: 0 <= i < |ab| ==> ab[i] in tas by {
      forall i | 0 <= i < |ab| ensures ab[i] in tas {
        if i >= |a| {
          assert ab[i] == b[i - |a|];
        }
      }
    }
    var vs, expected := Values(tas, ab), Values(tas, a) + Values(tas, b);
    forall k | 0 <= k < |vs| ensures vs[k] == expected[k] {
      if k >= |a| {
        assert ab[k] == b[k - |a|];
      }
    }
    assert vs == expected;
  }

  /** Elements read from two arenas that agree on the elements of the cells `o` are the same. */
  lemma ValuesFrame(tas: Tas, tas': Tas, o: seq<Id>)
    requires forall i :: 0 <= i < |o| ==> o[i] in tas && o[i] in tas'
    requires forall i {:trigger tas'[o[i]]} :: 0 <= i < |o| ==> tas'[o[i]].element == tas[o[i]].element
    ensures Values(tas, o) == Values(tas', o)
  {
  }

  /** Following the links of a chain visits exactly that chain. */
  lemma {:induction false} ChainWalk(tas: Tas, start: Option<Id>, o: seq<Id>)
    requires IsChain(tas, start, o)
    ensures Walk(tas, start, |o|) == o
    decreases |o|
  {
    if |o| > 0 {
      var rest := o[1..];
      assert forall i :: 0 <= i < |rest| ==> tas[rest[i]].suivant == Ptr(rest, i + 1) by {
        forall i | 0 <= i < |rest| ensures tas[rest[i]].suivant == Ptr(rest, i + 1) {
          assert rest[i] == o[i + 1];
          assert tas[o[i + 1]].suivant == Ptr(o, i + 2);
        }
      }
      assert IsChain(tas, tas[o[0]].suivant, rest);
      ChainWalk(tas, tas[o[0]].suivant, rest);
    }
  }

  /** A state whose head leads along the chain `o`, counting and owning exactly its cells, is valid with order `o`. */
  lemma Establish(l: ListeSimple, o: seq<Id>)
    requires IsChain(l.tas, l.tete, o)
    requires l.size == |o|
    ensures Valid(l) && Order(l) == o
  {
    ChainWalk(l.tas, l.tete, o);
  }

  /** The empty list, as built by the default constructor. */
  function Vide(): (l: ListeSimple)
    ensures Valid(l) && Contents(l) == []
  {
    ListeSimple(map[], None, 0)
  }

  /** `getSize`. */
  function GetSize(l: ListeSimple): (n: nat)
    requires Valid(l)
    ensures n == |Contents(l)|
  {
    l.size
  }

  /** `ajout`: a new cell holding `e` is put in front of the others. */
  function Ajout(l: ListeSimple, e: int): (r: ListeSimple)
    requires Valid(l)
    ensures Valid(r)
    ensures Contents(r) == [e] + Contents(l)
    ensures r.tete.Some? && r.tete.value !in l.tas
    ensures Order(r) == [r.tete.value] + Order(l)
    ensures r.size == l.size + 1
  {
    var (tas, id) := New(l.tas, e, l.tete);
    var r := ListeSimple(tas, Some(id), l.size + 1);
    AjoutChain(l, r, id);
    AjoutContents(l.tas, r.tas, id, Order(l));
    r
  }

  lemma AjoutChain(l: ListeSimple, r: ListeSimple, id: Id)
    requires Valid(l)
    requires id !in l.tas && r.tete == Some(id)
    requires r.tas.Keys == l.tas.Keys + {id}
    requires forall q :: q in l.tas ==> r.tas[q] == l.tas[q]
    requires r.tas[id].suivant == l.tete
    requires r.size == l.size + 1
    ensures Valid(r) && Order(r) == [id] + Order(l)
  {
    var ol := Order(l);
    var o := [id] + ol;
    assert IsChain(r.tas, r.tete, o) by {
      forall i | 0 <= i < |o|
        ensures o[i] in r.tas && r.tas[o[i]].suivant == Ptr(o, i + 1)
      {
        if i > 0 {
          assert o[i] == ol[i - 1] && o[i] in l.tas;
          assert l.tas[ol[i - 1]].suivant == Ptr(ol, i);
        }
      }
    }
    Establish(r, o);
  }

  lemma AjoutContents(tas: Tas, tas': Tas, id: Id, o: seq<Id>)
    requires id in tas'
    requires forall i :: 0 <= i < |o| ==> o[i] in tas && o[i] in tas' && tas'[o[i]] == tas[o[i]]
    ensures Values(tas', [id] + o) == [tas'[id].element] + Values(tas, o)
  {
    ValuesConcat(tas', [id], o);
    ValuesFrame(tas, tas', o);
  }

  /** Rewriting elements without touching any link keeps the chain. */
  lemma SameLinks(l: ListeSimple, r: ListeSimple)
    requires Valid(l)
    requires r.tete == l.tete && r.size == l.size && r.tas.Keys == l.tas.Keys
    requires forall q :: q in l.tas ==> r.tas[q].suivant == l.tas[q].suivant
    ensures Valid(r) && Order(r) == Order(l)
  {
    var o := Order(l);
    assert IsChain(r.tas, r.tete, o) by {
      forall i | 0 <= i < |o| ensures r.tas[o[i]].suivant == Ptr(o, i + 1) {
        assert l.tas[o[i]].suivant == Ptr(o, i + 1);
      }
    }
    Establish(r, o);
  }

  /** Writing the element of the cell at position `k` changes the elements at that position only. */
  lemma ValuesSetElement(tas: Tas, o: seq<Id>, k: nat, v: int)
    requires Distinct(o) && k < |o|
    requires forall i :: 0 <= i < |o| ==> o[i] in tas
    ensures Values(SetElement(tas, o[k], v), o) == Values(tas, o)[k := v]
  {
    var vs, expected := Values(SetElement(tas, o[k], v), o), Values(tas, o)[k := v];
    forall i | 0 <= i < |o| ensures vs[i] == expected[i] {
      if i != k {
        assert o[i] != o[k];
      }
    }
    assert vs == expected;
  }

  /** `modifiePremier`: the first cell holding `x`, if there is one, now holds `v`; no link changes. */
  method ModifiePremier(l: ListeSimple, x: int, v: int) returns (r: ListeSimple)
    requires Valid(l)
    ensures Valid(r)
    ensures Order(r) == Order(l)
    ensures Contents(r) == ReplaceFirst(Contents(l), x, v)
  {
    ghost var o := Order(l);
    ghost var c := Contents(l);
    var courant := l.tete;
    ghost var k := 0;
    while courant.Some? && GetElement(l.tas, courant.value) != x
      invariant k <= |o| && courant == Ptr(o, k)
      invariant forall i :: 0 <= i < k ==> c[i] != x
      decreases |o| - k
    {
      assert c[k] == l.tas[o[k]].element;
      assert l.tas[o[k]].suivant == Ptr(o, k + 1);
      courant := GetSuivant(l.tas, courant.value);
      k := k + 1;
    }
    ReplaceFirstAt(c, x, v);
    if courant.Some? {
      assert c[k] == x;
      r := l.(tas := SetElement(l.tas, courant.value, v));
      SameLinks(l, r);
      ValuesSetElement(l.tas, o, k, v);
    } else {
      r := l;
    }
  }

  /** `modifieTous`: every cell holding `x` now holds `v`, every other cell and every link is unchanged. */
  method ModifieTous(l: ListeSimple, x: int, v: int) returns (r: ListeSimple)
    requires Valid(l)
    ensures Valid(r)
    ensures Order(r) == Order(l)
    ensures Contents(r) == ReplaceAll(Contents(l), x, v)
  {
    ghost var o := Order(l);
    ghost var c := Contents(l);
    var tas := l.tas;
    var courant := l.tete;
    ghost var k := 0;
    while courant.Some?
      invariant k <= |o| && courant == Ptr(o, k)
      invariant tas.Keys == l.tas.Keys
      invariant forall q :: q in l.tas ==> tas[q].suivant == l.tas[q].suivant
      invariant forall i :: 0 <= i < |o| ==>
                  tas[o[i]].element == (if i < k && l.tas[o[i]].element == x then v else l.tas[o[i]].element)
      decreases |o| - k
    {
      assert l.tas[o[k]].suivant == Ptr(o, k + 1);
      if GetElement(tas, courant.value) == x {
        tas := SetElement(tas, courant.value, v);
        forall i | 0 <= i < |o| && i != k ensures o[i] != o[k] {
        }
      }
      courant := GetSuivant(tas, courant.value);
      k := k + 1;
    }
    r := l.(tas := tas);
    SameLinks(l, r);
    ValuesReplaceAll(l.tas, tas, o, x, v);
  }

  /** Elements rewritten position by position as `ReplaceAll` prescribes read as `ReplaceAll` of the old ones. */
  lemma ValuesReplaceAll(tas: Tas, tas': Tas, o: seq<Id>, x: int, v: int)
    requires forall i :: 0 <= i < |o| ==> o[i] in tas && o[i] in tas'
    requires forall i :: 0 <= i < |o| ==>
               tas'[o[i]].element == (if tas[o[i]].element == x then v else tas[o[i]].element)
    ensures Values(tas', o) == ReplaceAll(Values(tas, o), x, v)
  {
    var c := Values(tas, o);
    ReplaceAllAt(c, x, v);
    var vs, expected := Values(tas', o), ReplaceAll(c, x, v);
    forall i | 0 <= i < |o| ensures vs[i] == expected[i] {
      assert c[i] == tas[o[i]].element;
    }
    assert vs == expected;
  }

  /** The chain `o` with its cell at position `k` bypassed: by moving the head when `k == 0`, else by relinking the predecessor. */
  lemma {:induction false} BypassChain(tas: Tas, start: Option<Id>, o: seq<Id>, k: nat, tas': Tas, start': Option<Id>)
    requires IsChain(tas, start, o) && k < |o|
    requires k == 0 ==> tas' == tas && start' == tas[o[0]].suivant
    requires k > 0 ==> tas' == SetSuivant(tas, o[k - 1], tas[o[k]].suivant) && start' == start
    ensures IsChain(tas', start', RemoveAt(o, k))
  {
    var o' := RemoveAt(o, k);
    assert Distinct(o');
    forall i | 0 <= i < |o'|
      ensures o'[i] in tas' && tas'[o'[i]].suivant == Ptr(o', i + 1)
    {
      if i < k - 1 {
        assert tas[o[i]].suivant == Ptr(o, i + 1);
      } else if i == k - 1 {
        assert tas[o[k]].suivant == Ptr(o, k + 1);
      } else {
        if k > 0 {
          assert o[i + 1] != o[k - 1];
        }
        assert tas[o[i + 1]].suivant == Ptr(o, i + 2);
      }
    }
    if k == 0 {
      assert tas[o[0]].suivant == Ptr(o, 1);
    }
  }

  /** Elements along `o` with position `k` cut out are the old elements with position `k` cut out. */
  lemma ValuesBypass(tas: Tas, tas': Tas, o: seq<Id>, k: nat)
    requires k < |o|
    requires forall i :: 0 <= i < |o| ==> o[i] in tas && o[i] in tas'
    requires forall i {:trigger tas'[o[i]]} :: 0 <= i < |o| ==> tas'[o[i]].element == tas[o[i]].element
    ensures Values(tas', RemoveAt(o, k)) == RemoveAt(Values(tas, o), k)
  {
    var o' := RemoveAt(o, k);
    var c := Values(tas, o);
    var vs, expected := Values(tas', o'), RemoveAt(c, k);
    forall i | 0 <= i < |vs| ensures vs[i] == expected[i] {
      if i < k {
        assert c[i] == tas[o[i]].element;
      } else {
        assert c[i + 1] == tas[o[i + 1]].element;
      }
    }
    assert vs == expected;
  }

  /** Bypassing the cell at position `k` of a valid list, with `size` decremented, removes that position. */
  lemma Bypass(l: ListeSimple, k: nat, r: ListeSimple)
    requires Valid(l) && k < |Order(l)|
    requires k == 0 ==> r.tas == l.tas && r.tete == l.tas[Order(l)[0]].suivant
    requires k > 0 ==> r.tas == SetSuivant(l.tas, Order(l)[k - 1], l.tas[Order(l)[k]].suivant) && r.tete == l.tete
    requires r.size == l.size - 1
    ensures Valid(r)
    ensures Order(r) == RemoveAt(Order(l), k)
    ensures Contents(r) == RemoveAt(Contents(l), k)
  {
    var o := Order(l);
    BypassChain(l.tas, l.tete, o, k, r.tas, r.tete);
    Establish(r, RemoveAt(o, k));
    ValuesBypass(l.tas, r.tas, o, k);
  }

  /**
   `supprimePremier`: the first cell holding `x` is unlinked and `size`
   decremented; without such a cell the list is left as it was.
   */
  method SupprimePremier(l: ListeSimple, x: int) returns (r: ListeSimple)
    requires Valid(l)
    ensures Valid(r)
    ensures Contents(r) == RemoveFirst(Contents(l), x)
    ensures x !in Contents(l) ==> r == l
    ensures x in Contents(l) ==>
              var k := IndexOf(Contents(l), x);
              && r.size == l.size - 1
              && Order(r) == RemoveAt(Order(l), k)
  {
    ghost var o := Order(l);
    ghost var c := Contents(l);
    RemoveFirstAt(c, x);
    r := l;
    if l.tete.Some? {
      if GetElement(l.tas, l.tete.value) == x {
        assert c[0] == x;
        r := ListeSimple(l.tas, GetSuivant(l.tas, l.tete.value), l.size - 1);
        Bypass(l, 0, r);
        return;
      }
      var precedent, courant := ChercherPremier(l, x);
      if courant.Some? {
        ghost var k := IndexOf(c, x);
        r := ListeSimple(SetSuivant(l.tas, precedent, GetSuivant(l.tas, courant.value)), l.tete, l.size - 1);
        Bypass(l, k, r);
      }
    }
  }

  /**
   The scan of `supprimePremier` past a head that does not hold `x`: it
   walks `precedent` and `courant` down the chain until `courant` holds `x`
   or runs off the end. It stops on the first cell holding `x`, with
   `precedent` the cell just before it.
   */
  method ChercherPremier(l: ListeSimple, x: int) returns (precedent: Id, courant: Option<Id>)
    requires Valid(l) && l.tete.Some? && GetElement(l.tas, l.tete.value) != x
    ensures courant.None? <==> x !in Contents(l)
    ensures courant.Some? ==>
              var k := IndexOf(Contents(l), x);
              && 0 < k
              && courant == Some(Order(l)[k])
              && precedent == Order(l)[k - 1]
  {
    ghost var o := Order(l);
    ghost var c := Contents(l);
    precedent := l.tete.value;
    courant := GetSuivant(l.tas, precedent);
    ghost var k := 1;
    assert c[0] != x;
    assert l.tas[o[0]].suivant == Ptr(o, 1);
    while courant.Some? && GetElement(l.tas, courant.value) != x
      invariant 1 <= k <= |o|
      invariant precedent == o[k - 1] && courant == Ptr(o, k)
      invariant forall i :: 0 <= i < k ==> c[i] != x
      decreases |o| - k
    {
      assert c[k] == l.tas[o[k]].element;
      assert l.tas[o[k - 1]].suivant == Ptr(o, k);
      assert l.tas[o[k]].suivant == Ptr(o, k + 1);
      precedent := GetSuivant(l.tas, precedent).value;
      courant := GetSuivant(l.tas, courant.value);
      k := k + 1;
    }
    if courant.Some? {
      assert c[k] == x;
      assert IndexOf(c, x) == k;
    }
  }

  /** The cells of `o` whose element is not `x`, in their order along `o`. */
  ghost function Survivors(tas: Tas, o: seq<Id>, x: int): seq<Id>
    requires forall i :: 0 <= i < |o| ==> o[i] in tas
  {
    if |o| == 0 then []
    else if tas[o[0]].element == x then Survivors(tas, o[1..], x)
    else [o[0]] + Survivors(tas, o[1..], x)
  }

  /**
   The surviving cells are cells of `o`, none twice when `o` has none twice,
   in the order they have along `o`, and their elements are exactly
   `RemoveAll` of the elements along `o`.
   */
  lemma SurvivorsSpec(tas: Tas, o: seq<Id>, x: int)
    requires forall i :: 0 <= i < |o| ==> o[i] in tas
    ensures forall m :: 0 <= m < |Survivors(tas, o, x)| ==> Survivors(tas, o, x)[m] in o
    ensures Distinct(o) ==> Distinct(Survivors(tas, o, x))
    ensures Distinct(o) ==> forall a, b :: 0 <= a < b < |Survivors(tas, o, x)| ==>
              IndexOf(o, Survivors(tas, o, x)[a]) < IndexOf(o, Survivors(tas, o, x)[b])
    ensures Values(tas, Survivors(tas, o, x)) == RemoveAll(Values(tas, o), x)
  {
    SurvivorsElements(tas, o, x);
    if Distinct(o) {
      SurvivorsInOrder(tas, o, x);
    }
  }

  /** The surviving cells are cells of `o`, none twice, and hold `RemoveAll` of the elements along `o`. */
  lemma {:induction false} SurvivorsElements(tas: Tas, o: seq<Id>, x: int)
    requires forall i :: 0 <= i < |o| ==> o[i] in tas
    ensures forall m :: 0 <= m < |Survivors(tas, o, x)| ==> Survivors(tas, o, x)[m] in o
    ensures Distinct(o) ==> Distinct(Survivors(tas, o, x))
    ensures Values(tas, Survivors(tas, o, x)) == RemoveAll(Values(tas, o), x)
  {
    if |o| > 0 {
      var rest := o[1..];
      SurvivorsElements(tas, rest, x);
      var s, s1 := Survivors(tas, o, x), Survivors(tas, rest, x);
      forall m | 0 <= m < |s1| ensures s1[m] in o {
        assert s1[m] in rest;
      }
      if Distinct(o) && s != s1 {
        forall m | 0 <= m < |s1| ensures s1[m] != o[0] {
          var j :| 0 <= j < |rest| && rest[j] == s1[m];
          assert o[j + 1] == s1[m];
        }
      }
      var c := Values(tas, o);
      assert c == [tas[o[0]].element] + Values(tas, rest);
      if s != s1 {
        ValuesConcat(tas, [o[0]], s1);
      }
    }
  }

  /** The surviving cells sit at increasing positions `ps` along `o`. */
  lemma {:induction false} RangsSurvivants(tas: Tas, o: seq<Id>, x: int) returns (ps: seq<nat>)
    requires forall i :: 0 <= i < |o| ==> o[i] in tas
    ensures |ps| == |Survivors(tas, o, x)|
    ensures forall m :: 0 <= m < |ps| ==> ps[m] < |o| && o[ps[m]] == Survivors(tas, o, x)[m]
    ensures forall a, b :: 0 <= a < b < |ps| ==> ps[a] < ps[b]
  {
    if |o| == 0 {
      ps := [];
    } else {
      var r := RangsSurvivants(tas, o[1..], x);
      ps := Decale(o, Survivors(tas, o[1..], x), r, tas[o[0]].element != x);
    }
  }

  /**
   Positions `r` of `s1` along the tail of `o` become positions along `o`,
   with position 0 in front when the first cell is kept as well.
   */
  lemma Decale(o: seq<Id>, s1: seq<Id>, r: seq<nat>, garde: bool) returns (ps: seq<nat>)
    requires |o| > 0 && |r| == |s1|
    requires forall m :: 0 <= m < |r| ==> r[m] < |o| - 1 && o[1..][r[m]] == s1[m]
    requires forall a, b :: 0 <= a < b < |r| ==> r[a] < r[b]
    ensures var s := if garde then [o[0]] + s1 else s1;
      && |ps| == |s|
      && (forall m :: 0 <= m < |ps| ==> ps[m] < |o| && o[ps[m]] == s[m])
      && (forall a, b :: 0 <= a < b < |ps| ==> ps[a] < ps[b])
  {
    var shifted := seq(|r|, m requires 0 <= m < |r| => r[m] + 1);
    forall m | 0 <= m < |shifted| ensures shifted[m] < |o| && o[shifted[m]] == s1[m] {
      assert o[r[m] + 1] == o[1..][r[m]];
    }
    if garde {
      ps := [0] + shifted;
      var s := [o[0]] + s1;
      forall m | 0 < m < |ps| ensures ps[m] == shifted[m - 1] && s[m] == s1[m - 1] {
      }
    } else {
      ps := shifted;
    }
  }

  /** The surviving cells of a chain without repetitions appear in the order they have along it. */
  lemma SurvivorsInOrder(tas: Tas, o: seq<Id>, x: int)
    requires forall i :: 0 <= i < |o| ==> o[i] in tas
    requires Distinct(o)
    ensures forall m :: 0 <= m < |Survivors(tas, o, x)| ==> Survivors(tas, o, x)[m] in o
    ensures forall a, b :: 0 <= a < b < |Survivors(tas, o, x)| ==>
              IndexOf(o, Survivors(tas, o, x)[a]) < IndexOf(o, Survivors(tas, o, x)[b])
  {
    var s := Survivors(tas, o, x);
    var ps := RangsSurvivants(tas, o, x);
    forall m | 0 <= m < |s| ensures s[m] in o && IndexOf(o, s[m]) == ps[m] {
      IndexOfDistinct(o, ps[m]);
    }
  }

  /**
   What `supprimeTousRecurs` leaves behind once it has processed the chain of
   `l` from position `k`, returning the state `r` and the cell `h`: the kept
   cells `s` from `k` on are linked into a chain starting at `h`, `size` has
   lost one per removed cell, the links before `k` and every element are as
   in `l`, and no cell was added to or removed from the arena.
   */
  ghost predicate Traite(l: ListeSimple, x: int, k: nat, r: ListeSimple, h: Option<Id>)
    requires Valid(l) && k <= |Order(l)|
  {
    var o := Order(l);
    var s := Survivors(l.tas, o[k..], x);
    && r.tete == l.tete
    && |s| <= |o| - k
    && r.size == l.size - (|o| - k - |s|)
    && h == Ptr(s, 0)
    && r.tas.Keys == l.tas.Keys
    && (forall q {:trigger r.tas[q]} :: q in l.tas ==> r.tas[q].element == l.tas[q].element)
    && (forall i {:trigger r.tas[o[i]]} :: 0 <= i < k ==> r.tas[o[i]].suivant == l.tas[o[i]].suivant)
    && (forall m :: 0 <= m < |s| ==> s[m] in r.tas)
    && (forall m {:trigger r.tas[s[m]]} :: 0 <= m < |s| ==> r.tas[s[m]].suivant == Ptr(s, m + 1))
  }

  /**
   `supprimeTousRecurs`, called on the cell at position `k` of the chain of
   `l`: it first processes the rest of the chain, then drops this cell if it
   holds `x` (decrementing `size`) or else links it to the processed rest.
   The result is the new state and the first surviving cell from position `k`.
   Every descent happens before any write, so each call sees `l` itself.
   */
  function SupprimeTousRecurs(l: ListeSimple, x: int, p: Option<Id>, ghost k: nat): (res: (ListeSimple, Option<Id>))
    requires Valid(l) && k <= |Order(l)| && p == Ptr(Order(l), k)
    ensures Traite(l, x, k, res.0, res.1)
    decreases |Order(l)| - k
  {
    if p.None? then
      (l, None)
    else
      var (r1, suite) := SupprimeTousRecurs(l, x, GetSuivant(l.tas, p.value), k + 1);
      if GetElement(r1.tas, p.value) == x then
        Retirer(l, x, k, r1, suite);
        (r1.(size := r1.size - 1), suite)
      else
        Garder(l, x, k, r1, suite);
        (r1.(tas := SetSuivant(r1.tas, p.value, suite)), p)
  }

  /** Dropping the cell at position `k`, which holds `x`, leaves the processed rest as it is, with one cell fewer in `size`. */
  lemma Retirer(l: ListeSimple, x: int, k: nat, r1: ListeSimple, suite: Option<Id>)
    requires Valid(l) && k < |Order(l)|
    requires Traite(l, x, k + 1, r1, suite)
    requires Order(l)[k] in r1.tas && r1.tas[Order(l)[k]].element == x
    ensures Traite(l, x, k, r1.(size := r1.size - 1), suite)
  {
  }

  /** Linking the cell at position `k`, which does not hold `x`, to the processed rest puts it in front of the kept chain. */
  lemma Garder(l: ListeSimple, x: int, k: nat, r1: ListeSimple, suite: Option<Id>)
    requires Valid(l) && k < |Order(l)|
    requires Traite(l, x, k + 1, r1, suite)
    requires Order(l)[k] in r1.tas && r1.tas[Order(l)[k]].element != x
    ensures Traite(l, x, k, r1.(tas := SetSuivant(r1.tas, Order(l)[k], suite)), Some(Order(l)[k]))
  {
    var o := Order(l);
    SurvivorsElements(l.tas, o[k + 1..], x);
    NotInSuffix(o, k);
    assert o[k..][1..] == o[k + 1..];
    RelieSurvivant(r1.tas, o[k], Survivors(l.tas, o[k + 1..], x), SetSuivant(r1.tas, o[k], suite));
  }

  /** Linking a kept cell `p` to the chain `s` of cells kept after it makes the chain `[p] + s`. */
  lemma RelieSurvivant(t1: Tas, p: Id, s: seq<Id>, t: Tas)
    requires p in t1 && p !in s
    requires forall m :: 0 <= m < |s| ==> s[m] in t1
    requires forall m :: 0 <= m < |s| ==> t1[s[m]].suivant == Ptr(s, m + 1)
    requires t == SetSuivant(t1, p, Ptr(s, 0))
    ensures forall m :: 0 <= m < |[p] + s| ==> ([p] + s)[m] in t
    ensures forall m :: 0 <= m < |[p] + s| ==> t[([p] + s)[m]].suivant == Ptr([p] + s, m + 1)
  {
    var s' := [p] + s;
    forall m | 0 <= m < |s'| ensures s'[m] in t && t[s'[m]].suivant == Ptr(s', m + 1) {
      if m > 0 {
        assert s'[m] == s[m - 1];
      }
    }
  }

  lemma NotInSuffix(o: seq<Id>, k: nat)
    requires Distinct(o) && k < |o|
    ensures o[k] !in o[k + 1..]
  {
  }

  /**
   `supprimeTous`: every cell holding `x` is unlinked, the other cells keep
   their relative order, and `size` drops by the number of cells removed.
   */
  function SupprimeTous(l: ListeSimple, x: int): (r: ListeSimple)
    requires Valid(l)
    ensures Valid(r)
    ensures Contents(r) == RemoveAll(Contents(l), x)
    ensures r.size == l.size - Count(Contents(l), x)
    ensures Order(r) == Survivors(l.tas, Order(l), x)
  {
    var (r, h) := SupprimeTousRecurs(l, x, l.tete, 0);
    SupprimeTousSound(l, x);
    r.(tete := h)
  }

  lemma SupprimeTousSound(l: ListeSimple, x: int)
    requires Valid(l)
    ensures var (r, h) := SupprimeTousRecurs(l, x, l.tete, 0);
      && Valid(r.(tete := h))
      && Order(r.(tete := h)) == Survivors(l.tas, Order(l), x)
      && Contents(r.(tete := h)) == RemoveAll(Contents(l), x)
      && r.size == l.size - Count(Contents(l), x)
  {
    var (r, h) := SupprimeTousRecurs(l, x, l.tete, 0);
    var o := Order(l);
    assert o[0..] == o;
    var s := Survivors(l.tas, o, x);
    SurvivorsElements(l.tas, o, x);
    var res := r.(tete := h);
    assert IsChain(res.tas, res.tete, s);
    Establish(res, s);
    ValuesFrame(l.tas, res.tas, s);
    RemoveAllSpec(Contents(l), x);
  }

  /**
   `getAvantDernier`: no cell when the list has fewer than two cells;
   otherwise the cell before the last, which links to the last one.
   */
  method GetAvantDernier(l: ListeSimple) returns (r: Option<Id>)
    requires Valid(l)
    ensures r.None? <==> |Order(l)| < 2
    ensures r.Some? ==>
              var o := Order(l);
              && r.value == o[|o| - 2]
              && GetSuivant(l.tas, r.value) == Some(o[|o| - 1])
              && GetSuivant(l.tas, o[|o| - 1]) == None
  {
    ghost var o := Order(l);
    if l.tete.None? {
      return None;
    }
    assert l.tas[o[0]].suivant == Ptr(o, 1);
    if GetSuivant(l.tas, l.tete.value).None? {
      return None;
    }
    var courant := l.tete.value;
    var suivant := GetSuivant(l.tas, courant).value;
    ghost var k := 0;
    assert l.tas[o[1]].suivant == Ptr(o, 2);
    while GetSuivant(l.tas, suivant).Some?
      invariant k + 1 < |o| && courant == o[k] && suivant == o[k + 1]
      decreases |o| - k
    {
      assert l.tas[o[k + 2]].suivant == Ptr(o, k + 3);
      courant := suivant;
      suivant := GetSuivant(l.tas, suivant).value;
      k := k + 1;
    }
    return Some(courant);
  }

  /** The link a cell at position `i` of `o` carries once the chain is reversed. */
  function Back(o: seq<Id>, i: nat): Option<Id>
    requires i < |o|
  {
    if i == 0 then None else Some(o[i - 1])
  }

  /** Cells each linked back to their predecessor along `o`, entered from the last, form the reversed chain. */
  lemma ReversedChain(tas: Tas, o: seq<Id>, start: Option<Id>)
    requires Distinct(o)
    requires forall i :: 0 <= i < |o| ==> o[i] in tas && tas[o[i]].suivant == Back(o, i)
    requires start == (if |o| == 0 then None else Some(o[|o| - 1]))
    ensures IsChain(tas, start, Reverse(o))
  {
    ReverseAt(o);
    var ro := Reverse(o);
    forall i | 0 <= i < |ro| ensures ro[i] in tas && tas[ro[i]].suivant == Ptr(ro, i + 1) {
      assert ro[i] == o[|o| - 1 - i];
    }
    forall a, b | 0 <= a < b < |ro| ensures ro[a] != ro[b] {
      assert ro[a] == o[|o| - 1 - a] && ro[b] == o[|o| - 1 - b];
    }
  }

  /** Elements along the reversed chain are the reversed elements. */
  lemma ValuesReverse(tas: Tas, tas': Tas, o: seq<Id>)
    requires forall i :: 0 <= i < |o| ==> o[i] in tas && o[i] in tas'
    requires forall i {:trigger tas'[o[i]]} :: 0 <= i < |o| ==> tas'[o[i]].element == tas[o[i]].element
    ensures forall i :: 0 <= i < |Reverse(o)| ==> Reverse(o)[i] in tas'
    ensures Values(tas', Reverse(o)) == Reverse(Values(tas, o))
  {
    ReverseAt(o);
    var c := Values(tas, o);
    ReverseAt(c);
    var vs, expected := Values(tas', Reverse(o)), Reverse(c);
    forall i | 0 <= i < |vs| ensures vs[i] == expected[i] {
      assert c[|o| - 1 - i] == tas[o[|o| - 1 - i]].element;
    }
    assert vs == expected;
  }

  /**
   `inverser`: each link is turned around in one pass from the head; the
   former last cell becomes the head. The same cells are kept, in reverse.
   */
  method Inverser(l: ListeSimple) returns (r: ListeSimple)
    requires Valid(l)
    ensures Valid(r)
    ensures Order(r) == Reverse(Order(l))
    ensures Contents(r) == Reverse(Contents(l))
    ensures r.size == l.size
  {
    ghost var o := Order(l);
    var tas := l.tas;
    var precedent: Option<Id> := None;
    var courant := l.tete;
    ghost var k := 0;
    while courant.Some?
      invariant k <= |o| && courant == Ptr(o, k)
      invariant precedent == (if k == 0 then None else Some(o[k - 1]))
      invariant tas.Keys == l.tas.Keys
      invariant forall q :: q in l.tas ==> tas[q].element == l.tas[q].element
      invariant forall i :: 0 <= i < |o| ==>
                  tas[o[i]].suivant == (if i < k then Back(o, i) else l.tas[o[i]].suivant)
      decreases |o| - k
    {
      assert l.tas[o[k]].suivant == Ptr(o, k + 1);
      var next := GetSuivant(tas, courant.value);
      tas := SetSuivant(tas, courant.value, precedent);
      forall i | 0 <= i < |o| && i != k ensures o[i] != o[k] {
      }
      precedent := courant;
      courant := next;
      k := k + 1;
    }
    r := ListeSimple(tas, precedent, l.size);
    ReversedChain(tas, o, precedent);
    ReverseAt(o);
    Establish(r, Reverse(o));
    ValuesReverse(l.tas, tas, o);
  }

  /**
   `getPrecedent`: the cell whose link is `r`. The caller promises that `r`
   is a cell of the list other than the head.
   */
  method GetPrecedent(l: ListeSimple, r: Id) returns (p: Id)
    requires Valid(l)
    requires r in Order(l) && l.tete != Some(r)
    ensures IndexOf(Order(l), r) > 0 && p == Order(l)[IndexOf(Order(l), r) - 1]
    ensures p in l.tas && GetSuivant(l.tas, p) == Some(r)
  {
    ghost var o := Order(l);
    ghost var j := IndexOf(o, r);
    var precedent := l.tete.value;
    var courant := GetSuivant(l.tas, precedent);
    ghost var k := 0;
    assert l.tas[o[0]].suivant == Ptr(o, 1);
    while courant != Some(r)
      invariant k < j && precedent == o[k] && courant == Ptr(o, k + 1)
      decreases j - k
    {
      assert l.tas[o[k + 1]].suivant == Ptr(o, k + 2);
      precedent := courant.value;
      courant := GetSuivant(l.tas, precedent);
      k := k + 1;
    }
    p := precedent;
  }

  /** Cells each carrying their link in the exchanged order form the exchanged chain. */
  lemma SwapChain(tas: Tas, o: seq<Id>, i: nat, j: nat, start: Option<Id>)
    requires Distinct(o) && i < |o| && j < |o|
    requires forall m :: 0 <= m < |o| ==> o[m] in tas
    requires forall m {:trigger tas[o[m]]} :: 0 <= m < |o| ==>
               tas[o[m]].suivant == Ptr(Swap(o, i, j), SwappedPosition(i, j, m) + 1)
    requires start == Ptr(Swap(o, i, j), 0)
    ensures IsChain(tas, start, Swap(o, i, j))
  {
    var o' := Swap(o, i, j);
    forall m | 0 <= m < |o'| ensures o'[m] in tas && tas[o'[m]].suivant == Ptr(o', m + 1) {
      var src := SwappedPosition(i, j, m);
      SwapAt(o, i, j, m);
      assert SwappedPosition(i, j, src) == m;
      assert tas[o[src]].suivant == Ptr(o', m + 1);
    }
    SwapDistinct(o, i, j);
  }

  /**
   The writes of `echanger` when neither cell is the head (`r1` at position
   `i`, `r2` at `j`), seen from the cell at position `m`: each predecessor
   is relinked to the other cell, then the two cells' own links are
   exchanged through `temp`, and the cell ends with its link in the
   exchanged order, also when the two cells are adjacent.
   */
  lemma InteriorLink(tas: Tas, o: seq<Id>, i: nat, j: nat, relie: Tas, t: Tas, m: nat)
    requires Distinct(o) && 0 < i < |o| && 0 < j < |o| && i != j && m < |o|
    requires o[i - 1] in tas && o[j - 1] in tas && o[i] in tas && o[j] in tas && o[m] in tas
    requires tas[o[m]].suivant == Ptr(o, m + 1)
    requires tas[o[i]].suivant == Ptr(o, i + 1) && tas[o[j]].suivant == Ptr(o, j + 1)
    requires relie == SetSuivant(SetSuivant(tas, o[i - 1], Some(o[j])), o[j - 1], Some(o[i]))
    requires t == SetSuivant(SetSuivant(relie, o[j], GetSuivant(relie, o[i])), o[i], GetSuivant(relie, o[j]))
    ensures o[m] in t && t[o[m]].suivant == Ptr(Swap(o, i, j), SwappedPosition(i, j, m) + 1)
  {
    var o' := Swap(o, i, j);
    var n := SwappedPosition(i, j, m) + 1;
    var want := Ptr(o', n);
    if n < |o| {
      SwapAt(o, i, j, n);
      assert want == Some(o[SwappedPosition(i, j, n)]);
    } else {
      SwapAt(o, i, j, 0);
      assert want == None;
    }
    if m == i {
      assert o[j] != o[j - 1];
      if j == i - 1 {
        assert relie[o[j]].suivant == Some(o[j]);
      } else {
        assert o[j] != o[i - 1];
        assert relie[o[j]].suivant == tas[o[j]].suivant == Ptr(o, j + 1);
      }
      assert t[o[m]].suivant == relie[o[j]].suivant;
    } else if m == j {
      assert o[i] != o[i - 1] && o[i] != o[j];
      if i == j - 1 {
        assert relie[o[i]].suivant == Some(o[i]);
      } else {
        assert o[i] != o[j - 1];
        assert relie[o[i]].suivant == tas[o[i]].suivant == Ptr(o, i + 1);
      }
      assert t[o[m]].suivant == relie[o[i]].suivant;
    } else if m == i - 1 {
      assert o[m] != o[i] && o[m] != o[j] && o[m] != o[j - 1];
      assert t[o[m]].suivant == Some(o[j]);
    } else if m == j - 1 {
      assert o[m] != o[i] && o[m] != o[j];
      assert t[o[m]].suivant == Some(o[i]);
    } else {
      assert o[m] != o[i] && o[m] != o[j] && o[m] != o[i - 1] && o[m] != o[j - 1];
      assert t[o[m]].suivant == tas[o[m]].suivant;
    }
  }

  /**
   The writes of `echanger` when `r1` is the head (position `i == 0`) and
   `r2` is at position `j`, seen from the cell at position `m`: the head
   moves to `r2`, the predecessor of `r2` is linked to the former head, then
   the two cells' own links are exchanged.
   */
  lemma FromHeadLink(tas: Tas, start: Option<Id>, o: seq<Id>, i: nat, j: nat, relie: Tas, t: Tas, m: nat)
    requires Distinct(o) && i == 0 < j < |o| && m < |o| && start == Some(o[0])
    requires o[j - 1] in tas && o[i] in tas && o[j] in tas && o[m] in tas
    requires tas[o[m]].suivant == Ptr(o, m + 1)
    requires tas[o[i]].suivant == Ptr(o, i + 1) && tas[o[j]].suivant == Ptr(o, j + 1)
    requires relie == SetSuivant(tas, o[j - 1], start)
    requires t == SetSuivant(SetSuivant(relie, o[j], GetSuivant(relie, o[i])), o[i], GetSuivant(relie, o[j]))
    ensures o[m] in t && t[o[m]].suivant == Ptr(Swap(o, i, j), SwappedPosition(i, j, m) + 1)
  {
    var o' := Swap(o, i, j);
    var n := SwappedPosition(i, j, m) + 1;
    var want := Ptr(o', n);
    if n < |o| {
      SwapAt(o, i, j, n);
      assert want == Some(o[SwappedPosition(i, j, n)]);
    } else {
      SwapAt(o, i, j, 0);
      assert want == None;
    }
    if m == i {
      assert o[j] != o[j - 1];
      assert relie[o[j]].suivant == tas[o[j]].suivant == Ptr(o, j + 1);
      assert t[o[m]].suivant == relie[o[j]].suivant;
    } else if m == j {
      assert o[i] != o[j];
      if j == 1 {
        assert relie[o[i]].suivant == Some(o[i]);
      } else {
        assert o[i] != o[j - 1];
        assert relie[o[i]].suivant == tas[o[i]].suivant == Ptr(o, i + 1);
      }
      assert t[o[m]].suivant == relie[o[i]].suivant;
    } else if m == j - 1 {
      assert o[m] != o[i] && o[m] != o[j];
      assert t[o[m]].suivant == Some(o[i]);
    } else {
      assert o[m] != o[i] && o[m] != o[j] && o[m] != o[j - 1];
      assert t[o[m]].suivant == tas[o[m]].suivant;
    }
  }

  /**
   The writes of `echanger` when `r2` is the head (position `j == 0`) and
   `r1` is at position `i`, seen from the cell at position `m`: the head
   moves to `r1`, the predecessor of `r1` is linked to the former head, then
   the two cells' own links are exchanged.
   */
  lemma ToHeadLink(tas: Tas, start: Option<Id>, o: seq<Id>, i: nat, j: nat, relie: Tas, t: Tas, m: nat)
    requires Distinct(o) && j == 0 < i < |o| && m < |o| && start == Some(o[0])
    requires o[i - 1] in tas && o[i] in tas && o[j] in tas && o[m] in tas
    requires tas[o[m]].suivant == Ptr(o, m + 1)
    requires tas[o[i]].suivant == Ptr(o, i + 1) && tas[o[j]].suivant == Ptr(o, j + 1)
    requires relie == SetSuivant(tas, o[i - 1], start)
    requires t == SetSuivant(SetSuivant(relie, o[j], GetSuivant(relie, o[i])), o[i], GetSuivant(relie, o[j]))
    ensures o[m] in t && t[o[m]].suivant == Ptr(Swap(o, i, j), SwappedPosition(i, j, m) + 1)
  {
    var o' := Swap(o, i, j);
    var n := SwappedPosition(i, j, m) + 1;
    var want := Ptr(o', n);
    if n < |o| {
      SwapAt(o, i, j, n);
      assert want == Some(o[SwappedPosition(i, j, n)]);
    } else {
      SwapAt(o, i, j, 0);
      assert want == None;
    }
    if m == i {
      assert o[j] != o[i];
      if i == 1 {
        assert relie[o[j]].suivant == Some(o[j]);
      } else {
        assert o[j] != o[i - 1];
        assert relie[o[j]].suivant == tas[o[j]].suivant == Ptr(o, j + 1);
      }
      assert t[o[m]].suivant == relie[o[j]].suivant;
    } else if m == j {
      assert o[i] != o[i - 1];
      assert relie[o[i]].suivant == tas[o[i]].suivant == Ptr(o, i + 1);
      assert t[o[m]].suivant == relie[o[i]].suivant;
    } else if m == i - 1 {
      assert o[m] != o[i] && o[m] != o[j];
      assert t[o[m]].suivant == Some(o[j]);
    } else {
      assert o[m] != o[i] && o[m] != o[j] && o[m] != o[i - 1];
      assert t[o[m]].suivant == tas[o[m]].suivant;
    }
  }

  /** Elements along the exchanged chain are the old elements with the same two positions exchanged. */
  lemma ValuesSwap(tas: Tas, tas': Tas, o: seq<Id>, i: nat, j: nat)
    requires i < |o| && j < |o|
    requires forall m :: 0 <= m < |o| ==> o[m] in tas && o[m] in tas'
    requires forall m {:trigger tas'[o[m]]} :: 0 <= m < |o| ==> tas'[o[m]].element == tas[o[m]].element
    ensures forall m :: 0 <= m < |Swap(o, i, j)| ==> Swap(o, i, j)[m] in tas'
    ensures Values(tas', Swap(o, i, j)) == Swap(Values(tas, o), i, j)
  {
    var c := Values(tas, o);
    var vs, expected := Values(tas', Swap(o, i, j)), Swap(c, i, j);
    forall m | 0 <= m < |vs| ensures vs[m] == expected[m] {
      SwapAt(o, i, j, m);
      SwapAt(c, i, j, m);
      assert c[SwappedPosition(i, j, m)] == tas[o[SwappedPosition(i, j, m)]].element;
    }
    assert vs == expected;
  }

  /**
   The writes `echanger` makes before the two cells at positions `i` and `j`
   exchange their own links: when neither is the head, their predecessors are
   pointed at each other's cell; when one is the head, the other's
   predecessor is pointed at the old head.
   */
  ghost predicate Relie(tas: Tas, start: Option<Id>, o: seq<Id>, i: nat, j: nat, relie: Tas)
    requires i < |o| && j < |o| && i != j
    requires forall m :: 0 <= m < |o| ==> o[m] in tas
  {
    && (0 < i && 0 < j ==> relie == SetSuivant(SetSuivant(tas, o[i - 1], Some(o[j])), o[j - 1], Some(o[i])))
    && (i == 0 ==> relie == SetSuivant(tas, o[j - 1], start))
    && (j == 0 ==> relie == SetSuivant(tas, o[i - 1], start))
  }

  /** Whichever branch ran, every cell of the chain ends with its link in the exchanged order. */
  lemma EchangerLinks(tas: Tas, start: Option<Id>, o: seq<Id>, i: nat, j: nat, relie: Tas, t: Tas)
    requires IsChain(tas, start, o) && i < |o| && j < |o| && i != j
    requires Relie(tas, start, o, i, j, relie)
    requires o[i] in relie && o[j] in relie
    requires t == SetSuivant(SetSuivant(relie, o[j], GetSuivant(relie, o[i])), o[i], GetSuivant(relie, o[j]))
    ensures forall m :: 0 <= m < |o| ==> o[m] in t
    ensures forall m {:trigger t[o[m]]} :: 0 <= m < |o| ==>
              t[o[m]].suivant == Ptr(Swap(o, i, j), SwappedPosition(i, j, m) + 1)
  {
    forall m | 0 <= m < |o| ensures o[m] in t && t[o[m]].suivant == Ptr(Swap(o, i, j), SwappedPosition(i, j, m) + 1) {
      assert tas[o[m]].suivant == Ptr(o, m + 1);
      assert tas[o[i]].suivant == Ptr(o, i + 1) && tas[o[j]].suivant == Ptr(o, j + 1);
      if 0 < i && 0 < j {
        InteriorLink(tas, o, i, j, relie, t, m);
      } else if i == 0 {
        FromHeadLink(tas, start, o, i, j, relie, t, m);
      } else {
        ToHeadLink(tas, start, o, i, j, relie, t, m);
      }
    }
  }

  /** The writes of `echanger` touch links only: every cell keeps its element. */
  lemma EchangerElements(tas: Tas, start: Option<Id>, o: seq<Id>, i: nat, j: nat, relie: Tas, t: Tas)
    requires IsChain(tas, start, o) && i < |o| && j < |o| && i != j
    requires Relie(tas, start, o, i, j, relie)
    requires o[i] in relie && o[j] in relie
    requires t == SetSuivant(SetSuivant(relie, o[j], GetSuivant(relie, o[i])), o[i], GetSuivant(relie, o[j]))
    ensures forall m :: 0 <= m < |o| ==> o[m] in tas && o[m] in t
    ensures forall m {:trigger t[o[m]]} :: 0 <= m < |o| ==> t[o[m]].element == tas[o[m]].element
  {
  }

  /**
   The writes of `echanger`, whichever branch ran, turn the chain `o` into
   the chain with positions `i` and `j` exchanged, starting at the new head
   `start'`, and leave every element where it was.
   */
  lemma EchangerChain(tas: Tas, start: Option<Id>, o: seq<Id>, i: nat, j: nat, relie: Tas, t: Tas, start': Option<Id>)
    requires IsChain(tas, start, o) && i < |o| && j < |o| && i != j
    requires Relie(tas, start, o, i, j, relie)
    requires o[i] in relie && o[j] in relie
    requires t == SetSuivant(SetSuivant(relie, o[j], GetSuivant(relie, o[i])), o[i], GetSuivant(relie, o[j]))
    requires start' == if i == 0 then Some(o[j]) else if j == 0 then Some(o[i]) else start
    ensures IsChain(t, start', Swap(o, i, j))
    ensures forall m :: 0 <= m < |o| ==> o[m] in tas && o[m] in t
    ensures forall m {:trigger t[o[m]]} :: 0 <= m < |o| ==> t[o[m]].element == tas[o[m]].element
  {
    EchangerLinks(tas, start, o, i, j, relie, t);
    SwapAt(o, i, j, SwappedPosition(i, j, 0));
    SwapChain(t, o, i, j, start');
    EchangerElements(tas, start, o, i, j, relie, t);
  }

  /**
   The writes of `echanger` on two distinct cells `r1` and `r2` of the chain
   `o`, stated in the terms `Relier` and the exchange of the two cells' own
   links produce: the result is the chain with the two cells' positions
   exchanged, and every element stays with its cell.
   */
  lemma EchangerSound(tas: Tas, start: Option<Id>, o: seq<Id>, r1: Id, r2: Id, relie: Tas, t: Tas, start': Option<Id>)
    requires IsChain(tas, start, o) && r1 in o && r2 in o && r1 != r2
    requires Relie(tas, start, o, IndexOf(o, r1), IndexOf(o, r2), relie)
    requires var i, j := IndexOf(o, r1), IndexOf(o, r2);
      start' == if i == 0 then Some(o[j]) else if j == 0 then Some(o[i]) else start
    requires r1 in relie && r2 in relie
    requires t == SetSuivant(SetSuivant(relie, r2, GetSuivant(relie, r1)), r1, GetSuivant(relie, r2))
    ensures IsChain(t, start', Swap(o, IndexOf(o, r1), IndexOf(o, r2)))
    ensures forall m :: 0 <= m < |o| ==> o[m] in tas && o[m] in t
    ensures forall m {:trigger t[o[m]]} :: 0 <= m < |o| ==> t[o[m]].element == tas[o[m]].element
  {
    var i, j := IndexOf(o, r1), IndexOf(o, r2);
    assert o[i] == r1 && o[j] == r2;
    EchangerChain(tas, start, o, i, j, relie, t, start');
  }

  /**
   `echanger`: the cells `r1` and `r2` of the list trade places in the
   chain, by relinking their predecessors (or moving the head) and then
   exchanging their own links. Every other cell keeps its position, the
   elements travel with their cells, and exchanging a cell with itself
   changes nothing, whatever the cell. Otherwise the caller promises that
   both cells are in the list.
   */
  method Echanger(l: ListeSimple, r1: Id, r2: Id) returns (r: ListeSimple)
    requires Valid(l)
    requires r1 == r2 || (r1 in Order(l) && r2 in Order(l))
    ensures Valid(r)
    ensures r1 == r2 ==> r == l
    ensures r1 != r2 ==> Order(r) == Swap(Order(l), IndexOf(Order(l), r1), IndexOf(Order(l), r2))
    ensures r1 != r2 ==> Contents(r) == Swap(Contents(l), IndexOf(Order(l), r1), IndexOf(Order(l), r2))
    ensures r.size == l.size
    ensures r.tete == (if l.tete == Some(r1) then Some(r2) else if l.tete == Some(r2) then Some(r1) else l.tete)
  {
    if r1 == r2 {
      r := l;
      return;
    }
    var relie, tete := Relier(l, r1, r2);
    r := Croiser(l, r1, r2, relie, tete);
  }

  /**
   The second half of `echanger` on two distinct cells: once the predecessors
   (or the head) point the other way, the two cells exchange their own links.
   */
  method Croiser(l: ListeSimple, r1: Id, r2: Id, relie: Tas, tete: Option<Id>) returns (r: ListeSimple)
    requires Valid(l)
    requires r1 in Order(l) && r2 in Order(l) && r1 != r2
    requires Relie(l.tas, l.tete, Order(l), IndexOf(Order(l), r1), IndexOf(Order(l), r2), relie)
    requires var o, i, j := Order(l), IndexOf(Order(l), r1), IndexOf(Order(l), r2);
      tete == if i == 0 then Some(o[j]) else if j == 0 then Some(o[i]) else l.tete
    requires r1 in relie && r2 in relie
    ensures Valid(r)
    ensures Order(r) == Swap(Order(l), IndexOf(Order(l), r1), IndexOf(Order(l), r2))
    ensures Contents(r) == Swap(Contents(l), IndexOf(Order(l), r1), IndexOf(Order(l), r2))
    ensures r.size == l.size && r.tete == tete
  {
    var temp := GetSuivant(relie, r2);
    var tas := SetSuivant(relie, r2, GetSuivant(relie, r1));
    tas := SetSuivant(tas, r1, temp);
    r := ListeSimple(tas, tete, l.size);
    EchangerSound(l.tas, l.tete, Order(l), r1, r2, relie, r.tas, r.tete);
    EchangerFin(l, r1, r2, r);
  }

  /** A list whose arena holds the exchanged chain, with every element kept, is the exchanged list. */
  lemma EchangerFin(l: ListeSimple, r1: Id, r2: Id, r: ListeSimple)
    requires Valid(l) && r1 in Order(l) && r2 in Order(l)
    requires IsChain(r.tas, r.tete, Swap(Order(l), IndexOf(Order(l), r1), IndexOf(Order(l), r2)))
    requires forall m :: 0 <= m < |Order(l)| ==> Order(l)[m] in l.tas && Order(l)[m] in r.tas
    requires forall m {:trigger r.tas[Order(l)[m]]} :: 0 <= m < |Order(l)| ==>
               r.tas[Order(l)[m]].element == l.tas[Order(l)[m]].element
    requires r.size == l.size
    ensures Valid(r)
    ensures Order(r) == Swap(Order(l), IndexOf(Order(l), r1), IndexOf(Order(l), r2))
    ensures Contents(r) == Swap(Contents(l), IndexOf(Order(l), r1), IndexOf(Order(l), r2))
  {
    var o := Order(l);
    var i, j := IndexOf(o, r1), IndexOf(o, r2);
    Establish(r, Swap(o, i, j));
    ValuesSwap(l.tas, r.tas, o, i, j);
    assert Contents(r) == Values(r.tas, Swap(o, i, j));
  }

  /**
   The first half of `echanger` for two distinct cells: the predecessor of
   each is relinked to the other, or, when one of them is the head, the
   head moves to the other and that other's predecessor is linked to the
   former head.
   */
  method Relier(l: ListeSimple, r1: Id, r2: Id) returns (tas: Tas, tete: Option<Id>)
    requires Valid(l)
    requires r1 in Order(l) && r2 in Order(l) && r1 != r2
    ensures Relie(l.tas, l.tete, Order(l), IndexOf(Order(l), r1), IndexOf(Order(l), r2), tas)
    ensures tete == (if l.tete == Some(r1) then Some(r2) else if l.tete == Some(r2) then Some(r1) else l.tete)
    ensures var o, i, j := Order(l), IndexOf(Order(l), r1), IndexOf(Order(l), r2);
      tete == if i == 0 then Some(o[j]) else if j == 0 then Some(o[i]) else l.tete
    ensures r1 in tas && r2 in tas
  {
    ghost var o := Order(l);
    ghost var i, j := IndexOf(o, r1), IndexOf(o, r2);
    assert l.tete == Some(o[0]);
    assert l.tete == Some(r1) <==> i == 0;
    assert l.tete == Some(r2) <==> j == 0;
    tas := l.tas;
    tete := l.tete;
    if l.tete != Some(r1) && l.tete != Some(r2) {
      var p1 := GetPrecedent(l, r1);
      var p2 := GetPrecedent(l, r2);
      tas := SetSuivant(tas, p1, Some(r2));
      tas := SetSuivant(tas, p2, Some(r1));
    } else if l.tete == Some(r1) {
      var p2 := GetPrecedent(l, r2);
      tas := SetSuivant(tas, p2, tete);
      tete := Some(r2);
    } else {
      var p1 := GetPrecedent(l, r1);
      tas := SetSuivant(tas, p1, tete);
      tete := Some(r1);
    }
  }

  /** The texts of the cells holding `vs`, in order. */
  function Textes(vs: seq<int>): (ts: seq<string>)
    ensures |ts| == |vs|
    ensures forall i :: 0 <= i < |vs| ==> ts[i] == ElementText(vs[i])
  {
    seq(|vs|, i requires 0 <= i < |vs| => ElementText(vs[i]))
  }

  /** What sits between the parentheses of the list's text: the cell texts separated by `, `. */
  function Interieur(vs: seq<int>): string {
    Text.Join(Textes(vs), ", ")
  }

  /** The text of a list holding `vs`. */
  function Rendu(vs: seq<int>): string {
    "ListeSimple(" + Interieur(vs) + ")"
  }

  /** Adding an element in front puts its cell text first, followed by `, ` unless it is alone. */
  lemma InterieurCons(e: int, vs: seq<int>)
    ensures Interieur([e] + vs) == ElementText(e) + (if |vs| == 0 then "" else ", " + Interieur(vs))
  {
    TextesCons(e, vs);
    Text.JoinCons(ElementText(e), Textes(vs), ", ");
  }

  lemma TextesCons(e: int, vs: seq<int>)
    ensures Textes([e] + vs) == [ElementText(e)] + Textes(vs)
  {
    var ts, expected := Textes([e] + vs), [ElementText(e)] + Textes(vs);
    forall i | 0 <= i < |ts| ensures ts[i] == expected[i] {
      if i > 0 {
        assert ([e] + vs)[i] == vs[i - 1];
      }
    }
  }

  /**
   `toString`: the cells' texts from the head, separated by `, `, between
   `ListeSimple(` and `)`; the empty list gives `ListeSimple()`.
   */
  method ToString(l: ListeSimple) returns (s: string)
    requires Valid(l)
    ensures s == Rendu(Contents(l))
    ensures l.size == 0 ==> s == "ListeSimple()"
  {
    ghost var o := Order(l);
    ghost var parts := Textes(Contents(l));
    var sb := "ListeSimple(";
    var n := l.tete;
    ghost var k := 0;
    while n != None
      invariant k <= |o| && n == Ptr(o, k)
      invariant sb == Prefixe(parts, k)
      decreases |o| - k
    {
      assert parts[k] == Noeuds.ToString(l.tas[o[k]]);
      PrefixeStep(parts, k);
      sb := sb + Noeuds.ToString(l.tas[n.value]);
      n := l.tas[n.value].suivant;
      k := k + 1;
      if n != None {
        sb := sb + ", ";
      }
    }
    assert parts[..k] == parts;
    sb := sb + ")";
    s := sb;
  }

  /** The text `toString` has built once it has written the first `k` cells of `parts`. */
  function Prefixe(parts: seq<string>, k: nat): string
    requires k <= |parts|
  {
    "ListeSimple(" + Text.Join(parts[..k], ", ") + (if 0 < k < |parts| then ", " else "")
  }

  /** Writing cell `k`, then `, ` when another cell follows, extends the text to `k + 1` cells. */
  lemma PrefixeStep(parts: seq<string>, k: nat)
    requires k < |parts|
    ensures Prefixe(parts, k) + parts[k] + (if k + 1 < |parts| then ", " else "") == Prefixe(parts, k + 1)
  {
    Text.JoinPrefix(parts, k, ", ");
  }

  /** Adding `3`, then `2`, then `1` in front of the empty list gives the list `1, 2, 3`. */
  method AjoutsUnDeuxTrois() returns (l: ListeSimple)
    ensures Valid(l) && Contents(l) == [1, 2, 3] && GetSize(l) == 3
  {
    l := Vide();
    l := Ajout(l, 3);
    l := Ajout(l, 2);
    l := Ajout(l, 1);
  }

  /** Removing the first `2` from the list `1, 2, 3` leaves `1, 3`. */
  method SupprimePremierDeux() returns (r: ListeSimple)
    ensures Valid(r) && Contents(r) == [1, 3] && GetSize(r) == 2
  {
    var l := AjoutsUnDeuxTrois();
    r := SupprimePremier(l, 2);
    assert [1, 2, 3][1..] == [2, 3];
  }

  /** Removing every `2` from the list `1, 2, 2, 3` leaves `1, 3`. */
  method SupprimeTousDeux() returns (r: ListeSimple)
    ensures Valid(r) && Contents(r) == [1, 3] && GetSize(r) == 2
  {
    var l := Vide();
    l := Ajout(l, 3);
    l := Ajout(l, 2);
    l := Ajout(l, 2);
    l := Ajout(l, 1);
    assert Contents(l) == [1, 2, 2, 3];
    assert [1, 2, 2, 3][1..] == [2, 2, 3] && [2, 2, 3][1..] == [2, 3] && [2, 3][1..] == [3];
    assert RemoveAll([3], 2) == [3];
    assert RemoveAll([2, 3], 2) == [3];
    assert RemoveAll([2, 2, 3], 2) == [3];
    assert RemoveAll([1, 2, 2, 3], 2) == [1, 3];
    r := SupprimeTous(l, 2);
  }

  /** Reversing the list `1, 2, 3` gives `3, 2, 1`. */
  method InverserUnDeuxTrois() returns (r: ListeSimple)
    ensures Valid(r) && Contents(r) == [3, 2, 1] && GetSize(r) == 3
  {
    var l := AjoutsUnDeuxTrois();
    r := Inverser(l);
    ReverseAt(Contents(l));
  }

  /** In the list `1, 2, 3` the next-to-last cell holds `2`. */
  method AvantDernierUnDeuxTrois() returns (l: ListeSimple, n: Option<Id>)
    ensures Valid(l) && Contents(l) == [1, 2, 3]
    ensures n.Some? && n.value in l.tas && GetElement(l.tas, n.value) == 2
  {
    l := AjoutsUnDeuxTrois();
    n := GetAvantDernier(l);
    assert Contents(l)[1] == 2;
  }

  /** A list of one cell has no next-to-last cell. */
  method AvantDernierUn() returns (l: ListeSimple, n: Option<Id>)
    ensures Valid(l) && Contents(l) == [1]
    ensures n == None
  {
    l := Ajout(Vide(), 1);
    n := GetAvantDernier(l);
  }

  /** Exchanging the same two cells twice gives back the original list. */
  method EchangerDeuxFois(l: ListeSimple, r1: Id, r2: Id) returns (r: ListeSimple)
    requires Valid(l)
    requires r1 == r2 || (r1 in Order(l) && r2 in Order(l))
    ensures Valid(r)
    ensures Order(r) == Order(l) && Contents(r) == Contents(l)
    ensures r.tete == l.tete && r.size == l.size
  {
    var m := Echanger(l, r1, r2);
    if r1 == r2 {
      r := Echanger(m, r1, r2);
      return;
    }
    ghost var o, c := Order(l), Contents(l);
    ghost var i, j := IndexOf(o, r1), IndexOf(o, r2);
    SwapAt(o, i, j, i);
    SwapAt(o, i, j, j);
    IndexOfDistinct(Order(m), i);
    IndexOfDistinct(Order(m), j);
    r := Echanger(m, r1, r2);
    SwapInvolution(o, i, j);
    SwapInvolution(c, i, j);
  }

  /** Reversing twice gives back the original list. */
  method InverserDeuxFois(l: ListeSimple) returns (r: ListeSimple)
    requires Valid(l)
    ensures Valid(r)
    ensures Order(r) == Order(l) && Contents(r) == Contents(l) && r.size == l.size
  {
    var m := Inverser(l);
    r := Inverser(m);
    ReverseInvolution(Order(l));
    ReverseInvolution(Contents(l));
  }

  /**
   Adding `e` and then removing the first `e` gives back the same chain:
   the new cell is the head, so it is the one removed, whether or not `e`
   was already in the list.
   */
  method AjoutPuisSupprime(l: ListeSimple, e: int) returns (r: ListeSimple)
    requires Valid(l)
    ensures Valid(r)
    ensures r.tete == l.tete && r.size == l.size
    ensures Order(r) == Order(l) && Contents(r) == Contents(l)
  {
    var m := Ajout(l, e);
    assert Contents(m)[0] == e;
    r := SupprimePremier(m, e);
    assert Order(r) == RemoveAt(Order(m), 0);
  }
}
