/**
 The cell of the list (`Noeud`): an element and a link to its successor.

 Java cells are objects on the heap; here a cell is a value stored in an
 arena `Tas` under a stable identity `Id`, and a link is an `Option<Id>`
 (`None` for `null`). Reading or writing a field of a cell is reading or
 updating the arena at that identity.
 */
module Noeuds {
  import opened Wrappers
  import Text

  /** Identity of a cell (its reference). */
  type Id = nat

  datatype Noeud = Noeud(element: int, suivant: Option<Id>)

  /** The arena of cells, indexed by identity. */
  type Tas = map<Id, Noeud>

  /** `getElement`. */
  function GetElement(tas: Tas, p: Id): int
    requires p in tas
  {
    tas[p].element
  }

  /** `getSuivant`. */
  function GetSuivant(tas: Tas, p: Id): Option<Id>
    requires p in tas
  {
    tas[p].suivant
  }

  /** `setElement`. */
  function SetElement(tas: Tas, p: Id, e: int): Tas
    requires p in tas
  {
    tas[p := tas[p].(element := e)]
  }

  /** `setSuivant`. */
  function SetSuivant(tas: Tas, p: Id, s: Option<Id>): Tas
    requires p in tas
  {
    tas[p := tas[p].(suivant := s)]
  }

  /** After `setElement(e)` on `p`, `getElement` gives `e`, the successor is kept, and no other cell changes. */
  lemma SetElementSpec(tas: Tas, p: Id, e: int)
    requires p in tas
    ensures SetElement(tas, p, e).Keys == tas.Keys
    ensures GetElement(SetElement(tas, p, e), p) == e
    ensures GetSuivant(SetElement(tas, p, e), p) == GetSuivant(tas, p)
    ensures forall q :: q in tas && q != p ==> SetElement(tas, p, e)[q] == tas[q]
  {
  }

  /** After `setSuivant(s)` on `p`, `getSuivant` gives `s`, the element is kept, and no other cell changes. */
  lemma SetSuivantSpec(tas: Tas, p: Id, s: Option<Id>)
    requires p in tas
    ensures SetSuivant(tas, p, s).Keys == tas.Keys
    ensures GetSuivant(SetSuivant(tas, p, s), p) == s
    ensures GetElement(SetSuivant(tas, p, s), p) == GetElement(tas, p)
    ensures forall q :: q in tas && q != p ==> SetSuivant(tas, p, s)[q] == tas[q]
  {
  }

  /** A non-empty set of identities has a largest member. */
  lemma MaxExists(keys: set<Id>)
    requires keys != {}
    ensures exists m :: m in keys && forall q :: q in keys ==> q <= m
  {
    var m := LargestOf(keys);
  }

  /** The largest member of a non-empty set of identities, found by removing one member at a time. */
  lemma LargestOf(keys: set<Id>) returns (m: Id)
    requires keys != {}
    ensures m in keys && forall q :: q in keys ==> q <= m
    decreases |keys|
  {
    var x :| x in keys;
    if keys == {x} {
      m := x;
    } else {
      var rest := keys - {x};
      var r := LargestOf(rest);
      m := if x > r then x else r;
      forall q | q in keys ensures q <= m {
        if q != x {
          assert q in rest;
        }
      }
    }
  }

  /** An identity no cell of the arena uses yet: one past the largest in use. */
  function FreshId(tas: Tas): (id: Id)
    ensures forall q :: q in tas ==> q < id
  {
    if tas == map[] then 0
    else
      MaxExists(tas.Keys);
      var m :| m in tas && forall q :: q in tas ==> q <= m;
      m + 1
  }

  /**
   `new Noeud(e, s)`: a cell with element `e` and successor `s` stored under
   an identity not in use before; the existing cells are untouched.
   */
  function New(tas: Tas, e: int, s: Option<Id>): (r: (Tas, Id))
    ensures r.1 !in tas
    ensures r.0.Keys == tas.Keys + {r.1}
    ensures GetElement(r.0, r.1) == e && GetSuivant(r.0, r.1) == s
    ensures forall q :: q in tas ==> r.0[q] == tas[q]
  {
    var id := FreshId(tas);
    (tas[id := Noeud(e, s)], id)
  }

  /** The text of a cell holding `e`: `Noeud(` then `e` in decimal, then `)`. */
  function ElementText(e: int): string {
    "Noeud(" + Text.IntToString(e) + ")"
  }

  /** `toString` of a cell: only its element shows, never its successor. */
  function ToString(n: Noeud): string {
    ElementText(n.element)
  }

  /** The text of a cell shows its element: two cells render alike exactly when their elements are equal. */
  lemma ToStringInjective(a: Noeud, b: Noeud)
    ensures ToString(a) == ToString(b) <==> a.element == b.element
  {
    Text.IntToStringInjective(a.element, b.element);
    if ToString(a) == ToString(b) {
      var sa, sb := Text.IntToString(a.element), Text.IntToString(b.element);
      assert |sa| == |sb|;
      assert sa == ToString(a)[6..6 + |sa|];
      assert sb == ToString(b)[6..6 + |sb|];
    }
  }
}
