# ListeSimple in Dafny

A model of a small Java library for singly linked lists of integers. The list
`ListeSimple` holds a head reference `tete` and a `size` counter. Its cells,
`Noeud`, each carry an element and a link `suivant` to the next cell. The
operations add in front, replace the first or every occurrence of a value,
remove the first or every occurrence, find the next-to-last cell, reverse in
place, find a cell's predecessor, exchange two cells, and render the list as
text.

The Java heap becomes an arena: `Tas = map<Id, Noeud>` maps cell identities
to cells, and a `null` link is `None`. A list is
`ListeSimple(tas, tete, size)`. Its cells, in chain order, are
`Order(l) = Walk(l.tas, l.tete, l.size)`. Its class invariant `Valid(l)`
states three things: following links from `tete` meets exactly `size`
distinct cells, every one of them is in the arena, and the last one links to
`None`. `Contents(l)` is the sequence of elements along that chain. Every
mutating Java method becomes a Dafny method or function that returns the new
state and performs the same reads and writes of links and elements, in the
same order and on the same branches. Each list operation's contract is stated
twice:

- against an independent reference definition on sequences, in module
  `Sequences` (`ReplaceFirst`, `ReplaceAll`, `RemoveFirst`, `RemoveAll`,
  `Reverse`, `Swap`). Each is tied to a characterisation lemma. The lemmas
  for `ReplaceFirst`, `ReplaceAll`, `RemoveFirst`, `Reverse` and `Swap` are
  index-wise. The one for `RemoveAll` states what is removed and what is
  kept, by count and multiset; the order of the kept cells is stated on the
  chain by `Listes.SurvivorsSpec`;
- on the chain of cells itself (`Order`), so the contract says which cells
  move and not only which values end up where.

Files:

- `wrappers.dfy` holds `Option`.
- `sequences.dfy` holds the reference definitions.
- `text.dfy` holds decimal rendering of integers and joining with a separator.
- `noeud.dfy` holds the cell and its arena (`Noeuds`).
- `liste_simple.dfy` holds the list (`Listes`).

## Model

| member | source | states |
|---|---|---|
| Noeuds.New | src/main/java/liste/Noeud.java:10-13 | `new Noeud(e, s)` gives a cell not in the arena before. It holds element `e` and successor `s`, and every other cell is untouched. |
| Noeuds.FreshId | src/main/java/liste/Noeud.java:10-13 | The identity chosen for a new cell differs from every cell already allocated. |
| Noeuds.SetElementSpec | src/main/java/liste/Noeud.java:20-30 | After `setElement(v)`, `getElement` returns `v`. The successor and all other cells are unchanged, and no cell is added or removed. |
| Noeuds.SetSuivantSpec | src/main/java/liste/Noeud.java:36-46 | After `setSuivant(s)`, `getSuivant` returns `s`. The element and all other cells are unchanged, and no cell is added or removed. |
| Noeuds.ToStringInjective | src/main/java/liste/Noeud.java:53-55 | A cell's text shows its element and not its successor: two cells render alike exactly when their elements are equal. |
| Text.IntToStringRoundTrip | src/main/java/liste/Noeud.java:53-55 | The decimal text of an element is an optional `-` followed by digits, and reads back as the same integer. |
| Text.IntToStringInjective | src/main/java/liste/Noeud.java:53-55 | Distinct elements have distinct decimal texts. |
| Listes.Vide | src/main/java/liste/ListeSimple.java:9-10 | A new list, with `tete` null and `size` 0, satisfies the class invariant and holds no element. |
| Listes.GetSize | src/main/java/liste/ListeSimple.java:16-18 | Under the invariant, `getSize` is the number of elements reachable from the head. |
| Listes.Ajout | src/main/java/liste/ListeSimple.java:25-28 | `ajout(e)` puts a fresh cell holding `e` in front of the old chain. The contents become `[e]` followed by the old contents, and `size` grows by one, keeping the invariant. |
| Listes.AjoutChain | src/main/java/liste/ListeSimple.java:25-28 | A fresh cell linked to the old head, with the old cells unchanged, forms a valid list whose chain is the new cell followed by the old chain. |
| Listes.ModifiePremier | src/main/java/liste/ListeSimple.java:35-41 | The chain is unchanged, and the contents become the old contents with only the first `x` replaced by `v`. When `x` is absent nothing changes. |
| Listes.ModifieTous | src/main/java/liste/ListeSimple.java:48-55 | The chain is unchanged, and every element equal to `x`, and no other, becomes `v`. |
| Listes.ValuesSetElement | src/main/java/liste/ListeSimple.java:40 | Writing the element of the cell at position `k` of a chain changes the chain's contents at position `k` only. |
| Listes.ValuesReplaceAll | src/main/java/liste/ListeSimple.java:50-53 | When every cell equal to `x` now holds `v` and every other cell is untouched, the chain's contents are those of the reference replace-all. |
| Listes.SupprimePremier | src/main/java/liste/ListeSimple.java:86-104 | The contents become the old contents without their first `x`. The list, `size` included, is unchanged when `x` is absent; otherwise exactly the cell at `x`'s first position leaves the chain and `size` drops by one. |
| Listes.ChercherPremier | src/main/java/liste/ListeSimple.java:93-98 | The scan stops at the first cell holding `x` (none when `x` is absent) and returns that cell's predecessor with it. |
| Listes.BypassChain | src/main/java/liste/ListeSimple.java:89 | Moving the head past its first cell, or linking the cell at `k - 1` to the successor of the cell at `k`, leaves the chain minus position `k`. |
| Listes.Bypass | src/main/java/liste/ListeSimple.java:87-102 | Removing position `k` that way, with `size` decremented, yields a valid list whose chain and contents lose exactly position `k`. |
| Listes.SurvivorsSpec | src/main/java/liste/ListeSimple.java:132-143 | The cells kept by the recursive removal are cells of the chain, without repeats, and in chain order: an earlier kept cell sits earlier in the chain. Their elements are the reference remove-all of the chain's contents. |
| Listes.SurvivorsInOrder | src/main/java/liste/ListeSimple.java:132-143 | In a chain without repeats, any two kept cells appear in the same order as in the chain. |
| Listes.SupprimeTousRecurs | src/main/java/liste/ListeSimple.java:132-143 | Called at position `k`, the recursion returns the first kept cell from `k` on. It links the kept cells from `k` on into a chain and drops one from `size` per removed cell. Links before `k` are untouched, and no element is rewritten. |
| Listes.Retirer | src/main/java/liste/ListeSimple.java:135-137 | Dropping a cell that holds the element leaves the rest's kept chain as the result, with `size` one lower. |
| Listes.Garder | src/main/java/liste/ListeSimple.java:138-140 | Linking a cell that does not hold the element to the rest's kept chain makes it the first kept cell, in front of that chain. |
| Listes.SurvivorsElements | src/main/java/liste/ListeSimple.java:132-143 | The kept cells are cells of the chain, without repeats when the chain has none, and their elements are the reference remove-all of the chain's contents. |
| Listes.RangsSurvivants | src/main/java/liste/ListeSimple.java:132-143 | Each kept cell sits at a position of the chain, and these positions strictly increase. |
| Listes.RelieSurvivant | src/main/java/liste/ListeSimple.java:139-140 | Linking a kept cell to the chain of cells kept after it extends that chain by one cell in front. |
| Listes.SupprimeTousSound | src/main/java/liste/ListeSimple.java:114-116 | Running the recursion from the head and storing its result in `tete` gives a valid list whose chain is the kept cells. Its contents are the old contents without any `x`, and `size` drops by the number of occurrences of `x`. |
| Listes.SupprimeTous | src/main/java/liste/ListeSimple.java:114-116 | `supprimeTous(x)` keeps the invariant, removes every `x`, keeps the other elements in order, and decrements `size` by the count of `x`. |
| Listes.GetAvantDernier | src/main/java/liste/ListeSimple.java:150-162 | The result is null exactly when the list has fewer than two cells. Otherwise it is the cell at position `n - 2`, whose successor is the last cell, which links to null. |
| Listes.ReversedChain | src/main/java/liste/ListeSimple.java:172-178 | When every cell links to its predecessor (the first to null) and the head is the last cell, the chain is the reverse of the old chain. |
| Listes.ValuesReverse | src/main/java/liste/ListeSimple.java:169-179 | Reversing the links keeps every element with its cell, so the reversed chain's contents are the reversed contents. |
| Listes.Inverser | src/main/java/liste/ListeSimple.java:169-179 | `inverser` makes the chain the reverse of the old chain over the same cells, so the head becomes the old last cell. The contents are reversed and `size` is unchanged. |
| Listes.GetPrecedent | src/main/java/liste/ListeSimple.java:187-196 | For a cell of the list other than the head, the result is the cell just before it in the chain, whose successor is that cell. |
| Listes.Relier | src/main/java/liste/ListeSimple.java:207-223 | The predecessors of `r1` and `r2` are relinked crosswise. If one of them is the head, the other's predecessor links to the old head and `tete` moves to the other cell. |
| Listes.InteriorLink | src/main/java/liste/ListeSimple.java:209-213 | When neither cell is the head, after both steps of the exchange each cell links to the successor of its position in the exchanged chain, adjacent cells included. |
| Listes.FromHeadLink | src/main/java/liste/ListeSimple.java:214-218 | When `r1` is the head, after both steps of the exchange each cell links to the successor of its position in the exchanged chain. |
| Listes.ToHeadLink | src/main/java/liste/ListeSimple.java:219-223 | When `r2` is the head, after both steps of the exchange each cell links to the successor of its position in the exchanged chain. |
| Listes.EchangerLinks | src/main/java/liste/ListeSimple.java:209-226 | On every branch, after the exchange every cell links to the cell following its position in the exchanged chain. |
| Listes.EchangerElements | src/main/java/liste/ListeSimple.java:209-226 | The exchange rewrites links only: every cell keeps its element. |
| Listes.EchangerChain | src/main/java/liste/ListeSimple.java:209-226 | The cells reachable after the exchange are the old chain with positions `i` and `j` exchanged, and the elements stay with their cells. |
| Listes.EchangerSound | src/main/java/liste/ListeSimple.java:207-226 | For two distinct cells of a chain, the writes of `echanger` leave the chain with their positions exchanged, and every element stays with its cell. |
| Listes.Croiser | src/main/java/liste/ListeSimple.java:224-226 | Once the predecessors are relinked, exchanging the two cells' own links gives a valid list. Its chain and its contents are the old ones with the two positions exchanged, and `size` is unchanged. |
| Listes.EchangerFin | src/main/java/liste/ListeSimple.java:204-227 | A state whose arena holds the exchanged chain, with `size` unchanged and every element kept, is a valid list. Its contents are the old contents with the two positions exchanged. |
| Listes.Echanger | src/main/java/liste/ListeSimple.java:204-227 | Exchanging a cell with itself changes nothing, whether or not the cell is in the list. Otherwise the two cells trade places in the chain, and every other cell keeps its position. The elements travel with their cells, the cell set and `size` are unchanged, and `tete` moves to the other cell when either was the head. |
| Listes.TextesCons | src/main/java/liste/ListeSimple.java:66-71 | The texts of the cells holding `[e] + vs` are the text of `e` followed by the texts for `vs`. |
| Listes.InterieurCons | src/main/java/liste/ListeSimple.java:66-71 | In the list's text, the first cell's text is followed by `, ` and the rest exactly when there is a rest. |
| Listes.PrefixeStep | src/main/java/liste/ListeSimple.java:66-71 | One loop turn of `toString` appends one cell's text, and a separator when another cell follows. |
| Listes.ToString | src/main/java/liste/ListeSimple.java:63-74 | The text is `ListeSimple(` and the cells' own texts `Noeud(e)`, head first, separated by `, `, and then `)`. The empty list gives `ListeSimple()`. |
| Listes.AjoutsUnDeuxTrois | src/main/java/liste/ListeSimple.java:25-28 | Adding 3, then 2, then 1 to the empty list gives the contents `1, 2, 3` and size 3. |
| Listes.SupprimePremierDeux | src/main/java/liste/ListeSimple.java:86-104 | Removing the first 2 from `1, 2, 3` leaves `1, 3` with size 2. |
| Listes.SupprimeTousDeux | src/main/java/liste/ListeSimple.java:114-143 | Removing every 2 from `1, 2, 2, 3` leaves `1, 3` with size 2. |
| Listes.InverserUnDeuxTrois | src/main/java/liste/ListeSimple.java:169-179 | Reversing `1, 2, 3` gives `3, 2, 1`. |
| Listes.AvantDernierUnDeuxTrois | src/main/java/liste/ListeSimple.java:150-162 | In `1, 2, 3` the next-to-last cell holds 2. |
| Listes.AvantDernierUn | src/main/java/liste/ListeSimple.java:150-152 | A one-cell list has no next-to-last cell. |
| Listes.AjoutPuisSupprime | src/main/java/liste/ListeSimple.java:25-28 | Adding `e` in front and then removing the first `e` restores the chain, the contents, `tete` and `size`, even when `e` already occurred in the list. |
| Listes.InverserDeuxFois | src/main/java/liste/ListeSimple.java:169-179 | Reversing twice restores the chain, the contents and `size`. |
| Listes.EchangerDeuxFois | src/main/java/liste/ListeSimple.java:204-227 | Exchanging the same two cells twice restores the chain, the contents, `tete` and `size`. This holds for two cells of the list and for any cell with itself. |
| Sequences.ReplaceFirstAt | src/main/java/liste/ListeSimple.java:35-41 | Replacing the first `x` rewrites exactly the position of the first `x`, and nothing when `x` is absent. |
| Sequences.ReplaceAllAt | src/main/java/liste/ListeSimple.java:48-55 | Replacing every `x` rewrites exactly the positions holding `x` and keeps the length. |
| Sequences.RemoveFirstAt | src/main/java/liste/ListeSimple.java:86-104 | Removing the first `x` cuts out exactly the position of the first `x`, and nothing when `x` is absent. |
| Sequences.RemoveAllSpec | src/main/java/liste/ListeSimple.java:132-143 | After removing every `x`, no `x` remains, exactly `Count(s, x)` values are gone, and every other value keeps its multiplicity. |
| Sequences.ReverseAt | src/main/java/liste/ListeSimple.java:169-179 | Position `i` of the reverse holds the value at the mirrored position. |
| Sequences.ReverseInvolution | src/main/java/liste/ListeSimple.java:169-179 | Reversing twice gives back the sequence. |
| Sequences.SwapInvolution | src/main/java/liste/ListeSimple.java:204-227 | Exchanging two positions twice gives back the sequence, and an exchange is a permutation. |
| Sequences.SwapDistinct | src/main/java/liste/ListeSimple.java:204-227 | Exchanging two positions of a repetition-free chain keeps it repetition-free. |

## Left out

- Element comparison in `modifiePremier`, `modifieTous`, `supprimePremier` and `supprimeTousRecurs` is modelled as value equality on `int`. The Java code compares boxed `Integer` references with `==`/`!=`, which agrees with value equality only inside the `Integer` cache (-128 to 127).
- Elements are `int`. `Noeud.setElement(Object)` would accept any object; other payload types are not modelled.
- `size` is a `nat`. Overflow of the Java `long` counter is not modelled.
- Listes.GetPrecedent: requires that the cell is in the list and is not the head. The Java code dereferences null on those inputs, and the model does not represent that crash.
- Listes.Echanger: requires that both cells are in the list when they are distinct. Exchanging a cell with itself returns at once in Java, whatever the cell, and the model allows that case. For two distinct cells, one outside the list makes the Java code dereference null, and the model does not represent that crash.
- Listes.SupprimeTousRecurs: modelled only as called from `supprimeTous`, on a cell of the list's own chain (`p` is the cell at position `k`). A direct call on a foreign chain, which would still decrement `size`, is not modelled.
- Listes.SupprimeTousRecurs: the model always returns a result. The Java recursion uses one stack frame per cell, so on a long enough list `supprimeTous` throws `StackOverflowError`. The list is then left unchanged, because every write happens after the deepest call returns. The model does not represent this stack-depth failure.
- Noeuds.New: allocation picks the identity one above the largest allocated identity. Java's allocator is only known to return a fresh object, and the model uses just that.
- Garbage collection is not modelled. Unlinked cells stay in the arena, unreachable from `tete`.
- The decimal text of an element is the model's own `Text.IntToString`, standing in for Java's `Integer.toString` via string concatenation. `StringBuilder` is modelled as plain string concatenation.
- `echanger` is split into `Listes.Relier` (lines 207-223) and `Listes.Croiser` (lines 224-226). The scan loop of `supprimePremier` (lines 93-98) is `Listes.ChercherPremier`. These are factorings of one Java method each, with the same writes in the same order.
