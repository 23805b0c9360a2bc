/** Tiles of a double-six domino set, the canonical 28-tile list and the
    counting and removal helpers the rest of the engine works with. */
module Tiles {

  /** A pip value on one half of a tile. */
  type Pip = p: int | 0 <= p <= 6

  /** A tile as the game stores it: a two-element list whose order is the
      tile's orientation once it lies in the chain. */
  datatype Tile = Tile(first: Pip, second: Pip) {

    /** `v in tile`: one of the two halves shows `v`. */
    predicate Has(v: int) {
      first == v || second == v
    }

    /** The tile after an in-place `reverse()`. */
    function Reversed(): Tile {
      Tile(second, first)
    }

    /** The orientation the tile has in the canonical list (smaller half first). */
    function Norm(): (t: Tile)
      ensures t.first <= t.second
      ensures t == this || t == Reversed()
    {
      if first <= second then this else Reversed()
    }

    /** `tile.count(v)`: how many halves show `v` (a double counts twice). */
    function Pips(v: int): (n: nat)
      ensures n <= 2
      ensures n == 0 <==> !Has(v)
    {
      (if first == v then 1 else 0) + (if second == v then 1 else 0)
    }

    predicate IsDouble() {
      first == second
    }
  }

  /** The canonical set, in the order the program lists it. */
  const Dominos: seq<Tile> :=
    [Tile(0, 0), Tile(0, 1), Tile(0, 2), Tile(0, 3), Tile(0, 4), Tile(0, 5), Tile(0, 6),
     Tile(1, 1), Tile(1, 2), Tile(1, 3), Tile(1, 4), Tile(1, 5), Tile(1, 6),
     Tile(2, 2), Tile(2, 3), Tile(2, 4), Tile(2, 5), Tile(2, 6),
     Tile(3, 3), Tile(3, 4), Tile(3, 5), Tile(3, 6),
     Tile(4, 4), Tile(4, 5), Tile(4, 6),
     Tile(5, 5), Tile(5, 6),
     Tile(6, 6)]

  /** Strict lexicographic order on tiles; the canonical list is increasing in it. */
  predicate Less(s: Tile, t: Tile) {
    s.first < t.first || (s.first == t.first && s.second < t.second)
  }

  predicate Distinct<T(==)>(s: seq<T>) {
    forall i, j :: 0 <= i < j < |s| ==> s[i] != s[j]
  }

  /** Every tile normalised: the contents of a container regardless of orientation. */
  function Canon(s: seq<Tile>): (r: seq<Tile>)
    ensures |r| == |s|
    ensures forall i :: 0 <= i < |s| ==> r[i] == s[i].Norm()
  {
    seq(|s|, i requires 0 <= i < |s| => s[i].Norm())
  }

  /** Total number of halves showing `v` across `tiles`. */
  function Occurrences(tiles: seq<Tile>, v: int): nat {
    if |tiles| == 0 then 0
    else Occurrences(tiles[..|tiles| - 1], v) + tiles[|tiles| - 1].Pips(v)
  }

  /** `list.pop(i)` without the returned element. */
  function RemoveAt<T>(s: seq<T>, i: nat): (r: seq<T>)
    requires i < |s|
    ensures |r| == |s| - 1
    ensures multiset(r) + multiset{s[i]} == multiset(s)
    ensures forall k :: 0 <= k < i ==> r[k] == s[k]
    ensures forall k :: i <= k < |r| ==> r[k] == s[k + 1]
  {
    assert s == s[..i] + [s[i]] + s[i + 1..];
    s[..i] + s[i + 1..]
  }

  /** `list.index(x)`: the position of the first element equal to `x`. */
  function IndexOf<T(==)>(s: seq<T>, x: T): (k: nat)
    requires x in s
    ensures k < |s| && s[k] == x
    ensures forall j :: 0 <= j < k ==> s[j] != x
  {
    if s[0] == x then 0 else 1 + IndexOf(s[1..], x)
  }

  /** `list.remove(x)`: drop the first element equal to `x`. */
  function RemoveFirst<T(==)>(s: seq<T>, x: T): (r: seq<T>)
    requires x in s
    ensures |r| == |s| - 1
    ensures multiset(r) + multiset{x} == multiset(s)
  {
    RemoveAt(s, IndexOf(s, x))
  }

  /** `list.remove(x)` deletes the first element equal to `x` and keeps the
      others in their order. */
  lemma RemoveFirstIsFirst<T>(s: seq<T>, x: T)
    requires x in s
    ensures exists k :: 0 <= k < |s| && s[k] == x && x !in s[..k] && RemoveFirst(s, x) == s[..k] + s[k + 1..]
  {
    var k := IndexOf(s, x);
    assert x !in s[..k];
    assert RemoveFirst(s, x) == s[..k] + s[k + 1..];
  }

  // ---------------------------------------------------------------------
  // The canonical set

  /** The list holds 28 distinct tiles, each with its smaller half first,
      and every pair 0 <= a <= b <= 6 is one of them. */
  lemma DominosIsFullSet()
    ensures |Dominos| == 28
    ensures forall i :: 0 <= i < |Dominos| ==> Dominos[i].first <= Dominos[i].second
    ensures Distinct(Dominos)
    ensures forall a: Pip, b: Pip :: a <= b ==> Tile(a, b) in Dominos
  {
    DominosIncreasing();
    DominosCanonical();
    IncreasingIsDistinct(Dominos);
    forall a: Pip, b: Pip | a <= b ensures Tile(a, b) in Dominos {
      DominosHas(a, b);
    }
  }

  lemma DominosIncreasing()
    ensures forall i :: 0 <= i < |Dominos| - 1 ==> Less(Dominos[i], Dominos[i + 1])
  {
  }

  lemma DominosCanonical()
    ensures |Dominos| == 28
    ensures forall i :: 0 <= i < |Dominos| ==> Dominos[i].first <= Dominos[i].second
  {
  }

  lemma DominosHas(a: Pip, b: Pip)
    requires a <= b
    ensures Tile(a, b) in Dominos
  {
    var rowStart := [0, 7, 13, 18, 22, 25, 27];
    assert Dominos[rowStart[a] + (b - a)] == Tile(a, b);
  }

  lemma {:induction false} IncreasingIsDistinct(s: seq<Tile>)
    requires forall i :: 0 <= i < |s| - 1 ==> Less(s[i], s[i + 1])
    ensures forall i, j :: 0 <= i < j < |s| ==> Less(s[i], s[j])
    ensures Distinct(s)
  {
    if |s| > 1 {
      IncreasingIsDistinct(s[1..]);
      forall i, j | 0 <= i < j < |s| ensures Less(s[i], s[j]) {
        if i > 0 {
          assert Less(s[1..][i - 1], s[1..][j - 1]);
        } else if j > 1 {
          assert Less(s[1..][0], s[1..][j - 1]);
        }
      }
    }
  }

  lemma {:induction false} OccurrencesConcat(a: seq<Tile>, b: seq<Tile>, v: int)
    ensures Occurrences(a + b, v) == Occurrences(a, v) + Occurrences(b, v)
  {
    if |b| == 0 {
      assert a + b == a;
    } else {
      assert (a + b)[..|a + b| - 1] == a + b[..|b| - 1];
      OccurrencesConcat(a, b[..|b| - 1], v);
    }
  }

  /** Row `a` of the canonical list, cut to its first `m` tiles: [a,a], [a,a+1], ... */
  function Row(a: Pip, m: nat): (r: seq<Tile>)
    requires a + m <= 7
  {
    seq(m, k requires 0 <= k < m => Tile(a, a + k))
  }

  lemma {:induction false} RowOccurrences(a: Pip, m: nat, v: int)
    requires a + m <= 7
    ensures Occurrences(Row(a, m), v) ==
      if v == a then (if m == 0 then 0 else m + 1)
      else if a < v < a + m then 1
      else 0
  {
    if m > 0 {
      assert Row(a, m)[..m - 1] == Row(a, m - 1);
      RowOccurrences(a, m - 1, v);
    }
  }

  /** The canonical list is its seven rows, one after the other. */
  lemma DominosAreRows()
    ensures Dominos == Row(0, 7) + Row(1, 6) + Row(2, 5) + Row(3, 4) + Row(4, 3) + Row(5, 2) + Row(6, 1)
  {
  }

  /** Each pip value shows on exactly eight halves of the set. */
  lemma DominosOccurrences(v: Pip)
    ensures Occurrences(Dominos, v) == 8
  {
    var r0, r1, r2, r3 := Row(0, 7), Row(1, 6), Row(2, 5), Row(3, 4);
    var r4, r5, r6 := Row(4, 3), Row(5, 2), Row(6, 1);
    DominosAreRows();
    OccurrencesConcat(r0 + r1 + r2 + r3 + r4 + r5, r6, v);
    OccurrencesConcat(r0 + r1 + r2 + r3 + r4, r5, v);
    OccurrencesConcat(r0 + r1 + r2 + r3, r4, v);
    OccurrencesConcat(r0 + r1 + r2, r3, v);
    OccurrencesConcat(r0 + r1, r2, v);
    OccurrencesConcat(r0, r1, v);
    RowOccurrences(0, 7, v);
    RowOccurrences(1, 6, v);
    RowOccurrences(2, 5, v);
    RowOccurrences(3, 4, v);
    RowOccurrences(4, 3, v);
    RowOccurrences(5, 2, v);
    RowOccurrences(6, 1, v);
  }

  // ---------------------------------------------------------------------
  // Containers up to orientation

  /** The tiles of a container as a bag, each tile normalised: a tile counts
      as the same tile whichever way round it lies. */
  ghost function Bag(s: seq<Tile>): multiset<Tile> {
    if |s| == 0 then multiset{}
    else multiset{s[0].Norm()} + Bag(s[1..])
  }

  lemma {:induction false} BagConcat(a: seq<Tile>, b: seq<Tile>)
    ensures Bag(a + b) == Bag(a) + Bag(b)
  {
    if |a| == 0 {
      assert a + b == b;
    } else {
      assert (a + b)[1..] == a[1..] + b;
      BagConcat(a[1..], b);
    }
  }

  /** Removing a tile removes its normalised copy from the bag. */
  lemma {:induction false} BagRemoveAt(s: seq<Tile>, i: nat)
    requires i < |s|
    ensures Bag(s) == Bag(RemoveAt(s, i)) + multiset{s[i].Norm()}
  {
    if i == 0 {
      assert RemoveAt(s, 0) == s[1..];
    } else {
      var r := RemoveAt(s, i);
      assert r[1..] == RemoveAt(s[1..], i - 1);
      BagRemoveAt(s[1..], i - 1);
    }
  }

  /** The bag is the multiset of the normalised copies. */
  lemma {:induction false} BagIsCanon(s: seq<Tile>)
    ensures Bag(s) == multiset(Canon(s))
  {
    if |s| > 0 {
      assert Canon(s) == [s[0].Norm()] + Canon(s[1..]);
      BagIsCanon(s[1..]);
    }
  }

  /** Tiles taken from a bag holding the whole set lie with their smaller half first. */
  lemma SubsetIsCanonical(s: seq<Tile>, m: multiset<Tile>)
    requires FullSet(m) && multiset(s) <= m
    ensures forall i :: 0 <= i < |s| ==> s[i].first <= s[i].second
  {
    forall i | 0 <= i < |s| ensures s[i].first <= s[i].second {
      assert s[i] in multiset(s);
      assert m[s[i]] > 0;
    }
  }

  /** Tiles lying in canonical orientation: their bag is their multiset. */
  lemma {:induction false} BagOfCanonical(s: seq<Tile>)
    requires forall i :: 0 <= i < |s| ==> s[i].first <= s[i].second
    ensures Bag(s) == multiset(s)
  {
    if |s| > 0 {
      assert s == [s[0]] + s[1..];
      BagOfCanonical(s[1..]);
    }
  }

  /** Flipping tiles does not change how often a value shows. */
  lemma {:induction false} OccurrencesCanon(s: seq<Tile>, v: int)
    ensures Occurrences(Canon(s), v) == Occurrences(s, v)
  {
    if |s| > 0 {
      assert Canon(s)[..|s| - 1] == Canon(s[..|s| - 1]);
      OccurrencesCanon(s[..|s| - 1], v);
    }
  }

  lemma OccurrencesRemoveAt(s: seq<Tile>, k: nat, v: int)
    requires k < |s|
    ensures Occurrences(s, v) == Occurrences(RemoveAt(s, k), v) + s[k].Pips(v)
  {
    assert s == (s[..k] + [s[k]]) + s[k + 1..];
    OccurrencesConcat(s[..k] + [s[k]], s[k + 1..], v);
    OccurrencesConcat(s[..k], [s[k]], v);
    OccurrencesConcat(s[..k], s[k + 1..], v);
    assert [s[k]][..0] == [];
  }

  /** The count depends only on which tiles there are, not on their order. */
  lemma {:induction false} OccurrencesPermutation(a: seq<Tile>, b: seq<Tile>, v: int)
    requires multiset(a) == multiset(b)
    ensures Occurrences(a, v) == Occurrences(b, v)
  {
    if |a| > 0 {
      var last := a[|a| - 1];
      assert a == a[..|a| - 1] + [last];
      assert last in multiset(b);
      var k := IndexOf(b, last);
      var rest := RemoveAt(b, k);
      assert multiset(a[..|a| - 1]) == multiset(rest) by {
        assert multiset(a[..|a| - 1]) == multiset(a) - multiset{last};
        assert multiset(rest) == multiset(b) - multiset{last};
      }
      OccurrencesPermutation(a[..|a| - 1], rest, v);
      OccurrencesRemoveAt(b, k, v);
    }
  }

  /** A sequence has no repeated element exactly when no element occurs twice in its multiset. */
  lemma {:induction false} DistinctMultiset<T>(s: seq<T>)
    ensures Distinct(s) <==> forall x :: multiset(s)[x] <= 1
  {
    if Distinct(s) {
      if |s| > 0 {
        assert s == [s[0]] + s[1..];
        assert Distinct(s[1..]) by {
          forall i, j | 0 <= i < j < |s| - 1 ensures s[1..][i] != s[1..][j] {
            assert s[i + 1] != s[j + 1];
          }
        }
        DistinctMultiset(s[1..]);
        assert s[0] !in s[1..];
      }
    } else {
      var i, j :| 0 <= i < j < |s| && s[i] == s[j];
      assert s == s[..j] + s[j..];
      assert s[i] in s[..j];
      assert s[j] in s[j..];
      assert multiset(s)[s[i]] >= 2;
    }
  }

  /** In a sequence without repeats, `index` finds each element at its own position. */
  lemma IndexOfDistinct<T>(s: seq<T>, i: nat)
    requires Distinct(s) && i < |s|
    ensures IndexOf(s, s[i]) == i
  {
  }

  /** Tiles that differ once normalised differ as they lie. */
  lemma CanonDistinct(s: seq<Tile>)
    requires Distinct(Canon(s))
    ensures Distinct(s)
  {
    forall i, j | 0 <= i < j < |s| ensures s[i] != s[j] {
      assert Canon(s)[i] != Canon(s)[j];
    }
  }

  /** A bag of tiles that is the whole set: every tile with its smaller half
      first exactly once, and nothing else. */
  ghost predicate FullSet(m: multiset<Tile>) {
    forall t: Tile :: m[t] == if t.first <= t.second then 1 else 0
  }

  lemma FullSetOf(s: seq<Tile>)
    requires Distinct(s)
    requires forall i :: 0 <= i < |s| ==> s[i].first <= s[i].second
    requires forall a: Pip, b: Pip :: a <= b ==> Tile(a, b) in s
    ensures FullSet(multiset(s))
  {
    DistinctMultiset(s);
    forall t: Tile ensures multiset(s)[t] == if t.first <= t.second then 1 else 0 {
      if t.first <= t.second {
        assert t in s;
      } else {
        assert t !in s;
      }
    }
  }

  /** A part of the whole set holds each tile at most once, whichever way round it lies. */
  lemma PartOfFullSetIsDistinct(part: seq<Tile>, whole: multiset<Tile>)
    requires FullSet(whole) && Bag(part) <= whole
    ensures Distinct(Canon(part))
  {
    BagIsCanon(part);
    forall t ensures multiset(Canon(part))[t] <= 1 {
      assert Bag(part)[t] <= whole[t];
    }
    DistinctMultiset(Canon(part));
  }

  lemma FullSetUnique(m: multiset<Tile>, n: multiset<Tile>)
    requires FullSet(m) && FullSet(n)
    ensures m == n
  {
    assert forall t :: m[t] == n[t];
  }

  lemma DominosFormFullSet()
    ensures FullSet(multiset(Dominos))
  {
    DominosIsFullSet();
    FullSetOf(Dominos);
  }

  lemma FullSetIsDominos(m: multiset<Tile>)
    requires FullSet(m)
    ensures m == multiset(Dominos)
  {
    DominosFormFullSet();
    FullSetUnique(m, multiset(Dominos));
  }
}
