/** The coordinate-list store of a sparse matrix: a sequence of (row, col, value) entries
    scanned linearly, as std::find_if does in getElement and setElement. */
module Entries {

  datatype Entry = Entry(row: int, col: int, value: int)

  predicate At(e: Entry, r: int, c: int) {
    e.row == r && e.col == c
  }

  /** Index of the first entry at (r, c), or |es| when there is none (find_if's end()). */
  function FindCoord(es: seq<Entry>, r: int, c: int): (i: nat)
    ensures i <= |es|
    ensures i < |es| ==> At(es[i], r, c)
    ensures forall k {:trigger At(es[k], r, c)} :: 0 <= k < i ==> !At(es[k], r, c)
  {
    if es == [] then 0
    else if At(es[0], r, c) then 0
    else 1 + FindCoord(es[1..], r, c)
  }

  /** The value getElement reads: the first matching entry's value, else 0. */
  function Lookup(es: seq<Entry>, r: int, c: int): (v: int)
    ensures v != 0 ==> exists k :: 0 <= k < |es| && At(es[k], r, c) && es[k].value == v
    ensures (forall k :: 0 <= k < |es| ==> !At(es[k], r, c)) ==> v == 0
  {
    var i := FindCoord(es, r, c);
    if i < |es| then es[i].value else 0
  }

  ghost predicate NoZeros(es: seq<Entry>) {
    forall k :: 0 <= k < |es| ==> es[k].value != 0
  }

  ghost predicate DistinctCoords(es: seq<Entry>) {
    forall i, j :: 0 <= i < j < |es| ==> !At(es[j], es[i].row, es[i].col)
  }

  /** The store invariant that setElement keeps: no stored zeros, one entry per coordinate. */
  ghost predicate WellFormed(es: seq<Entry>) {
    NoZeros(es) && DistinctCoords(es)
  }

  /** The new store after setElement(r, c, v): overwrite the found entry in place,
      erase it when v is 0, append when absent and v is nonzero, otherwise no change. */
  function Assign(es: seq<Entry>, r: int, c: int, v: int): (es': seq<Entry>)
    ensures |es'| <= |es| + 1
    ensures forall k :: 0 <= k < |es'| ==> es'[k] == Entry(r, c, v) || es'[k] in es
    ensures v != 0 ==> Entry(r, c, v) in es'
  {
    var i := FindCoord(es, r, c);
    if i < |es| then
      if v != 0 then
        var updated := es[i := Entry(r, c, v)];
        assert updated[i] == Entry(r, c, v);
        updated
      else es[..i] + es[i + 1..]
    else if v != 0 then es + [Entry(r, c, v)]
    else es
  }

  /** FindCoord is determined by its contract: the first index that matches. */
  lemma FindCoordIs(es: seq<Entry>, r: int, c: int, i: nat)
    requires i <= |es|
    requires i < |es| ==> At(es[i], r, c)
    requires forall k :: 0 <= k < i ==> !At(es[k], r, c)
    ensures FindCoord(es, r, c) == i
  {
  }

  /** In a store with distinct coordinates, every entry is the one found for its coordinate. */
  lemma LookupEntry(es: seq<Entry>, k: int)
    requires DistinctCoords(es)
    requires 0 <= k < |es|
    ensures FindCoord(es, es[k].row, es[k].col) == k
    ensures Lookup(es, es[k].row, es[k].col) == es[k].value
  {
    FindCoordIs(es, es[k].row, es[k].col, k);
  }

  /** Reading a store extended at the end by one entry whose coordinate is new. */
  lemma LookupSnoc(es: seq<Entry>, e: Entry, r: int, c: int)
    requires DistinctCoords(es + [e])
    ensures Lookup(es + [e], r, c) == if At(e, r, c) then e.value else Lookup(es, r, c)
    ensures At(e, r, c) ==> Lookup(es, r, c) == 0
  {
    var s := es + [e];
    var f := FindCoord(es, r, c);
    if f < |es| {
      FindCoordIs(s, r, c, f);
      assert s[f] == es[f] && s[|es|] == e;
    } else {
      FindCoordIs(s, r, c, if At(e, r, c) then |es| else |s|);
    }
  }

  /** In a store without zeros, a coordinate reads 0 exactly when no entry sits there. */
  lemma ZeroIsAbsent(es: seq<Entry>, r: int, c: int)
    requires NoZeros(es)
    ensures Lookup(es, r, c) == 0 <==> forall k :: 0 <= k < |es| ==> !At(es[k], r, c)
  {
    var i := FindCoord(es, r, c);
    if i < |es| {
      assert es[i].value != 0;
    }
  }

  /** After setElement(r, c, v), (r, c) reads v and every other coordinate reads as before. */
  lemma AssignGet(es: seq<Entry>, r: int, c: int, v: int, r': int, c': int)
    requires DistinctCoords(es)
    ensures Lookup(Assign(es, r, c, v), r', c') == if r' == r && c' == c then v else Lookup(es, r', c')
  {
    var i := FindCoord(es, r, c);
    if i < |es| {
      if v != 0 {
        UpdateGet(es, i, r, c, v, r', c');
      } else {
        EraseGet(es, i, r, c, r', c');
      }
    } else if v != 0 {
      AppendDistinct(es, Entry(r, c, v));
      LookupSnoc(es, Entry(r, c, v), r', c');
    }
  }

  /** Overwriting the value of the entry found at (r, c). */
  lemma UpdateGet(es: seq<Entry>, i: nat, r: int, c: int, v: int, r': int, c': int)
    requires DistinctCoords(es)
    requires i == FindCoord(es, r, c) && i < |es|
    ensures Lookup(es[i := Entry(r, c, v)], r', c') == if r' == r && c' == c then v else Lookup(es, r', c')
  {
    var s := es[i := Entry(r, c, v)];
    if r' == r && c' == c {
      FindCoordIs(s, r', c', i);
    } else {
      FindCoordIs(s, r', c', FindCoord(es, r', c'));
    }
  }

  /** Erasing the entry found at (r, c): with distinct coordinates, (r, c) then reads 0. */
  lemma EraseGet(es: seq<Entry>, i: nat, r: int, c: int, r': int, c': int)
    requires DistinctCoords(es)
    requires i == FindCoord(es, r, c) && i < |es|
    ensures Lookup(es[..i] + es[i + 1..], r', c') == if r' == r && c' == c then 0 else Lookup(es, r', c')
  {
    var s := es[..i] + es[i + 1..];
    EraseIndex(es, i, s);
    if r' == r && c' == c {
      EraseGetSame(es, i, s, r, c);
    } else {
      EraseGetOther(es, i, s, r, c, r', c');
    }
  }

  lemma EraseGetSame(es: seq<Entry>, i: nat, s: seq<Entry>, r: int, c: int)
    requires DistinctCoords(es)
    requires i == FindCoord(es, r, c) && i < |es|
    requires |s| == |es| - 1
    requires forall k :: 0 <= k < i ==> s[k] == es[k]
    requires forall k :: i <= k < |s| ==> s[k] == es[k + 1]
    ensures Lookup(s, r, c) == 0
  {
    forall k | 0 <= k < |s| ensures !At(s[k], r, c) {
      if i <= k {
        assert !At(es[k + 1], es[i].row, es[i].col);
      }
    }
    FindCoordIs(s, r, c, |s|);
  }

  lemma EraseGetOther(es: seq<Entry>, i: nat, s: seq<Entry>, r: int, c: int, r': int, c': int)
    requires i == FindCoord(es, r, c) && i < |es|
    requires |s| == |es| - 1
    requires forall k :: 0 <= k < i ==> s[k] == es[k]
    requires forall k :: i <= k < |s| ==> s[k] == es[k + 1]
    requires r' != r || c' != c
    ensures Lookup(s, r', c') == Lookup(es, r', c')
  {
    var f := FindCoord(es, r', c');
    var g := if f < i then f else f - 1;
    forall k | 0 <= k < g ensures !At(s[k], r', c') {
      if k < i {
        assert s[k] == es[k] && !At(es[k], r', c');
      } else {
        assert s[k] == es[k + 1] && !At(es[k + 1], r', c');
      }
    }
    if f < |es| {
      assert s[g] == es[f];
    }
    FindCoordIs(s, r', c', g);
  }

  /** Where the entries of es sit once the one at index i is erased. */
  lemma EraseIndex(es: seq<Entry>, i: nat, s: seq<Entry>)
    requires i < |es| && s == es[..i] + es[i + 1..]
    ensures |s| == |es| - 1
    ensures forall k :: 0 <= k < i ==> s[k] == es[k]
    ensures forall k :: i <= k < |s| ==> s[k] == es[k + 1]
  {
  }

  /** Appending an entry whose coordinate is absent keeps the coordinates distinct. */
  lemma AppendDistinct(es: seq<Entry>, e: Entry)
    requires DistinctCoords(es)
    requires FindCoord(es, e.row, e.col) == |es|
    ensures DistinctCoords(es + [e])
  {
    var s := es + [e];
    forall i, j | 0 <= i < j < |s| ensures !At(s[j], s[i].row, s[i].col) {
      if j == |es| {
        assert !At(es[i], e.row, e.col);
      }
    }
  }

  /** setElement keeps the store invariant. */
  lemma AssignWellFormed(es: seq<Entry>, r: int, c: int, v: int)
    requires WellFormed(es)
    ensures WellFormed(Assign(es, r, c, v))
  {
    var i := FindCoord(es, r, c);
    var s := Assign(es, r, c, v);
    if i < |es| && v == 0 {
      EraseIndex(es, i, s);
    } else if i == |es| && v != 0 {
      AppendDistinct(es, Entry(r, c, v));
    }
  }

  /** Applying an entry whose coordinate is not yet stored appends it. */
  lemma AssignAppend(es: seq<Entry>, e: Entry)
    requires WellFormed(es + [e])
    ensures Assign(es, e.row, e.col, e.value) == es + [e]
  {
    var s := es + [e];
    forall k | 0 <= k < |es| ensures !At(es[k], e.row, e.col) {
      assert s[k] == es[k] && s[|es|] == e;
    }
    FindCoordIs(es, e.row, e.col, |es|);
    assert s[|es|].value != 0;
  }

  /** Each prefix of a well-formed store is well formed. */
  lemma PrefixWellFormed(es: seq<Entry>, n: nat)
    requires WellFormed(es)
    requires n <= |es|
    ensures WellFormed(es[..n])
  {
  }
}
