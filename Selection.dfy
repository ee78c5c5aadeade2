/**
 * The selection state of app.js (`state`, lines 70-73) as a value, and the
 * three ways the page changes it: togglePin, the itinerary's Remove button
 * and a click on a destination card or globe pin. The class in App.dfy
 * performs these changes in place and is specified by the functions here.
 *
 * `pinned` is a JavaScript Set: insertion-ordered and free of duplicates.
 * It is modelled as a sequence whose elements are pairwise distinct.
 */
module Selection {
  import opened Wrappers
  import opened Catalog

  datatype Selection = Selection(pinned: seq<string>, active: Option<string>)

  /** The state the page starts with: nothing pinned, nothing active. */
  const Initial := Selection([], None)

  predicate Distinct(s: seq<string>)
  {
    forall i, j :: 0 <= i < j < |s| ==> s[i] != s[j]
  }

  /** What `pinned` being a Set guarantees. */
  predicate WellFormed(st: Selection)
  {
    Distinct(st.pinned)
  }

  /** Every id in `ids` is in the catalog. */
  predicate AllKnown(places: map<string, Place>, ids: seq<string>)
  {
    forall k :: 0 <= k < |ids| ==> Known(places, ids[k])
  }

  /**
   * The invariant the page means to keep: only catalog ids are pinned, and
   * the active id, when there is one, is pinned.
   */
  predicate Consistent(places: map<string, Place>, st: Selection)
  {
    && WellFormed(st)
    && AllKnown(places, st.pinned)
    && (st.active.Some? ==> st.active.value in st.pinned)
  }

  // ---------------------------------------------------------------------
  // Set.delete on an insertion-ordered set
  // ---------------------------------------------------------------------

  /** `s` without `x`, the other elements in their order (Set.prototype.delete). */
  function Erase(s: seq<string>, x: string): (r: seq<string>)
    ensures forall y {:trigger y in r} :: y in r <==> y in s && y != x
    ensures |r| <= |s|
    ensures x !in s ==> r == s
    ensures Distinct(s) ==> Distinct(r)
  {
    if s == [] then []
    else if s[0] == x then Erase(s[1..], x)
    else
      var rest := Erase(s[1..], x);
      assert Distinct(s) ==> Distinct(s[1..]) && s[0] !in s[1..];
      PrependDistinct(s[0], rest);
      [s[0]] + rest
  }

  /** Putting an element in front of a sequence that lacks it keeps it duplicate-free. */
  lemma PrependDistinct(x: string, s: seq<string>)
    ensures Distinct(s) && x !in s ==> Distinct([x] + s)
  {
    if Distinct(s) && x !in s {
      forall i, j | 0 <= i < j < |[x] + s|
        ensures ([x] + s)[i] != ([x] + s)[j]
      {
        if i > 0 {
          assert ([x] + s)[i] == s[i - 1];
        }
      }
    }
  }

  /** Deleting a present element of a duplicate-free sequence cuts exactly its slot. */
  lemma {:induction false} EraseAt(s: seq<string>, k: nat)
    requires Distinct(s) && k < |s|
    ensures Erase(s, s[k]) == s[..k] + s[k + 1..]
  {
    if k == 0 {
      assert s[0] !in s[1..];
      assert s[..0] + s[1..] == s[1..];
    } else {
      EraseAt(s[1..], k - 1);
      assert s[1..][k - 1] == s[k];
      assert s[..k] == [s[0]] + s[1..][..k - 1];
      assert s[k + 1..] == s[1..][k..];
    }
  }

  /** Deleting the element just added gives the set back (in order). */
  lemma {:induction false} EraseLast(s: seq<string>, x: string)
    requires x !in s
    ensures Erase(s + [x], x) == s
  {
    if s == [] {
      assert [] + [x] == [x];
    } else {
      assert (s + [x])[1..] == s[1..] + [x];
      EraseLast(s[1..], x);
      assert s == [s[0]] + s[1..];
    }
  }

  /** Appending a fresh element keeps the sequence duplicate-free. */
  lemma AppendDistinct(s: seq<string>, x: string)
    ensures Distinct(s) && x !in s ==> Distinct(s + [x])
  {
    if Distinct(s) && x !in s {
      forall i, j | 0 <= i < j < |s + [x]|
        ensures (s + [x])[i] != (s + [x])[j]
      {
        if j == |s| {
          assert (s + [x])[i] == s[i];
        }
      }
    }
  }

  // ---------------------------------------------------------------------
  // The operations
  // ---------------------------------------------------------------------

  /** togglePin (app.js:94-105). */
  function Toggle(places: map<string, Place>, st: Selection, id: string): (r: Selection)
    ensures WellFormed(st) ==> WellFormed(r)
    ensures !Known(places, id) ==> r == st
    ensures Known(places, id) ==> (id in r.pinned <==> id !in st.pinned)
  {
    if !Known(places, id) then st
    else if id in st.pinned then
      Selection(Erase(st.pinned, id), if st.active == Some(id) then None else st.active)
    else
      AppendDistinct(st.pinned, id);
      Selection(st.pinned + [id], Some(id))
  }

  /** The itinerary entry's Remove handler (app.js:169-173). */
  function Remove(st: Selection, id: string): (r: Selection)
    ensures WellFormed(st) ==> WellFormed(r)
    ensures id !in r.pinned
    ensures forall y :: y != id ==> (y in r.pinned <==> y in st.pinned)
  {
    Selection(Erase(st.pinned, id), if st.active == Some(id) then None else st.active)
  }

  /**
   * A click on a destination card or globe pin (app.js:206-208, 215-216):
   * the id is made active first, then togglePin runs.
   */
  function Click(places: map<string, Place>, st: Selection, id: string): (r: Selection)
    ensures WellFormed(st) ==> WellFormed(r)
    ensures r.pinned == Toggle(places, st, id).pinned
  {
    Toggle(places, st.(active := Some(id)), id)
  }

  // ---------------------------------------------------------------------
  // togglePin
  // ---------------------------------------------------------------------

  /** An id outside the catalog changes nothing (app.js:95). */
  lemma ToggleUnknownIsNoOp(places: map<string, Place>, st: Selection, id: string)
    requires !Known(places, id)
    ensures Toggle(places, st, id) == st
  {
  }

  /**
   * Pinning a catalog id that is not pinned appends it, keeps every earlier
   * pin where it was, and makes it the active id (app.js:102-104).
   */
  lemma TogglePinsAtEnd(places: map<string, Place>, st: Selection, id: string)
    requires WellFormed(st) && Known(places, id) && id !in st.pinned
    ensures var r := Toggle(places, st, id);
      && WellFormed(r)
      && |r.pinned| == |st.pinned| + 1
      && r.pinned[..|st.pinned|] == st.pinned
      && r.pinned[|st.pinned|] == id
      && r.active == Some(id)
  {
    var r := Toggle(places, st, id);
    assert r.pinned == st.pinned + [id];
  }

  /**
   * Unpinning a pinned catalog id removes exactly that id from its slot, keeps
   * the others in order, and clears `active` only if it named that id
   * (app.js:97-101).
   */
  lemma ToggleUnpinsInPlace(places: map<string, Place>, st: Selection, id: string, k: nat)
    requires WellFormed(st) && Known(places, id) && k < |st.pinned| && st.pinned[k] == id
    ensures var r := Toggle(places, st, id);
      && r.pinned == st.pinned[..k] + st.pinned[k + 1..]
      && multiset(r.pinned) == multiset(st.pinned) - multiset{id}
      && (st.active == Some(id) ==> r.active == None)
      && (st.active != Some(id) ==> r.active == st.active)
  {
    EraseAt(st.pinned, k);
    assert st.pinned == st.pinned[..k] + [id] + st.pinned[k + 1..];
  }

  /**
   * Toggling an unpinned catalog id twice gives back the same pin order and
   * leaves nothing active: the second toggle clears the `active` that the
   * first one set.
   */
  lemma {:induction false} ToggleTwiceUnpinned(places: map<string, Place>, st: Selection, id: string)
    requires Known(places, id) && id !in st.pinned
    ensures Toggle(places, Toggle(places, st, id), id) == Selection(st.pinned, None)
  {
    EraseLast(st.pinned, id);
  }

  /**
   * Toggling a pinned catalog id twice does not restore the state: the id
   * moves to the end of the pin order and becomes active.
   */
  lemma {:induction false} ToggleTwicePinned(places: map<string, Place>, st: Selection, id: string, k: nat)
    requires WellFormed(st) && Known(places, id) && k < |st.pinned| && st.pinned[k] == id
    ensures Toggle(places, Toggle(places, st, id), id)
         == Selection(st.pinned[..k] + st.pinned[k + 1..] + [id], Some(id))
  {
    EraseAt(st.pinned, k);
  }

  /** togglePin keeps the page's invariant. */
  lemma ToggleKeepsConsistent(places: map<string, Place>, st: Selection, id: string)
    requires Consistent(places, st)
    ensures Consistent(places, Toggle(places, st, id))
  {
    ToggleKeepsAllKnown(places, st, id);
  }

  /** togglePin pins nothing outside the catalog (app.js:95), whatever `active` is. */
  lemma ToggleKeepsAllKnown(places: map<string, Place>, st: Selection, id: string)
    requires AllKnown(places, st.pinned)
    ensures AllKnown(places, Toggle(places, st, id).pinned)
  {
    var r := Toggle(places, st, id);
    forall k | 0 <= k < |r.pinned|
      ensures Known(places, r.pinned[k])
    {
      assert r.pinned[k] in r.pinned;
      assert r.pinned[k] in st.pinned || r.pinned[k] == id;
    }
  }

  // ---------------------------------------------------------------------
  // Remove
  // ---------------------------------------------------------------------

  /**
   * Remove on a pinned id cuts it from its slot, keeps the others in order
   * and clears `active` only if it named that id.
   */
  lemma RemoveInPlace(st: Selection, k: nat)
    requires WellFormed(st) && k < |st.pinned|
    ensures var r := Remove(st, st.pinned[k]);
      && r.pinned == st.pinned[..k] + st.pinned[k + 1..]
      && (r.active == if st.active == Some(st.pinned[k]) then None else st.active)
  {
    EraseAt(st.pinned, k);
  }

  /**
   * Remove on an id that is not pinned changes nothing unless that id is the
   * (dangling) active one; in a consistent state it never is.
   */
  lemma RemoveUnpinnedIsNoOp(places: map<string, Place>, st: Selection, id: string)
    requires id !in st.pinned
    ensures Remove(st, id) == st <==> st.active != Some(id)
    ensures Consistent(places, st) ==> Remove(st, id) == st
  {
  }

  /** Remove keeps the page's invariant. */
  lemma RemoveKeepsConsistent(places: map<string, Place>, st: Selection, id: string)
    requires Consistent(places, st)
    ensures Consistent(places, Remove(st, id))
  {
    RemoveKeepsAllKnown(places, st, id);
  }

  /** Remove only ever takes ids out, so only catalog ids stay pinned. */
  lemma RemoveKeepsAllKnown(places: map<string, Place>, st: Selection, id: string)
    requires AllKnown(places, st.pinned)
    ensures AllKnown(places, Remove(st, id).pinned)
  {
    var r := Remove(st, id);
    forall k | 0 <= k < |r.pinned|
      ensures Known(places, r.pinned[k])
    {
      assert r.pinned[k] in r.pinned;
      assert r.pinned[k] in st.pinned;
    }
  }

  // ---------------------------------------------------------------------
  // Card and pin clicks
  // ---------------------------------------------------------------------

  /**
   * A click on a pinned catalog id unpins it and leaves nothing active,
   * whatever was active before: the click itself made it active.
   */
  lemma ClickPinned(places: map<string, Place>, st: Selection, id: string)
    requires Known(places, id) && id in st.pinned
    ensures Click(places, st, id) == Selection(Erase(st.pinned, id), None)
    ensures id !in Click(places, st, id).pinned
  {
  }

  /** A click on an unpinned catalog id pins it at the end and makes it active. */
  lemma ClickUnpinned(places: map<string, Place>, st: Selection, id: string)
    requires Known(places, id) && id !in st.pinned
    ensures Click(places, st, id) == Selection(st.pinned + [id], Some(id))
  {
  }

  /** A click keeps the invariant when the id is in the catalog. */
  lemma ClickKnownKeepsConsistent(places: map<string, Place>, st: Selection, id: string)
    requires Consistent(places, st) && Known(places, id)
    ensures Consistent(places, Click(places, st, id))
  {
    ClickKeepsAllKnown(places, st, id);
  }

  /**
   * A click on any id, in the catalog or not, pins nothing outside the
   * catalog: the unknown-id click only leaves `active` dangling.
   */
  lemma ClickKeepsAllKnown(places: map<string, Place>, st: Selection, id: string)
    requires AllKnown(places, st.pinned)
    ensures AllKnown(places, Click(places, st, id).pinned)
  {
    ToggleKeepsAllKnown(places, st, id);
  }

  /**
   * A click on an id outside the catalog leaves the pins alone but still
   * makes that id active, so the active id is no longer pinned: togglePin
   * returns before it could undo the assignment.
   */
  lemma ClickUnknownDangles(places: map<string, Place>, st: Selection, id: string)
    requires !Known(places, id)
    ensures Click(places, st, id) == Selection(st.pinned, Some(id))
    ensures Consistent(places, st) ==> !Consistent(places, Click(places, st, id))
  {
    if Consistent(places, st) {
      assert id !in st.pinned;
    }
  }
}
