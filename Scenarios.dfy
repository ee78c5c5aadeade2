/**
 * Walk-throughs of the page: what the state and the views are after a few
 * clicks, stated for any catalog holding the ids involved and then for the
 * page's own catalog.
 */
module Scenarios {
  import opened Wrappers
  import opened Catalog
  import opened Selection
  import opened Views
  import opened App

  /**
   * The render at page load (renderPins and renderPinnedList only) marks no
   * pin or card and shows the itinerary's placeholder, whatever the catalog.
   */
  lemma LoadShowsPlaceholders(places: map<string, Place>, ids: seq<string>)
    ensures Itinerary(places, Initial) == NoPins
    ensures forall i :: 0 <= i < |ids| ==> !Marks(ids, Initial.pinned)[i]
  {
  }

  /** Clicking the Paris card on a fresh page pins "paris" and makes it active. */
  lemma ClickParisCard()
    ensures Click(Places, Initial, "paris") == Selection(["paris"], Some("paris"))
  {
    assert Known(Places, "paris");
    ClickUnpinned(Places, Initial, "paris");
  }

  /** With Paris pinned and active, the panel is headed "Paris, France". */
  lemma ParisPanel()
    ensures ActivePanel(Places, Selection(["paris"], Some("paris"))).Heading() == "Paris, France"
  {
    assert Known(Places, "paris");
  }

  /** With one catalog id pinned, the itinerary holds one entry, named after it. */
  lemma OnePinOneEntry(places: map<string, Place>, id: string, active: Option<string>)
    requires Known(places, id)
    ensures var v := Itinerary(places, Selection([id], active));
      v.Entries? && |v.entries| == 1 && v.entries[0].name == places[id].name
  {
    var st := Selection([id], active);
    assert AllKnown(places, st.pinned);
    ItineraryListsPins(places, st);
  }

  /** With only Paris pinned, the itinerary holds a single entry, "Paris, France". */
  lemma ParisItinerary()
    ensures var v := Itinerary(Places, Selection(["paris"], Some("paris")));
      v.Entries? && |v.entries| == 1 && v.entries[0].name == "Paris, France"
  {
    assert Known(Places, "paris");
    OnePinOneEntry(Places, "paris", Some("paris"));
  }

  /**
   * Pinning a, then b, then removing a leaves only b, still active, since a
   * was not the active id when it was removed.
   */
  lemma PinTwoRemoveFirst(places: map<string, Place>, a: string, b: string)
    requires Known(places, a) && Known(places, b) && a != b
    ensures Remove(Toggle(places, Toggle(places, Initial, a), b), a) == Selection([b], Some(b))
  {
    var s1 := Toggle(places, Initial, a);
    assert s1 == Selection([a], Some(a));
    var s2 := Toggle(places, s1, b);
    assert s2 == Selection([a, b], Some(b));
    RemoveInPlace(s2, 0);
  }

  /** Tokyo, then Paris, then removing Tokyo leaves Paris pinned and active. */
  lemma TokyoParisRemoveTokyo()
    ensures Remove(Toggle(Places, Toggle(Places, Initial, "tokyo"), "paris"), "tokyo")
         == Selection(["paris"], Some("paris"))
  {
    assert Known(Places, "tokyo") && Known(Places, "paris");
    PinTwoRemoveFirst(Places, "tokyo", "paris");
  }

  /**
   * A walk-through on the page object: click a card, click its globe pin,
   * then click a pin whose id is not in the catalog. The pins end empty and
   * the unknown id is left active, yet only catalog ids are pinned.
   */
  method PageWalkThrough(catalog: map<string, Place>, id: string, unknown: string)
    returns (page: Page)
    requires Known(catalog, id) && !Known(catalog, unknown)
    ensures page.State() == Selection([], Some(unknown))
    ensures page.view == Some(AssistantView)
    ensures page.Valid() && !Consistent(page.places, page.State())
  {
    page := new Page(catalog);
    page.CardClick(id);
    assert page.State() == Selection([id], Some(id));
    page.PinClick(id);
    assert page.State() == Selection([], None);
    page.PinClick(unknown);
  }

  /**
   * After a click on an unknown id, a click on a catalog card still adds
   * one itinerary entry for it: the pins hold only catalog ids throughout.
   */
  lemma CardAfterUnknownClick(places: map<string, Place>, st: Selection, unknown: string, id: string)
    requires Consistent(places, st) && !Known(places, unknown) && Known(places, id) && id !in st.pinned
    ensures var after := Click(places, Click(places, st, unknown), id);
      && Itinerary(places, after).Entries?
      && |Itinerary(places, after).entries| == |st.pinned| + 1
      && Itinerary(places, after).entries[|st.pinned|] == EntryFor(places, id)
  {
    var mid := Click(places, st, unknown);
    ClickKeepsAllKnown(places, st, unknown);
    ClickKeepsAllKnown(places, mid, id);
    var after := Click(places, mid, id);
    assert after.pinned == st.pinned + [id];
    ItineraryListsPins(places, after);
  }
}
