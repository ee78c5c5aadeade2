/**
 * What the render functions of app.js draw, as pure functions of the
 * selection state: the pinned highlight on globe pins and cards (renderPins),
 * the active-destination panel (renderActiveDestination), the itinerary list
 * (renderPinnedList) and which section and tab are shown (toggleView).
 * The DOM writes themselves are not modelled; each function returns the
 * value the page would display.
 */
module Views {
  import opened Wrappers
  import opened Catalog
  import opened Selection

  // ---------------------------------------------------------------------
  // renderPins
  // ---------------------------------------------------------------------

  /**
   * The `is-pinned` class of each globe pin, or the `is-selected` class of
   * each card, given the destination ids the elements carry in page order.
   */
  function Marks(ids: seq<string>, pinned: seq<string>): (r: seq<bool>)
    ensures |r| == |ids|
    ensures forall i :: 0 <= i < |ids| ==> (r[i] <==> ids[i] in pinned)
  {
    if ids == [] then [] else [ids[0] in pinned] + Marks(ids[1..], pinned)
  }

  /**
   * After togglePin on a catalog id, exactly the elements carrying that id
   * change their mark; every other element keeps it.
   */
  lemma ToggleFlipsOnlyItsMarks(places: map<string, Place>, st: Selection, id: string, ids: seq<string>)
    requires Known(places, id)
    ensures var before, after := Marks(ids, st.pinned), Marks(ids, Toggle(places, st, id).pinned);
      forall i :: 0 <= i < |ids| ==> (after[i] == if ids[i] == id then !before[i] else before[i])
  {
  }

  // ---------------------------------------------------------------------
  // renderActiveDestination
  // ---------------------------------------------------------------------

  const PromptHeading := "Select a destination"
  const PromptText := "Tap a pin on the globe to see why travelers rave about it."

  /** The active-destination panel: a prompt, or one place's details. */
  datatype ActiveView =
    | Prompt
    | Details(name: string, description: string, highlights: seq<string>)
  {
    /** The text of the panel's name element. */
    function Heading(): string
    {
      match this
      case Prompt => PromptHeading
      case Details(name, _, _) => name
    }

    /** The text of the panel's description element. */
    function Text(): string
    {
      match this
      case Prompt => PromptText
      case Details(_, description, _) => description
    }

    /** The list items of the panel's highlights element. */
    function Items(): seq<string>
    {
      match this
      case Prompt => []
      case Details(_, _, highlights) => highlights
    }
  }

  /**
   * The panel shows the prompt exactly when no id is active, the active id is
   * the empty string (`!activeId` holds for it too) or it is not in the
   * catalog; otherwise it shows that place's name, description and
   * highlights, in catalog order (app.js:124-142).
   */
  function ActivePanel(places: map<string, Place>, st: Selection): (v: ActiveView)
    ensures v.Prompt? <==> st.active.None? || st.active.value == "" || !Known(places, st.active.value)
    ensures v.Details? ==>
      var p := places[st.active.value];
      v.Heading() == p.name && v.Text() == p.description && v.Items() == p.highlights
  {
    match st.active
    case None => Prompt
    case Some(id) =>
      if id == "" || !Known(places, id) then Prompt
      else Details(places[id].name, places[id].description, places[id].highlights)
  }

  /**
   * In a consistent state the panel shows details exactly when a non-empty
   * id is active.
   */
  lemma PanelShowsActive(places: map<string, Place>, st: Selection)
    requires Consistent(places, st)
    ensures ActivePanel(places, st).Details? <==> st.active.Some? && st.active.value != ""
  {
    if st.active.Some? {
      var k :| 0 <= k < |st.pinned| && st.pinned[k] == st.active.value;
    }
  }

  /**
   * A click on a catalog id shows its details if the click pinned it and the
   * prompt if the click unpinned it.
   */
  lemma ClickPanel(places: map<string, Place>, st: Selection, id: string)
    requires Known(places, id)
    ensures id !in st.pinned && id != "" ==>
      ActivePanel(places, Click(places, st, id)) == Details(places[id].name, places[id].description, places[id].highlights)
    ensures id in st.pinned ==> ActivePanel(places, Click(places, st, id)) == Prompt
  {
  }

  // ---------------------------------------------------------------------
  // renderPinnedList
  // ---------------------------------------------------------------------

  /**
   * The text before the first '.' of `d`, or all of `d` if it has none:
   * `d.split(".")[0]` in JavaScript.
   */
  function FirstSentence(d: string): (r: string)
    ensures '.' !in r
    ensures r <= d
    ensures |r| == |d| || d[|r|] == '.'
  {
    if d == [] || d[0] == '.' then [] else [d[0]] + FirstSentence(d[1..])
  }

  /** The three properties of FirstSentence determine it. */
  lemma {:induction false} FirstSentenceUnique(d: string, p: string)
    requires '.' !in p && p <= d && (|p| == |d| || d[|p|] == '.')
    ensures p == FirstSentence(d)
  {
    if p != [] {
      assert p[0] == d[0];
      assert p[1..] <= d[1..];
      FirstSentenceUnique(d[1..], p[1..]);
    }
  }

  /**
   * The subtitle of an itinerary entry (app.js:184): the first sentence of
   * the description with one '.' put back. It ends in '.' and holds no other
   * '.'; it is a prefix of the description whenever the description has a '.'.
   */
  function Subtitle(description: string): (r: string)
    ensures |r| >= 1 && r[|r| - 1] == '.'
    ensures '.' !in r[..|r| - 1]
    ensures '.' in description ==> r <= description
    ensures '.' !in description ==> r == description + "."
  {
    var s := FirstSentence(description);
    assert (s + ".")[..|s|] == s;
    s + "."
  }

  /** A one-sentence description ending in '.' is its own subtitle. */
  lemma OneSentenceSubtitle(description: string)
    requires |description| >= 1 && description[|description| - 1] == '.'
    requires '.' !in description[..|description| - 1]
    ensures Subtitle(description) == description
  {
    FirstSentenceUnique(description, description[..|description| - 1]);
  }

  /**
   * One itinerary entry: the pinned id its Remove button removes, the
   * place's name, the subtitle and the quick facts.
   */
  datatype Entry = Entry(id: string, name: string, subtitle: string, facts: seq<string>)

  /** The itinerary: a placeholder notice, or the entries in pin order. */
  datatype ItineraryView = NoPins | Entries(entries: seq<Entry>)

  const NoPinsText := "No pins yet—tap a city to start crafting your itinerary."

  /** The entry drawn for a catalog id. */
  function EntryFor(places: map<string, Place>, id: string): Entry
    requires Known(places, id)
  {
    Entry(id, places[id].name, Subtitle(places[id].description), places[id].quickFacts)
  }

  /** One entry per pinned catalog id, in pin order; other ids are skipped (app.js:155-157). */
  function EntriesOf(places: map<string, Place>, pinned: seq<string>): (r: seq<Entry>)
    ensures |r| <= |pinned|
    ensures forall i :: 0 <= i < |r| ==> r[i].id in pinned && Known(places, r[i].id)
  {
    if pinned == [] then []
    else
      var rest := EntriesOf(places, pinned[1..]);
      assert forall i :: 0 <= i < |rest| ==> rest[i].id in pinned[1..];
      assert forall x :: x in pinned[1..] ==> x in pinned;
      if Known(places, pinned[0]) then
        var e := EntryFor(places, pinned[0]);
        assert e.id == pinned[0];
        [e] + rest
      else rest
  }

  /**
   * The itinerary list (app.js:144-196): the placeholder exactly when nothing
   * is pinned, otherwise the entries of the pinned catalog ids.
   */
  function Itinerary(places: map<string, Place>, st: Selection): (v: ItineraryView)
    ensures v.NoPins? <==> st.pinned == []
    ensures v.Entries? ==> forall e :: e in v.entries ==> e.id in st.pinned
  {
    if |st.pinned| == 0 then NoPins else Entries(EntriesOf(places, st.pinned))
  }

  /** A pinned catalog id at the front gives the first entry. */
  lemma EntriesOfKnownHead(places: map<string, Place>, pinned: seq<string>)
    requires pinned != [] && Known(places, pinned[0])
    ensures EntriesOf(places, pinned) == [EntryFor(places, pinned[0])] + EntriesOf(places, pinned[1..])
  {
  }

  /** When only catalog ids are pinned, there is one entry per pin, in pin order. */
  lemma {:induction false} EntriesInPinOrder(places: map<string, Place>, pinned: seq<string>)
    requires AllKnown(places, pinned)
    ensures |EntriesOf(places, pinned)| == |pinned|
    ensures forall i :: 0 <= i < |pinned| ==> EntriesOf(places, pinned)[i] == EntryFor(places, pinned[i])
  {
    if pinned != [] {
      var tail := pinned[1..];
      assert AllKnown(places, tail) by {
        forall k | 0 <= k < |tail|
          ensures Known(places, tail[k])
        {
          assert tail[k] == pinned[k + 1];
        }
      }
      EntriesInPinOrder(places, tail);
      EntriesOfKnownHead(places, pinned);
      var head := EntryFor(places, pinned[0]);
      var rest := EntriesOf(places, tail);
      forall i | 0 <= i < |pinned|
        ensures ([head] + rest)[i] == EntryFor(places, pinned[i])
      {
        if i > 0 {
          assert tail[i - 1] == pinned[i];
        }
      }
    }
  }

  /**
   * When only catalog ids are pinned (whatever `active` is), the itinerary
   * lists every pin, in pin order.
   */
  lemma ItineraryListsPins(places: map<string, Place>, st: Selection)
    requires AllKnown(places, st.pinned) && st.pinned != []
    ensures Itinerary(places, st).Entries?
    ensures |Itinerary(places, st).entries| == |st.pinned|
    ensures forall i :: 0 <= i < |st.pinned| ==> Itinerary(places, st).entries[i] == EntryFor(places, st.pinned[i])
  {
    EntriesInPinOrder(places, st.pinned);
  }

  // ---------------------------------------------------------------------
  // toggleView
  // ---------------------------------------------------------------------

  /**
   * The `is-visible` class of each section (given the section ids) or the
   * `is-active` class of each tab (given the tabs' targets) after
   * toggleView(target) (app.js:84-92).
   */
  function Shown(keys: seq<string>, target: string): (r: seq<bool>)
    ensures |r| == |keys|
    ensures forall i :: 0 <= i < |keys| ==> (r[i] <==> keys[i] == target)
  {
    if keys == [] then [] else [keys[0] == target] + Shown(keys[1..], target)
  }

  /**
   * With distinct keys, toggleView shows at most one element, and shows one
   * exactly when the target is among the keys.
   */
  lemma ShownIsExclusive(keys: seq<string>, target: string)
    requires Distinct(keys)
    ensures forall i, j :: 0 <= i < j < |keys| ==> !(Shown(keys, target)[i] && Shown(keys, target)[j])
    ensures (exists i :: 0 <= i < |keys| && Shown(keys, target)[i]) <==> target in keys
  {
    var r := Shown(keys, target);
    if target in keys {
      var i :| 0 <= i < |keys| && keys[i] == target;
      assert r[i];
      assert exists k :: 0 <= k < |keys| && Shown(keys, target)[k];
    } else {
      forall i | 0 <= i < |keys|
        ensures !r[i]
      {
        assert keys[i] != target;
      }
    }
  }
}
