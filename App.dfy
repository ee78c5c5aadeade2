/**
 * The page's shared `state` object (app.js:70-73) and the handlers that
 * mutate it in place: togglePin, the itinerary's Remove button, the card and
 * globe-pin click listeners and the navigation tabs. Each method is specified
 * by the corresponding function of module Selection applied to the state it
 * found.
 */
module App {
  import opened Wrappers
  import opened Catalog
  import opened Selection

  /** The id of the section a card click switches to (app.js:209). */
  const AssistantView := "assistant"

  class Page {
    /** The destination catalog the page was built with (`places`). */
    const places: map<string, Place>
    var pinned: seq<string>
    var active: Option<string>
    /**
     * The target of the latest toggleView call; None while the sections
     * still show as the markup left them.
     */
    var view: Option<string>

    /**
     * `pinned` is a Set, so no id occurs twice; and togglePin's guard
     * (app.js:95) lets only catalog ids in.
     */
    ghost predicate Valid()
      reads this
    {
      Distinct(pinned) && AllKnown(places, pinned)
    }

    /** The selection state held by this page. */
    function State(): Selection
      reads this
    {
      Selection(pinned, active)
    }

    /** A page over `catalog` with nothing pinned and nothing active (app.js:70-73). */
    constructor (catalog: map<string, Place>)
      ensures places == catalog
      ensures Valid() && State() == Initial && view == None
      ensures Consistent(places, State())
    {
      places := catalog;
      pinned := [];
      active := None;
      view := None;
    }

    /** togglePin (app.js:94-105). */
    method TogglePin(id: string)
      requires Valid()
      modifies this
      ensures Valid()
      ensures State() == Toggle(places, old(State()), id)
      ensures view == old(view)
      ensures old(Consistent(places, State())) ==> Consistent(places, State())
    {
      ghost var before := State();
      if !Known(places, id) {
        return;
      }
      if id in pinned {
        pinned := Erase(pinned, id);
        if active == Some(id) {
          active := None;
        }
      } else {
        AppendDistinct(pinned, id);
        pinned := pinned + [id];
        active := Some(id);
      }
      ToggleKeepsAllKnown(places, before, id);
      if Consistent(places, before) {
        ToggleKeepsConsistent(places, before, id);
      }
    }

    /** The Remove button of the itinerary entry for `id` (app.js:169-173). */
    method RemovePin(id: string)
      requires Valid()
      modifies this
      ensures Valid()
      ensures State() == Remove(old(State()), id)
      ensures view == old(view)
      ensures old(Consistent(places, State())) ==> Consistent(places, State())
    {
      ghost var before := State();
      pinned := Erase(pinned, id);
      if active == Some(id) {
        active := None;
      }
      RemoveKeepsAllKnown(places, before, id);
      if Consistent(places, before) {
        RemoveKeepsConsistent(places, before, id);
      }
    }

    /** toggleView (app.js:84-92), reduced to the target it records. */
    method ShowView(target: string)
      modifies this`view
      ensures view == Some(target)
    {
      view := Some(target);
    }

    /**
     * A click on a destination card (app.js:206-210): make the id active,
     * toggle it, then switch to the assistant section.
     */
    method CardClick(id: string)
      requires Valid()
      modifies this
      ensures Valid()
      ensures State() == Click(places, old(State()), id)
      ensures view == Some(AssistantView)
      ensures old(Consistent(places, State())) && Known(places, id) ==> Consistent(places, State())
    {
      ghost var before := State();
      active := Some(id);
      TogglePin(id);
      ShowView(AssistantView);
      if Consistent(places, before) && Known(places, id) {
        ClickKnownKeepsConsistent(places, before, id);
      }
    }

    /**
     * A click on a globe pin (app.js:215-216): the same as a card click
     * without the section switch.
     */
    method PinClick(id: string)
      requires Valid()
      modifies this
      ensures Valid()
      ensures State() == Click(places, old(State()), id)
      ensures view == old(view)
      ensures old(Consistent(places, State())) && Known(places, id) ==> Consistent(places, State())
    {
      ghost var before := State();
      active := Some(id);
      TogglePin(id);
      if Consistent(places, before) && Known(places, id) {
        ClickKnownKeepsConsistent(places, before, id);
      }
    }
  }

  /**
   * The page as its script sets it up: a page over the destination catalog
   * with nothing pinned and nothing active (app.js:1-73).
   */
  method LoadPage() returns (page: Page)
    ensures fresh(page)
    ensures page.places == Places && page.Valid()
    ensures page.State() == Initial && page.view == None
  {
    page := new Page(Places);
  }
}
