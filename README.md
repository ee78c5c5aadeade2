# Travel-destination browser: selection state and views

This project models the selection logic of a small travel-destination page
(`app.js`). A fixed catalog maps destination ids to a name, a description,
highlights and quick facts. The page keeps one state object: the set of
pinned ids, in the order they were pinned, and the one `active` id whose
details the panel shows (or none). Three handlers change that state:

- `togglePin` pins an unpinned catalog id and makes it active, or unpins a
  pinned one and clears `active` if it named that id; it ignores ids
  outside the catalog;
- the Remove button of an itinerary entry unpins its id and clears
  `active` if it named that id;
- a click on a destination card or a globe pin first makes the clicked id
  active and then calls `togglePin`; a card click also switches to the
  assistant section.

After each change it makes, `togglePin` or Remove redraws three things from
the state: the pinned highlight of every globe pin and card, the
active-destination panel, and the itinerary list with a one-sentence
subtitle per entry (app.js:107-109, 174-176). A click on an id outside the
catalog changes `active` but redraws nothing. Which section and tab are
visible depends only on the target of `toggleView`, which a card click
(app.js:209) and a tab click (app.js:201) pass.

Files:

- `Catalog.dfy` holds the catalog with its real entries. `Known` is the
  `places[id]` guard.
- `Selection.dfy` holds the state as a value (`Selection`). A JavaScript
  Set is modelled as a sequence without duplicates. The three changes are
  the functions `Toggle`, `Remove` and `Click`, with lemmas about what each
  does and the invariant they keep. The functions take the catalog as a
  parameter, so their properties hold for every catalog.
- `App.dfy` holds the page object (`Page`). It has the catalog, `pinned`,
  `active` and the last view target as fields; `LoadPage` builds it over
  `Catalog.Places`. Its handler methods change those fields
  in place, and each one's postcondition is the matching `Selection`
  function applied to the old state.
- `Views.dfy` holds what each render function draws, as pure functions of
  the state.
- `Scenarios.dfy` walks through a few clicks, for any catalog holding the
  ids involved and for the real catalog.

Two consequences of the code are easy to miss:

- Toggling an id twice does not always restore the state. For an id that
  was not pinned, the pin order comes back but nothing is active. A pinned
  id toggled twice moves to the end of the pin order and becomes active.
  See `ToggleTwiceUnpinned` and `ToggleTwicePinned`.
- The active id is not always pinned. A card or pin click writes `active`
  before `togglePin` rejects an id outside the catalog, so `active` is left
  naming an id that is not pinned. See `ClickUnknownDangles`.

## Model

| member | source | states |
|---|---|---|
| `Selection.Erase` | app.js:98 | Deleting from the pin set leaves exactly the other elements. The result is never longer. It is unchanged when the id is absent. It stays free of duplicates. |
| `Selection.EraseAt` | app.js:98 | Deleting the id at slot k of a duplicate-free pin order gives the order with exactly that slot cut out. |
| `Selection.EraseLast` | app.js:98-103 | Deleting an id just appended to an order that lacked it gives back the original order. |
| `Selection.Toggle` | app.js:94-105 | togglePin keeps the pins duplicate-free. An id outside the catalog changes nothing. For a catalog id it flips whether the id is pinned. |
| `Selection.Remove` | app.js:169-173 | Remove keeps the pins duplicate-free. Afterwards the id is not pinned, and every other id is pinned exactly as before. |
| `Selection.Click` | app.js:205-218 | A card or pin click keeps the pins duplicate-free. It changes the pins exactly as togglePin alone would. |
| `Selection.ToggleUnknownIsNoOp` | app.js:95 | togglePin with an id outside the catalog leaves both the pins and the active id unchanged. |
| `Selection.TogglePinsAtEnd` | app.js:102-104 | Pinning an unpinned catalog id appends it at the end. Every earlier pin keeps its slot, nothing is duplicated, and the id becomes active. |
| `Selection.ToggleUnpinsInPlace` | app.js:97-101 | Unpinning a pinned catalog id cuts exactly its slot and keeps the others in order. The multiset loses exactly that id. `active` is cleared if it named the id and is otherwise unchanged. |
| `Selection.ToggleTwiceUnpinned` | app.js:94-105 | Toggling an unpinned catalog id twice restores the pin order and leaves nothing active. |
| `Selection.ToggleTwicePinned` | app.js:94-105 | Toggling a pinned catalog id twice moves it to the end of the pin order and makes it active. |
| `Selection.ToggleKeepsConsistent` | app.js:94-105 | If only catalog ids are pinned and the active id (if any) is pinned, togglePin keeps both true. |
| `Selection.ToggleKeepsAllKnown` | app.js:94-105 | togglePin, with any id, keeps the fact that only catalog ids are pinned. |
| `Selection.RemoveInPlace` | app.js:169-173 | Remove on the id at slot k cuts exactly that slot and keeps the others in order. It clears `active` only if `active` named that id. |
| `Selection.RemoveUnpinnedIsNoOp` | app.js:170-173 | Remove on an id that is not pinned leaves the state unchanged exactly when that id is not the active one. In a consistent state it is always a no-op. |
| `Selection.RemoveKeepsConsistent` | app.js:169-173 | Remove keeps the invariant that only catalog ids are pinned and the active id is pinned. |
| `Selection.RemoveKeepsAllKnown` | app.js:169-173 | Remove, with any id, keeps the fact that only catalog ids are pinned. |
| `Selection.ClickPinned` | app.js:205-218 | A click on a pinned catalog id unpins it and leaves nothing active, whatever was active before. |
| `Selection.ClickUnpinned` | app.js:205-218 | A click on an unpinned catalog id appends it to the pins and makes it active. |
| `Selection.ClickKnownKeepsConsistent` | app.js:205-218 | A click on a catalog id keeps the invariant. |
| `Selection.ClickUnknownDangles` | app.js:205-218 | A click on an id outside the catalog leaves the pins unchanged but makes that id active. A consistent state therefore becomes inconsistent. |
| `Selection.ClickKeepsAllKnown` | app.js:205-218 | A card or pin click, with any id (even one outside the catalog), keeps the fact that only catalog ids are pinned. |
| `App.Page.constructor` | app.js:70-73 | The page starts with its catalog, nothing pinned and nothing active, a consistent state. |
| `App.Page.TogglePin` | app.js:94-110 | In place, the new state is `Toggle` of the old one. The view is unchanged. For every id, the pins stay duplicate-free and hold only catalog ids; full consistency is kept when it held. |
| `App.Page.RemovePin` | app.js:169-177 | In place, the new state is `Remove` of the old one. The view is unchanged. The pins stay duplicate-free and hold only catalog ids; full consistency is kept when it held. |
| `App.Page.ShowView` | app.js:84-92 | toggleView records its target as the shown view. |
| `App.Page.CardClick` | app.js:205-211 | In place, the new state is `Click` of the old one and the assistant view is shown. For every id the pins stay duplicate-free and hold only catalog ids; for catalog ids full consistency is kept. |
| `App.Page.PinClick` | app.js:213-218 | In place, the new state is `Click` of the old one and the view is unchanged. For every id the pins stay duplicate-free and hold only catalog ids; for catalog ids full consistency is kept. |
| `App.LoadPage` | app.js:1-73 | The loaded page holds the destination catalog, with nothing pinned, nothing active and a valid state. |
| `Views.Marks` | app.js:112-122 | Each globe pin or card gets one mark, in page order. It is marked exactly when its id is pinned. |
| `Views.ToggleFlipsOnlyItsMarks` | app.js:94-122 | After togglePin on a catalog id, exactly the pins and cards carrying that id change their mark. |
| `Views.ActivePanel` | app.js:124-142 | The panel shows the prompt exactly when no id is active, the id is empty, or the id is not in the catalog. Otherwise it shows that place's name, description and highlights, in order. |
| `Views.PanelShowsActive` | app.js:124-142 | In a consistent state, the panel shows details exactly when a non-empty id is active. |
| `Views.ClickPanel` | app.js:124-142 | After a click that pins a (non-empty) catalog id, the panel shows that place's details. After a click that unpins one, it shows the prompt. |
| `Views.FirstSentence` | app.js:184 | `split(".")[0]`: a prefix of the text that contains no '.'. It ends at the first '.' or at the end of the text. |
| `Views.FirstSentenceUnique` | app.js:184 | Those three properties determine `split(".")[0]` uniquely. |
| `Views.Subtitle` | app.js:184 | The subtitle ends in '.' and has no other '.'. It is a prefix of the description when the description has a '.', and otherwise the description followed by '.'. |
| `Views.OneSentenceSubtitle` | app.js:184 | A description whose only '.' is its last character is its own subtitle. |
| `Views.EntriesOf` | app.js:155-157 | There are at most as many itinerary entries as pins. Each entry is for a pinned catalog id; pinned ids outside the catalog are skipped. |
| `Views.Itinerary` | app.js:144-157 | The list shows the placeholder exactly when nothing is pinned. Otherwise every entry is for a pinned id. |
| `Views.EntriesInPinOrder` | app.js:155-196 | When only catalog ids are pinned, there is one entry per pin in pin order. Each entry has the place's name, subtitle and quick facts. |
| `Views.ItineraryListsPins` | app.js:144-196 | When something is pinned and every pinned id is in the catalog, whatever `active` is, the list has exactly one entry per pinned id, in pin order. |
| `Views.Shown` | app.js:84-92 | toggleView gives each section or tab one flag, in page order. A flag is set exactly when its key equals the target. |
| `Views.ShownIsExclusive` | app.js:84-92 | With distinct keys, at most one section or tab is shown. One is shown exactly when the target is among the keys. |
| `Scenarios.LoadShowsPlaceholders` | app.js:220-221 | The render at page load marks no globe pin or card and shows the itinerary's placeholder, for any catalog. |
| `Scenarios.ClickParisCard` | app.js:205-211 | Clicking the Paris card on a fresh page pins "paris" and makes it active. |
| `Scenarios.ParisPanel` | app.js:124-142 | With "paris" active, the panel is headed "Paris, France". |
| `Scenarios.OnePinOneEntry` | app.js:144-196 | With one catalog id pinned, the itinerary has exactly one entry, with that place's name. |
| `Scenarios.ParisItinerary` | app.js:144-196 | With only "paris" pinned, the itinerary has one entry, "Paris, France". |
| `Scenarios.PinTwoRemoveFirst` | app.js:94-177 | Pinning a, then b, then removing a leaves only b pinned, and b is still active. |
| `Scenarios.TokyoParisRemoveTokyo` | app.js:94-177 | Pinning tokyo, then paris, then removing tokyo leaves only paris pinned, and paris is still active. |
| `Scenarios.PageWalkThrough` | app.js:205-218 | On a page object: a card click then a pin click on the same catalog id pin and unpin it; a pin click on an unknown id then leaves nothing pinned, that id active and the assistant view shown. Only catalog ids stay pinned, but the state is no longer consistent. |
| `Scenarios.CardAfterUnknownClick` | app.js:144-218 | After a click on an unknown id, a click on an unpinned catalog card still adds exactly one itinerary entry, for that card, at the end. |

## Left out

- DOM lookups, class and text writes, element creation and event-listener
  wiring (app.js:75-82, 137-141, 145-195, 199-221) are not modelled. Each
  view function returns what a render of the given state would display.
- When is the page redrawn: not modelled. `togglePin` and Remove redraw
  after every change they make, so there the display matches the view
  functions of the new state. A card or pin click on an id outside the
  catalog sets `active` and then `togglePin` returns before any render
  (app.js:95, 107-109). The page keeps showing what it showed before,
  while `Views.ActivePanel` of the new state is the prompt. The model holds
  no "displayed" state to capture this.
- `Scenarios.LoadShowsPlaceholders`: page load renders only the pin marks and
  the itinerary (app.js:220-221). The active-destination panel at load shows
  whatever the markup holds, which is not modelled.
- `innerHTML` rendering of the `&apos;` entities in highlights is not
  modelled. Highlights are kept as the raw catalog strings.
- `App.Page.ShowView`: toggleView only records its target. Which sections
  and tabs that shows is `Views.Shown`, given the page's section ids and tab
  targets, which live in the markup. The visibility before the first
  toggleView is set by the markup and is not modelled (`view` is `None`).
- Ids are modelled as strings. A card or pin without a `data-place`
  attribute (an `undefined` id) is not modelled.
- `Selection.Toggle`, `Views.ActivePanel`, `Views.EntriesOf`: the JavaScript
  guards `places[id]` (app.js:95), `places[activeId]` (app.js:126) and
  `if (!place)` (app.js:157) also accept names inherited from
  `Object.prototype` (such as `toString`). The model's guards accept
  catalog keys only.
- The catalog in this source has no geographic coordinates. The rotating
  globe, the coordinate projection, drag inertia and per-frame marker
  placement are not part of this source file and are not part of this model.
- The concrete subtitle of each catalog description is not derived.
  `Views.OneSentenceSubtitle` states the rule the descriptions follow.
