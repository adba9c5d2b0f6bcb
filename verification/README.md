# TV channels: a verified model of the channel organiser and viewer state

The application is a single React component that lists live TV channels. A user can
filter the channels by category, search them by name, mark favourites, and watch a
channel in an embedded player. A side panel beside the player lists the other
channels. This project models the rules inside that component as pure Dafny
functions over immutable values, and proves what the rules guarantee:

- **Channel filter**: a channel is listed when its category is the active one, or the
  active category is `"all"`, and its lower-cased name contains the lower-cased
  search term (`ChannelFilter`).
- **Channel organiser**: the filtered list is sorted with the component's comparator
  (`Organizer`). Favourites come first. Within equal favourite status, recently
  watched channels come before the others, and among themselves by their position in
  `recentlyWatched`. The remaining channels are ordered by name. The sort is
  modelled as a stable insertion sort that uses the source's comparator branch for
  branch. It is proved to be a permutation that is sorted and stable. Any stable sort
  with this comparator is proved to give the same list. So the model agrees with
  `Array.prototype.sort` run with the model's name order. With the real
  `localeCompare`, two non-recent channels of equal favourite status may come out in
  another order. This happens wherever locale collation differs from code-point order
  or ties distinct names (see `Text.NameCompare` under "Left out").
- **Preference store**: `toggleFavorite` on the favourites array used as a set, and the
  recently-watched update of `selectChannel`, which puts the id in front, drops its
  older copy and keeps five ids (`Preferences`).
- **Viewer state**: the selected channel, the loading flag, the search term, the
  active category and the preferences. `selectChannel`, `backToList`,
  `toggleFavorite`, the search box, the category buttons and the end of the loading
  delay are transition functions. An event sequence runs them in order (`AppState`).
- **Derived lists**: the favourites strip in catalogue order, the recently-watched
  strip that resolves ids and skips unknown ones, and the side panel, which is the
  organised list without the channel being watched (`Views`).
- **Concrete instances**: examples on the component's own catalogue (`Scenarios`).

Modules: `Seqs` (filter, subsequence, no-duplicates, truncation), `Text` (lower-casing,
substring search, name comparison), `Catalog` (the `Channel` record, lookup by id),
then `ChannelFilter`, `Preferences`, `Organizer`, `Views`, `AppState` and `Scenarios`.

Some behaviours of the code are easy to miss, and the model keeps them:

- A newer selection does not cancel the older selection's loading timer. A timer that
  fires clears the flag whatever was selected since.
  `AppState.EarlierTimerEndsLaterLoading` shows the result: a second channel shows as
  loaded before its own delay is over.
- The recency rule applies to every pair with equal favourite status, favourites
  included. So two favourites are ordered by recency before name
  (`Scenarios.RecencyOrdersFavorites`).
- `backToList` does not touch the loading flag (`AppState.BackToList`), so the flag can
  be true with no channel selected.
- `toggleFavorite` appends any id it is given, including one with no catalogue entry.
  `Preferences.ToggleFavorite` does the same.

## Model

| member | source | states |
|---|---|---|
| `Text.IncludesIsContainment` | src/App.tsx:121-123 | `includes` holds exactly when the term occurs at some position of the name. |
| `Text.LowerIsLower` | src/App.tsx:122-123 | Lower-casing yields a string with no upper-case letter, fixes lower-case strings, and is idempotent. |
| `Text.Lower` | src/App.tsx:122-123 | Lower-casing keeps the length and lowers each character on its own (ASCII letters only). |
| `Text.Includes` | src/App.tsx:123 | An empty term is always included, and an included term is no longer than the name. Equivalence with containment is `Text.IncludesIsContainment`. |
| `Text.NameCompare` | src/App.tsx:147 | The name comparison returns -1, 0 or 1, and returns 0 exactly for equal names. |
| `Text.NameCompareAntisymmetric` | src/App.tsx:147 | Swapping the two names negates the comparison. |
| `Text.NameCompareTransitive` | src/App.tsx:147 | "Not after" on names is transitive. |
| `Catalog.FindById` | src/App.tsx:679 | `find` by id returns the first catalogue entry with that id, or nothing exactly when no entry has it. |
| `ChannelFilter.Matches` | src/App.tsx:119-124 | A channel passes the filter exactly when the category is "all" or its own, and the lowered term occurs somewhere in the lowered name. |
| `ChannelFilter.FilterChannels` | src/App.tsx:118-125 | The filtered list holds exactly the catalogue channels that match the category (or "all") and whose lower-cased name contains the lower-cased term. Each appears as often as in the catalogue, in catalogue order. |
| `ChannelFilter.EmptySearchFiltersByCategory` | src/App.tsx:121-123 | An empty search term matches every name, so only the category filters. |
| `ChannelFilter.ShowAllListsCatalogue` | src/App.tsx:119-124 | Category "all" with an empty term lists the whole catalogue unchanged. |
| `ChannelFilter.SearchIgnoresCase` | src/App.tsx:121-123 | Searching for a term and for its lower-cased form gives the same list. |
| `Preferences.ToggleFavorite` | src/App.tsx:110-114 | The toggled id's membership flips, every other id's membership is unchanged, and an array without duplicates stays without duplicates. |
| `Preferences.ToggleTwice` | src/App.tsx:110-114 | Toggling twice restores membership. For an absent id it restores the very array; for a present id the id moves to the end. |
| `Preferences.RecordWatched` | src/App.tsx:91-94 | The watched id is first and appears once. The list has at most five ids. The other ids are a prefix of the old list without that id, so they keep their order and lose only the tail. No duplicates if there were none. |
| `Preferences.RecordWatchedIdempotent` | src/App.tsx:91-94 | Watching the channel already at the front again changes nothing. |
| `Preferences.RecordTwo` | src/App.tsx:91-94 | Watching a, then a different b, leaves b first and a second. |
| `Organizer.IndexOf` | src/App.tsx:139-140 | `indexOf` is -1 exactly for an absent id; otherwise it is the id's first position. |
| `Organizer.Compare` | src/App.tsx:128-148 | A favourite against a non-favourite is negative exactly when the first is the favourite. A tie needs equal favourite and recency status, and the same id (recent) or the same name (not recent). Its full meaning as a key order is `Organizer.CompareIsKeyOrder`, consistency is `Organizer.CompareAntisymmetric` and `Organizer.CompareTransitive`. |
| `Organizer.CompareIsKeyOrder` | src/App.tsx:128-148 | The comparator says "not after" exactly when the key (favourite group, recency rank, name of a non-recent channel) is lexicographically not greater. It says "tie" exactly when the keys are equal. |
| `Organizer.CompareAntisymmetric` | src/App.tsx:128-148 | Swapping the two channels negates the comparator. |
| `Organizer.CompareReflexive` | src/App.tsx:128-148 | A channel compared with itself is a tie. |
| `Organizer.CompareTransitive` | src/App.tsx:128-148 | The comparator is transitive, so it is a consistent order for `sort`. |
| `Organizer.SortChannels` | src/App.tsx:128 | The sorted copy is a permutation of its input and is in comparator order. |
| `Organizer.Organize` | src/App.tsx:118-148 | The organised list is a permutation of the filtered list, so it holds exactly the matching catalogue channels. It is in comparator order. |
| `Organizer.PrecedesMeans` | src/App.tsx:130-147 | When a channel may precede another, a favourite second means a favourite first. With equal favourite status, a recent second means a recent first, two recent ones are in ascending recency position, and two non-recent ones are in name order. |
| `Organizer.OrganizedOrder` | src/App.tsx:128-148 | In the organised list every favourite stands before every non-favourite. Within equal favourite status, recent channels stand before the others, recent ones by ascending position in `recentlyWatched`, the rest by name. |
| `Organizer.SortStable` | src/App.tsx:128 | For each key, the channels with that key keep their input order. |
| `Organizer.StableSortIsSortChannels` | src/App.tsx:128-148 | Any sorted rearrangement that keeps each key's channels in input order equals the model's sort. |
| `Organizer.OrganizeIdempotent` | src/App.tsx:128-148 | Sorting the organised list again leaves it unchanged. |
| `Views.FavoritesView` | src/App.tsx:617-618 | The favourites strip holds exactly the catalogue channels whose id is a favourite, as often as the catalogue has them, in catalogue order. |
| `Views.RecentsView` | src/App.tsx:678-680 | The recents strip has no more channels than `recentlyWatched` has entries. Each is a catalogue entry whose id is recent. |
| `Views.RecentsViewResolves` | src/App.tsx:678-680 | The strip's ids are the resolvable recent ids, in `recentlyWatched` order. Each channel is the first catalogue entry with its id. |
| `Views.RecentsViewComplete` | src/App.tsx:678-680 | When every recent id has a catalogue entry, the strip shows one channel per id, in order. |
| `Views.SidePanel` | src/App.tsx:472-473 | The side panel holds exactly the organised channels whose id is not the selected one, in organised order. |
| `Views.SidePanelSorted` | src/App.tsx:472-473 | The side panel keeps the organiser's ordering. |
| `AppState.SelectChannel` | src/App.tsx:86-94 | Selecting shows the channel and sets loading. The id goes to the front of the recently-watched list, which stays within five. Favourites, search term and category are unchanged. |
| `AppState.BackToList` | src/App.tsx:103-105 | Back clears the selection only. Loading flag, favourites, recently watched, search term and category are unchanged. |
| `AppState.ToggleFavorite` | src/App.tsx:108-115 | Toggling flips one id's favourite membership. Every other id's membership, the recently-watched list, the selection and the loading flag are unchanged. |
| `AppState.SetSearchTerm` | src/App.tsx:558 | Typing replaces the search term and nothing else. |
| `AppState.SetActiveCategory` | src/App.tsx:587 | A category button replaces the active category and nothing else. |
| `AppState.LoadingSettled` | src/App.tsx:97-99 | A firing timer clears the loading flag unconditionally and changes nothing else. |
| `AppState.Step` | src/App.tsx:86-115 | Dispatching an event: only a selection or Back changes the selection; loading is set by a selection, cleared by a timer, kept otherwise; only a selection changes the recent ids and only a toggle changes the favourites. |
| `AppState.Run` | src/App.tsx:86-115 | Along a sequence of events without a selection the recent ids are unchanged; without a toggle the favourites are unchanged. |
| `AppState.RunPreservesValid` | src/App.tsx:86-115 | Along any sequence of events, the list of recent ids stays within five and neither preference list holds an id twice. |
| `AppState.ReachableValid` | src/App.tsx:63-73 | Every state reached from the first render (empty preferences) keeps the preference invariants. |
| `AppState.OfferedIsInCatalogue` | src/App.tsx:472-477 | Every channel a click can select, from the grid, either strip or the side panel, is a catalogue entry. |
| `AppState.RunKeepsSelectionInCatalogue` | src/App.tsx:86-88 | When only catalogue channels are selected, the selection is always a catalogue entry. |
| `AppState.RunKeepsSelectionOffered` | src/App.tsx:86-88 | When each selection picks a channel on screen in the state it is made in, the selection stays a catalogue entry. |
| `AppState.ReachableSelectionInCatalogue` | src/App.tsx:63-88 | From the first render, clicking only channels on screen, the selection is always a catalogue entry. |
| `AppState.StepRefersToCatalogue` | src/App.tsx:86-115 | An event a click on screen can produce keeps the selection, every favourite id and every recent id pointing at catalogue entries. |
| `AppState.RunRefersToCatalogue` | src/App.tsx:86-115 | Along any sequence of on-screen events the selection and both preference lists keep referring to catalogue entries. |
| `AppState.ReachableRefersToCatalogue` | src/App.tsx:678-680 | From the first render, selecting and starring only channels on screen (the handlers at src/App.tsx:371, 514, 823 and 477-879), every favourite and recent id is a catalogue id. So the recents strip shows one channel for every recent id. |
| `AppState.EarlierTimerEndsLaterLoading` | src/App.tsx:86-99 | After selecting a, then b, an earlier timer firing leaves b selected with loading already off. |
| `Scenarios.SportsCategory` | src/App.tsx:118-125 | "sports" with no search term keeps ESPN and drops History Channel. |
| `Scenarios.SportsOnCatalogue` | src/App.tsx:12-61 | On the full catalogue, "sports" lists ESPN, ESPN 2, SporTV and SporTV 2 in that order. |
| `Scenarios.FavoriteFirst` | src/App.tsx:130-134 | With History Channel a favourite, the organised list is History Channel, then ESPN. |
| `Scenarios.RecencyOrdersFavorites` | src/App.tsx:137-144 | Two favourites are ordered by recency before name. |
| `Scenarios.WatchTwo` | src/App.tsx:91-94 | Watching "espn" and then "sportv" from an empty history gives ["sportv", "espn"]. |

## Left out

- Rendering and styling: JSX, dark mode, the mobile menu, icons, CSS classes and the empty-state text. These are presentation only and carry no rules.
- Opening a channel in a new tab (`window.open`). It is a host browser call with no effect on the state.
- The embedded player (`iframe`). It is an opaque external resource; the model keeps only the selected channel and the loading flag.
- The loading delay's timing. `setTimeout` is modelled as a `Settle` event that can arrive at any point and clears the flag. Pending timers are not counted and the one-second delay is not modelled, so no claim ties a timer to the selection that started it.
- `event.stopPropagation()` in `toggleFavorite`. It is DOM event plumbing; toggling never selects in the model because the two are separate events.
- The categories list. It only drives the category buttons; the active category is a plain string, with "all" reserved.
- The static catalogue is input data. It appears only as the concrete instance in `Scenarios`.
- Text.Lower: lower-cases ASCII letters only, while `toLowerCase` follows Unicode case mapping.
- Text.NameCompare: code-point lexicographic order, while `localeCompare` is locale-dependent collation. The two orders differ: "Banana" comes before "apple" by code point, and accented names such as "Álbum" sort after "Band". `localeCompare` is also a total preorder that can tie distinct names, such as canonically equivalent ones, which the source's stable sort then keeps in filtered-catalogue order. So the name order of non-recent channels with equal favourite status is the model's, not the browser's.
