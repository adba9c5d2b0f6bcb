/**
 The component's state and the handlers that change it: `selectChannel`
 (src/App.tsx:86-100), `backToList` (src/App.tsx:103-105), `toggleFavorite`
 (src/App.tsx:108-115), the search box and category buttons
 (src/App.tsx:558, 587), and the end of the loading delay (src/App.tsx:97-99).
 Dark mode and the mobile menu are presentation and are not part of the state.
 */
module AppState {
  import opened Seqs
  import opened Catalog
  import Preferences
  import opened Organizer
  import opened Views

  datatype State = State(
    selected: Option<Channel>,
    isLoading: bool,
    searchTerm: string,
    activeCategory: string,
    prefs: Preferences.Prefs)

  /** The state on first render. */
  const Initial: State := State(None, false, "", AllCategory, Preferences.Prefs([], []))

  /**
   `selectChannel`: show the channel, start loading, and move its id to the
   front of the recently-watched list. Favourites and the filter stay.
   */
  function SelectChannel(st: State, c: Channel): (r: State)
    ensures r.selected == Some(c) && r.isLoading
    ensures r.prefs.recentlyWatched == Preferences.RecordWatched(st.prefs.recentlyWatched, c.id)
    ensures r.prefs.recentlyWatched[0] == c.id && |r.prefs.recentlyWatched| <= Preferences.MaxRecent
    ensures r.prefs.favorites == st.prefs.favorites
    ensures r.searchTerm == st.searchTerm && r.activeCategory == st.activeCategory
  {
    State(Some(c), true, st.searchTerm, st.activeCategory,
          Preferences.Prefs(st.prefs.favorites, Preferences.RecordWatched(st.prefs.recentlyWatched, c.id)))
  }

  /**
   `backToList`: clear the selection and nothing else. In particular the
   loading flag is left as it is; only the pending timer clears it.
   */
  function BackToList(st: State): (r: State)
    ensures r.selected == None
    ensures r.isLoading == st.isLoading && r.prefs == st.prefs
    ensures r.searchTerm == st.searchTerm && r.activeCategory == st.activeCategory
  {
    State(None, st.isLoading, st.searchTerm, st.activeCategory, st.prefs)
  }

  /** `toggleFavorite`: flip one id's favourite status; recently watched and the selection are untouched. */
  function ToggleFavorite(st: State, id: string): (r: State)
    ensures (id in r.prefs.favorites) == (id !in st.prefs.favorites)
    ensures forall x :: x != id ==> (x in r.prefs.favorites <==> x in st.prefs.favorites)
    ensures r.prefs.recentlyWatched == st.prefs.recentlyWatched
    ensures r.selected == st.selected && r.isLoading == st.isLoading
    ensures r.searchTerm == st.searchTerm && r.activeCategory == st.activeCategory
  {
    st.(prefs := st.prefs.(favorites := Preferences.ToggleFavorite(st.prefs.favorites, id)))
  }

  /** Typing in the search box. */
  function SetSearchTerm(st: State, term: string): (r: State)
    ensures r.searchTerm == term
    ensures r.selected == st.selected && r.isLoading == st.isLoading && r.prefs == st.prefs
    ensures r.activeCategory == st.activeCategory
  {
    st.(searchTerm := term)
  }

  /** Pressing a category button. */
  function SetActiveCategory(st: State, category: string): (r: State)
    ensures r.activeCategory == category
    ensures r.selected == st.selected && r.isLoading == st.isLoading && r.prefs == st.prefs
    ensures r.searchTerm == st.searchTerm
  {
    st.(activeCategory := category)
  }

  /**
   A pending loading timer fires. It clears the flag whatever was selected
   since it was set: timers are not cancelled or matched to a selection.
   */
  function LoadingSettled(st: State): (r: State)
    ensures !r.isLoading
    ensures r.selected == st.selected && r.prefs == st.prefs
    ensures r.searchTerm == st.searchTerm && r.activeCategory == st.activeCategory
  {
    st.(isLoading := false)
  }

  /** The user intents and the timer event that drive the component. */
  datatype Event =
    | Select(channel: Channel)
    | Back
    | ToggleFav(id: string)
    | Search(term: string)
    | ChooseCategory(category: string)
    | Settle

  /** Dispatches one event to its handler. */
  function Step(st: State, e: Event): (r: State)
    ensures r.selected == match e
      case Select(c) => Some(c)
      case Back => None
      case _ => st.selected
    ensures r.isLoading <==> e.Select? || (st.isLoading && !e.Settle?)
    ensures !e.Select? ==> r.prefs.recentlyWatched == st.prefs.recentlyWatched
    ensures !e.ToggleFav? ==> r.prefs.favorites == st.prefs.favorites
  {
    match e
    case Select(c) => SelectChannel(st, c)
    case Back => BackToList(st)
    case ToggleFav(id) => ToggleFavorite(st, id)
    case Search(t) => SetSearchTerm(st, t)
    case ChooseCategory(cat) => SetActiveCategory(st, cat)
    case Settle => LoadingSettled(st)
  }

  /** The state after a sequence of events, first to last. */
  function Run(st: State, events: seq<Event>): (r: State)
    ensures (forall i :: 0 <= i < |events| ==> !events[i].Select?) ==>
      r.prefs.recentlyWatched == st.prefs.recentlyWatched
    ensures (forall i :: 0 <= i < |events| ==> !events[i].ToggleFav?) ==>
      r.prefs.favorites == st.prefs.favorites
    decreases |events|
  {
    if |events| == 0 then st else Run(Step(st, events[0]), events[1..])
  }

  /** The preference invariants: at most five recent ids, and neither list holds an id twice. */
  predicate Valid(st: State)
  {
    && |st.prefs.recentlyWatched| <= Preferences.MaxRecent
    && NoDup(st.prefs.recentlyWatched)
    && NoDup(st.prefs.favorites)
  }

  /** Every reachable state satisfies the preference invariants. */
  lemma {:induction false} RunPreservesValid(st: State, events: seq<Event>)
    requires Valid(st)
    ensures Valid(Run(st, events))
    decreases |events|
  {
    if |events| > 0 {
      RunPreservesValid(Step(st, events[0]), events[1..]);
    }
  }

  /** Every state reachable from the first render satisfies the preference invariants. */
  lemma ReachableValid(events: seq<Event>)
    ensures Valid(Run(Initial, events))
  {
    RunPreservesValid(Initial, events);
  }

  /** The organised list for the current state. */
  function Organized(st: State, catalog: seq<Channel>): seq<Channel>
  {
    Organize(catalog, st.activeCategory, st.searchTerm, st.prefs)
  }

  /**
   The channels a click can select: the main grid, the favourites and
   recents strips, and, while watching, the side panel.
   */
  predicate Offered(st: State, catalog: seq<Channel>, c: Channel)
  {
    || c in Organized(st, catalog)
    || c in FavoritesView(catalog, st.prefs.favorites)
    || c in RecentsView(catalog, st.prefs.recentlyWatched)
    || (st.selected.Some? && c in SidePanel(Organized(st, catalog), st.selected.value))
  }

  /** Everything on offer is a catalogue entry. */
  lemma OfferedIsInCatalogue(st: State, catalog: seq<Channel>, c: Channel)
    requires Offered(st, catalog, c)
    ensures c in catalog
  {
    if c in RecentsView(catalog, st.prefs.recentlyWatched) {
      var rv := RecentsView(catalog, st.prefs.recentlyWatched);
      var i :| 0 <= i < |rv| && rv[i] == c;
    }
  }

  /** A selection, when present, is a catalogue entry. */
  predicate SelectionInCatalogue(st: State, catalog: seq<Channel>)
  {
    st.selected.Some? ==> st.selected.value in catalog
  }

  /** Selecting only offered channels, the selection always stays a catalogue entry. */
  lemma {:induction false} RunKeepsSelectionInCatalogue(st: State, catalog: seq<Channel>, events: seq<Event>)
    requires SelectionInCatalogue(st, catalog)
    requires forall i :: 0 <= i < |events| && events[i].Select? ==> events[i].channel in catalog
    ensures SelectionInCatalogue(Run(st, events), catalog)
    decreases |events|
  {
    if |events| > 0 {
      assert SelectionInCatalogue(Step(st, events[0]), catalog);
      RunKeepsSelectionInCatalogue(Step(st, events[0]), catalog, events[1..]);
    }
  }

  /** Every `Select` in the sequence picks a channel on offer in the state it is applied to. */
  predicate SelectsOffered(st: State, catalog: seq<Channel>, events: seq<Event>)
    decreases |events|
  {
    |events| == 0
    || ((events[0].Select? ==> Offered(st, catalog, events[0].channel))
        && SelectsOffered(Step(st, events[0]), catalog, events[1..]))
  }

  /** Clicking only what is on screen, the selection always stays a catalogue entry. */
  lemma {:induction false} RunKeepsSelectionOffered(st: State, catalog: seq<Channel>, events: seq<Event>)
    requires SelectionInCatalogue(st, catalog)
    requires SelectsOffered(st, catalog, events)
    ensures SelectionInCatalogue(Run(st, events), catalog)
    decreases |events|
  {
    if |events| > 0 {
      if events[0].Select? {
        OfferedIsInCatalogue(st, catalog, events[0].channel);
      }
      RunKeepsSelectionOffered(Step(st, events[0]), catalog, events[1..]);
    }
  }

  /** From the first render, clicking only what is on screen, the selection is always a catalogue entry. */
  lemma ReachableSelectionInCatalogue(catalog: seq<Channel>, events: seq<Event>)
    requires SelectsOffered(Initial, catalog, events)
    ensures SelectionInCatalogue(Run(Initial, events), catalog)
  {
    RunKeepsSelectionOffered(Initial, catalog, events);
  }

  /**
   An event a click on screen can produce. A selection picks a channel on
   offer. A star toggles the id of a channel on offer or of the channel being
   watched (src/App.tsx:371, 514, 823); the channel on offer is named with its
   catalogue entry, which every offered channel is (`OfferedIsInCatalogue`).
   Typing, category buttons, Back and the timer are always possible.
   */
  predicate EventOnScreen(st: State, catalog: seq<Channel>, e: Event)
  {
    match e
    case Select(c) => Offered(st, catalog, c)
    case ToggleFav(id) =>
      (exists c :: c in catalog && Offered(st, catalog, c) && c.id == id)
      || (st.selected.Some? && st.selected.value.id == id)
    case _ => true
  }

  /** Every event of the sequence is on screen in the state it is applied to. */
  predicate ClicksOnScreen(st: State, catalog: seq<Channel>, events: seq<Event>)
    decreases |events|
  {
    |events| == 0
    || (EventOnScreen(st, catalog, events[0]) && ClicksOnScreen(Step(st, events[0]), catalog, events[1..]))
  }

  /** The selection and every favourite and recent id refer to catalogue entries. */
  predicate RefersToCatalogue(st: State, catalog: seq<Channel>)
  {
    && SelectionInCatalogue(st, catalog)
    && (forall id :: id in st.prefs.favorites ==> HasId(catalog, id))
    && (forall id :: id in st.prefs.recentlyWatched ==> HasId(catalog, id))
  }

  /** One on-screen event keeps every reference inside the catalogue. */
  lemma StepRefersToCatalogue(st: State, catalog: seq<Channel>, e: Event)
    requires RefersToCatalogue(st, catalog)
    requires EventOnScreen(st, catalog, e)
    ensures RefersToCatalogue(Step(st, e), catalog)
  {
    var r := Step(st, e);
    match e
    case Select(c) =>
      OfferedIsInCatalogue(st, catalog, c);
      var before := st.prefs.recentlyWatched;
      var rec := r.prefs.recentlyWatched;
      var others := Filter(before, Except(c.id));
      PrefixInherits(rec[1..], others);
      forall id | id in rec
        ensures HasId(catalog, id)
      {
        var i :| 0 <= i < |rec| && rec[i] == id;
        if i > 0 {
          assert rec[1..][i - 1] == id;
        }
      }
    case ToggleFav(id) =>
    case _ =>
  }

  /** Clicking only what is on screen, the selection and the preferences refer to catalogue entries throughout. */
  lemma {:induction false} RunRefersToCatalogue(st: State, catalog: seq<Channel>, events: seq<Event>)
    requires RefersToCatalogue(st, catalog)
    requires ClicksOnScreen(st, catalog, events)
    ensures RefersToCatalogue(Run(st, events), catalog)
    decreases |events|
  {
    if |events| > 0 {
      StepRefersToCatalogue(st, catalog, events[0]);
      RunRefersToCatalogue(Step(st, events[0]), catalog, events[1..]);
    }
  }

  /**
   From the first render, clicking only what is on screen, every favourite and
   recent id is a catalogue id, so the recents strip shows every recent id.
   */
  lemma ReachableRefersToCatalogue(catalog: seq<Channel>, events: seq<Event>)
    requires ClicksOnScreen(Initial, catalog, events)
    ensures RefersToCatalogue(Run(Initial, events), catalog)
    ensures var recent := Run(Initial, events).prefs.recentlyWatched;
      Ids(RecentsView(catalog, recent)) == recent
  {
    RunRefersToCatalogue(Initial, catalog, events);
    var recent := Run(Initial, events).prefs.recentlyWatched;
    forall i | 0 <= i < |recent|
      ensures exists c :: c in catalog && c.id == recent[i]
    {
      assert recent[i] in recent;
    }
    RecentsViewComplete(catalog, recent);
  }

  /**
   Selecting `a`, then `b` before `a`'s timer fires, then that timer firing:
   `b` is shown as loaded although its own delay has not elapsed.
   */
  lemma EarlierTimerEndsLaterLoading(st: State, a: Channel, b: Channel)
    ensures var r := LoadingSettled(SelectChannel(SelectChannel(st, a), b));
      r.selected == Some(b) && !r.isLoading
  {
  }
}
