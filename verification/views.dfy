/**
 The derived lists the component renders besides the main grid: the
 favourites strip (src/App.tsx:617-618), the recently-watched strip
 (src/App.tsx:678-680) and the "other channels" side panel next to the
 player (src/App.tsx:472-473). They are recomputed from the state, never stored.
 */
module Views {
  import opened Seqs
  import opened Catalog
  import opened Preferences
  import opened Organizer

  /** The filter callback `favorites.includes(channel.id)`. */
  function InFavorites(favorites: seq<string>): Channel -> bool
  {
    (c: Channel) => c.id in favorites
  }

  /** The favourites strip: the favourite channels, in catalogue order (not in the order they were favourited). */
  function FavoritesView(catalog: seq<Channel>, favorites: seq<string>): (r: seq<Channel>)
    ensures forall c :: c in r <==> c in catalog && c.id in favorites
    ensures forall c :: multiset(r)[c] == if c.id in favorites then multiset(catalog)[c] else 0
    ensures IsSubsequence(r, catalog)
  {
    FilterIsSubsequence(catalog, InFavorites(favorites));
    FilterCount(catalog, InFavorites(favorites));
    Filter(catalog, InFavorites(favorites))
  }

  /**
   The recently-watched strip: each id resolved with `find`, in
   `recentlyWatched` order; an id with no catalogue entry is skipped.
   */
  function RecentsView(catalog: seq<Channel>, recent: seq<string>): (r: seq<Channel>)
    ensures |r| <= |recent|
    ensures forall i :: 0 <= i < |r| ==> r[i] in catalog && r[i].id in recent
  {
    if |recent| == 0 then []
    else
      var rest := RecentsView(catalog, recent[1..]);
      match FindById(catalog, recent[0])
      case Some(c) => [c] + rest
      case None => rest
  }

  /** The ids that `find` can resolve in the catalogue. */
  function Resolvable(catalog: seq<Channel>): string -> bool
  {
    id => FindById(catalog, id).Some?
  }

  /**
   The recents strip shows exactly the resolvable ids of `recentlyWatched`,
   in that order, each as the first catalogue entry carrying it.
   */
  lemma {:induction false} RecentsViewResolves(catalog: seq<Channel>, recent: seq<string>)
    ensures Ids(RecentsView(catalog, recent)) == Filter(recent, Resolvable(catalog))
    ensures forall c :: c in RecentsView(catalog, recent) ==> FindById(catalog, c.id) == Some(c)
  {
    if |recent| > 0 {
      RecentsViewResolves(catalog, recent[1..]);
      var rest := RecentsView(catalog, recent[1..]);
      match FindById(catalog, recent[0])
      case Some(c) =>
        assert Ids([c] + rest) == [c.id] + Ids(rest);
      case None =>
    }
  }

  /** When every id resolves, the strip has one channel per id, in the same order. */
  lemma RecentsViewComplete(catalog: seq<Channel>, recent: seq<string>)
    requires forall i :: 0 <= i < |recent| ==> exists c :: c in catalog && c.id == recent[i]
    ensures Ids(RecentsView(catalog, recent)) == recent
  {
    RecentsViewResolves(catalog, recent);
    forall i | 0 <= i < |recent|
      ensures Resolvable(catalog)(recent[i])
    {
      var c :| c in catalog && c.id == recent[i];
    }
    FilterKeepsAll(recent, Resolvable(catalog));
  }

  /** The filter callback `channel.id !== selectedChannel.id`. */
  function NotSelected(selected: Channel): Channel -> bool
  {
    (c: Channel) => c.id != selected.id
  }

  /** The side panel: the organised list without the channel being watched. */
  function SidePanel(organized: seq<Channel>, selected: Channel): (r: seq<Channel>)
    ensures forall c :: c in r <==> c in organized && c.id != selected.id
    ensures forall c :: multiset(r)[c] == if c.id != selected.id then multiset(organized)[c] else 0
    ensures IsSubsequence(r, organized)
  {
    FilterIsSubsequence(organized, NotSelected(selected));
    FilterCount(organized, NotSelected(selected));
    Filter(organized, NotSelected(selected))
  }

  /** The side panel keeps the organiser's order. */
  lemma SidePanelSorted(organized: seq<Channel>, selected: Channel, p: Prefs)
    requires Sorted(organized, p)
    ensures Sorted(SidePanel(organized, selected), p)
  {
    FilterKeepsSorted(organized, NotSelected(selected), p);
  }
}
