/**
 Concrete instances on the component's own catalogue (src/App.tsx:12-61).
 */
module Scenarios {
  import opened Seqs
  import opened Catalog
  import opened ChannelFilter
  import opened Preferences
  import opened Organizer

  const Espn := Channel("espn", "ESPN", "sports", "https://embedcanaistv.com/espn/")
  const Espn2 := Channel("espn2", "ESPN 2", "sports", "https://embedcanaistv.com/espn2/")
  const Sportv := Channel("sportv", "SporTV", "sports", "https://embedcanaistv.com/sportv/")
  const Sportv2 := Channel("sportv2", "SporTV 2", "sports", "https://embedcanaistv.com/sportv2/")
  const GloboRs := Channel("globors", "Globo RS", "entertainment", "https://embedcanaistv.com/globors/")
  const Discovery := Channel("discovery", "Discovery Channel", "documentaries", "https://embedcanaistv.com/discoverychannel/")
  const History := Channel("history", "History Channel", "documentaries", "https://embedcanaistv.com/history/")
  const Multishow := Channel("multishow", "Multishow", "entertainment", "https://embedcanaistv.com/multishow/")

  const Channels: seq<Channel> := [Espn, Espn2, Sportv, Sportv2, GloboRs, Discovery, History, Multishow]

  /** The "sports" category with no search term keeps ESPN and drops History Channel. */
  lemma SportsCategory()
    ensures FilterChannels([Espn, History], "sports", "") == [Espn]
  {
    EmptySearchFiltersByCategory([Espn, History], "sports");
    var keep := CategoryMatcher("sports");
    assert keep(Espn) && !keep(History);
    FilterCons(Espn, [History], keep);
    FilterCons(History, [], keep);
  }

  /** With "history" a favourite, History Channel is sorted before ESPN. */
  lemma FavoriteSortsFirst()
    ensures SortChannels([Espn, History], Prefs(["history"], [])) == [History, Espn]
  {
    var p := Prefs(["history"], []);
    assert "espn" !in p.favorites && "history" in p.favorites;
    assert !Precedes(Espn, History, p);
    assert [Espn, History][1..] == [History];
    assert SortChannels([History], p) == [History];
  }

  /** Scenario: category "all", empty search, "history" a favourite: History Channel, then ESPN. */
  lemma FavoriteFirst()
    ensures Organize([Espn, History], AllCategory, "", Prefs(["history"], [])) == [History, Espn]
  {
    ShowAllListsCatalogue([Espn, History]);
    FavoriteSortsFirst();
  }

  /** The category check alone keeps exactly the four sports channels. */
  lemma SportsCategoryFilter()
    ensures Filter(Channels, CategoryMatcher("sports")) == [Espn, Espn2, Sportv, Sportv2]
  {
    var keep := CategoryMatcher("sports");
    var others := [GloboRs, Discovery, History, Multishow];
    assert forall i :: 0 <= i < |others| ==> !keep(others[i]);
    FilterDropsAll(others, keep);
    var sports := [Espn, Espn2, Sportv, Sportv2];
    assert Channels == sports + others;
    FilterConcat(sports, others, keep);
    FilterKeepsAll(sports, keep);
  }

  /** On the whole catalogue, the "sports" category lists the four sports channels in catalogue order. */
  lemma SportsOnCatalogue()
    ensures FilterChannels(Channels, "sports", "") == [Espn, Espn2, Sportv, Sportv2]
  {
    EmptySearchFiltersByCategory(Channels, "sports");
    SportsCategoryFilter();
  }

  /** Scenario: watching "espn" and then "sportv" from an empty history. */
  lemma WatchTwo()
    ensures RecordWatched(RecordWatched([], "espn"), "sportv") == ["sportv", "espn"]
  {
    assert RecordWatched([], "espn") == ["espn"];
    assert "espn" != "sportv";
    FilterCons("espn", [], Except("sportv"));
  }

  /**
   The recency rule also orders two favourites: with both favourite and only
   History Channel recently watched, it comes before ESPN despite the names.
   */
  lemma RecencyOrdersFavorites()
    ensures SortChannels([Espn, History], Prefs(["espn", "history"], ["history"])) == [History, Espn]
  {
    var p := Prefs(["espn", "history"], ["history"]);
    assert "espn" in p.favorites && "history" in p.favorites;
    assert "espn" !in p.recentlyWatched && "history" in p.recentlyWatched;
    assert !Precedes(Espn, History, p);
    assert [Espn, History][1..] == [History];
    assert SortChannels([History], p) == [History];
  }
}
