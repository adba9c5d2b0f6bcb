/**
 The channel filter (src/App.tsx:118-125): a catalogue entry is listed when
 its category is the active one (or the active category is "all") and its
 lower-cased name contains the lower-cased search term.
 */
module ChannelFilter {
  import opened Seqs
  import opened Text
  import opened Catalog

  predicate MatchesCategory(c: Channel, activeCategory: string)
  {
    activeCategory == AllCategory || c.category == activeCategory
  }

  predicate MatchesSearch(c: Channel, searchTerm: string)
  {
    Includes(Lower(c.name), Lower(searchTerm))
  }

  /** The filter callback's test: the category fits and the lowered term occurs in the lowered name. */
  predicate Matches(c: Channel, activeCategory: string, searchTerm: string)
    ensures Matches(c, activeCategory, searchTerm) <==>
      (activeCategory == AllCategory || c.category == activeCategory)
      && ContainsSubstring(Lower(c.name), Lower(searchTerm))
  {
    IncludesIsContainment(Lower(c.name), Lower(searchTerm));
    MatchesCategory(c, activeCategory) && MatchesSearch(c, searchTerm)
  }

  /** The filter callback for one (category, search term) pair. */
  function Matcher(activeCategory: string, searchTerm: string): Channel -> bool
  {
    c => Matches(c, activeCategory, searchTerm)
  }

  /** The filter callback when only the category is checked. */
  function CategoryMatcher(activeCategory: string): Channel -> bool
  {
    c => MatchesCategory(c, activeCategory)
  }

  /**
   `filteredChannels`: exactly the matching catalogue entries, each as often
   as in the catalogue, in catalogue order.
   */
  function FilterChannels(catalog: seq<Channel>, activeCategory: string, searchTerm: string): (r: seq<Channel>)
    ensures forall c :: (c in r <==>
      c in catalog && MatchesCategory(c, activeCategory) && ContainsSubstring(Lower(c.name), Lower(searchTerm)))
    ensures forall c :: (multiset(r)[c] ==
      if Matches(c, activeCategory, searchTerm) then multiset(catalog)[c] else 0)
    ensures IsSubsequence(r, catalog)
  {
    assert forall c: Channel :: MatchesSearch(c, searchTerm) <==> ContainsSubstring(Lower(c.name), Lower(searchTerm)) by {
      forall c: Channel {
        IncludesIsContainment(Lower(c.name), Lower(searchTerm));
      }
    }
    FilterIsSubsequence(catalog, Matcher(activeCategory, searchTerm));
    FilterCount(catalog, Matcher(activeCategory, searchTerm));
    Filter(catalog, Matcher(activeCategory, searchTerm))
  }

  /** An empty search term matches every name: only the category filters. */
  lemma EmptySearchFiltersByCategory(catalog: seq<Channel>, activeCategory: string)
    ensures FilterChannels(catalog, activeCategory, "") == Filter(catalog, CategoryMatcher(activeCategory))
  {
    forall i | 0 <= i < |catalog|
      ensures Matcher(activeCategory, "")(catalog[i]) == CategoryMatcher(activeCategory)(catalog[i])
    {
      assert StartsWith(Lower(catalog[i].name), Lower(""));
    }
    FilterCongruent(catalog, Matcher(activeCategory, ""), CategoryMatcher(activeCategory));
  }

  /** With category "all" and an empty search term the whole catalogue is listed. */
  lemma ShowAllListsCatalogue(catalog: seq<Channel>)
    ensures FilterChannels(catalog, AllCategory, "") == catalog
  {
    forall i | 0 <= i < |catalog|
      ensures Matcher(AllCategory, "")(catalog[i])
    {
      assert StartsWith(Lower(catalog[i].name), Lower(""));
    }
    FilterKeepsAll(catalog, Matcher(AllCategory, ""));
  }

  /** The search ignores the case of the term: searching "ESPN" is searching "espn". */
  lemma SearchIgnoresCase(catalog: seq<Channel>, activeCategory: string, searchTerm: string)
    ensures FilterChannels(catalog, activeCategory, searchTerm)
         == FilterChannels(catalog, activeCategory, Lower(searchTerm))
  {
    LowerIsLower(searchTerm);
    FilterCongruent(catalog, Matcher(activeCategory, searchTerm), Matcher(activeCategory, Lower(searchTerm)));
  }
}
