/**
 The channel organiser (src/App.tsx:127-148): the filtered channels, copied
 and sorted with the component's three-level comparator. Favourites come
 first; within equal favourite status, recently watched channels come before
 the others and among themselves by position in `recentlyWatched`; the
 remaining ties are broken by name.

 `Array.prototype.sort` is stable, so the sort is modelled as a stable
 insertion sort driven by the very comparator of the source. It is proved
 to be a permutation, sorted, and stable, and the comparator is proved to
 coincide with the lexicographic order on a key (group, rank, name); those
 three facts determine the result of any stable sort with this comparator.
 */
module Organizer {
  import opened Seqs
  import opened Text
  import opened Catalog
  import opened ChannelFilter
  import opened Preferences

  /** `indexOf`: the first position of `x` in `xs`, or -1. */
  function IndexOf(xs: seq<string>, x: string): (r: int)
    ensures -1 <= r < |xs|
    ensures r == -1 <==> x !in xs
    ensures r >= 0 ==> xs[r] == x && x !in xs[..r]
  {
    if |xs| == 0 then -1
    else if xs[0] == x then 0
    else
      var k := IndexOf(xs[1..], x);
      if k == -1 then -1
      else
        assert xs[..k + 1] == [xs[0]] + xs[1..][..k];
        k + 1
  }

  predicate IsFavorite(c: Channel, p: Prefs)
  {
    c.id in p.favorites
  }

  predicate IsRecent(c: Channel, p: Prefs)
  {
    c.id in p.recentlyWatched
  }

  /**
   The sort callback, branch for branch: negative when `a` goes first,
   positive when `b` goes first, zero for a tie. Favourite status decides
   first; a tie needs equal favourite and recency status, and then the same
   id for recent channels or the same name for the others.
   */
  function Compare(a: Channel, b: Channel, p: Prefs): (r: int)
    ensures IsFavorite(a, p) != IsFavorite(b, p) ==> (r < 0 <==> IsFavorite(a, p))
    ensures r == 0 ==> IsFavorite(a, p) == IsFavorite(b, p) && IsRecent(a, p) == IsRecent(b, p)
    ensures r == 0 && IsRecent(a, p) ==> a.id == b.id
    ensures r == 0 && !IsRecent(a, p) ==> a.name == b.name
  {
    var aIsFavorite := IsFavorite(a, p);
    var bIsFavorite := IsFavorite(b, p);
    if aIsFavorite && !bIsFavorite then -1
    else if !aIsFavorite && bIsFavorite then 1
    else
      var aIsRecent := IsRecent(a, p);
      var bIsRecent := IsRecent(b, p);
      var aRecentIndex := IndexOf(p.recentlyWatched, a.id);
      var bRecentIndex := IndexOf(p.recentlyWatched, b.id);
      if aIsRecent && bIsRecent then aRecentIndex - bRecentIndex
      else if aIsRecent then -1
      else if bIsRecent then 1
      else NameCompare(a.name, b.name)
  }

  /** `a` may stand before `b`. */
  predicate Precedes(a: Channel, b: Channel, p: Prefs)
  {
    Compare(a, b, p) <= 0
  }

  /** Ordered by the comparator: no pair stands in the wrong order. */
  predicate Sorted(s: seq<Channel>, p: Prefs)
  {
    forall i, j :: 0 <= i < j < |s| ==> Precedes(s[i], s[j], p)
  }

  /**
   The lexicographic sort key: favourite group (0 first), recency rank
   (the position in `recentlyWatched`, or its length when absent) and the
   name, which only matters for channels that are not recent.
   */
  datatype SortKey = SortKey(group: nat, rank: nat, name: string)

  function KeyOf(c: Channel, p: Prefs): SortKey
  {
    var group := if IsFavorite(c, p) then 0 else 1;
    if IsRecent(c, p) then SortKey(group, IndexOf(p.recentlyWatched, c.id) as nat, "")
    else SortKey(group, |p.recentlyWatched|, c.name)
  }

  /** Lexicographic order on keys. */
  predicate KeyLe(k: SortKey, l: SortKey)
  {
    k.group < l.group
    || (k.group == l.group && (k.rank < l.rank || (k.rank == l.rank && NameCompare(k.name, l.name) <= 0)))
  }

  /** The comparator is exactly the key order: it says "not after" iff the key does, and ties iff the keys are equal. */
  lemma CompareIsKeyOrder(a: Channel, b: Channel, p: Prefs)
    ensures Compare(a, b, p) <= 0 <==> KeyLe(KeyOf(a, p), KeyOf(b, p))
    ensures Compare(a, b, p) == 0 <==> KeyOf(a, p) == KeyOf(b, p)
  {
    if IsRecent(a, p) && !IsRecent(b, p) {
      assert IndexOf(p.recentlyWatched, a.id) < |p.recentlyWatched|;
    }
    if !IsRecent(a, p) && IsRecent(b, p) {
      assert IndexOf(p.recentlyWatched, b.id) < |p.recentlyWatched|;
    }
  }

  /** Swapping the arguments negates the comparator. */
  lemma CompareAntisymmetric(a: Channel, b: Channel, p: Prefs)
    ensures Compare(b, a, p) == -Compare(a, b, p)
  {
    NameCompareAntisymmetric(a.name, b.name);
  }

  /** "Not after" is transitive: the comparator is consistent, as `sort` requires. */
  lemma CompareTransitive(a: Channel, b: Channel, c: Channel, p: Prefs)
    requires Precedes(a, b, p) && Precedes(b, c, p)
    ensures Precedes(a, c, p)
  {
    CompareIsKeyOrder(a, b, p);
    CompareIsKeyOrder(b, c, p);
    CompareIsKeyOrder(a, c, p);
    var ka, kb, kc := KeyOf(a, p), KeyOf(b, p), KeyOf(c, p);
    if ka.group == kb.group == kc.group && ka.rank == kb.rank == kc.rank {
      NameCompareTransitive(ka.name, kb.name, kc.name);
    }
  }

  /** Places `x` before the first element it may precede. */
  function Insert(x: Channel, s: seq<Channel>, p: Prefs): (r: seq<Channel>)
    ensures multiset(r) == multiset(s) + multiset{x}
  {
    if |s| == 0 then [x]
    else if Precedes(x, s[0], p) then [x] + s
    else
      assert s == [s[0]] + s[1..];
      [s[0]] + Insert(x, s[1..], p)
  }

  /** Inserting into a sorted list keeps it sorted. */
  lemma {:induction false} InsertSorted(x: Channel, s: seq<Channel>, p: Prefs)
    requires Sorted(s, p)
    ensures Sorted(Insert(x, s, p), p)
  {
    if |s| == 0 {
    } else if Precedes(x, s[0], p) {
      var r := [x] + s;
      forall j | 1 <= j < |r|
        ensures Precedes(x, r[j], p)
      {
        if j > 1 {
          CompareTransitive(x, s[0], s[j - 1], p);
        }
      }
    } else {
      CompareAntisymmetric(x, s[0], p);
      InsertSorted(x, s[1..], p);
      var tail := Insert(x, s[1..], p);
      forall j | 0 <= j < |tail|
        ensures Precedes(s[0], tail[j], p)
      {
        assert tail[j] in multiset(tail);
        if tail[j] != x {
          assert tail[j] in s[1..];
        }
      }
    }
  }

  /** The stable sort: insert each element, from the back, into the sorted rest. */
  function SortChannels(s: seq<Channel>, p: Prefs): (r: seq<Channel>)
    ensures multiset(r) == multiset(s)
    ensures Sorted(r, p)
  {
    if |s| == 0 then []
    else
      assert s == [s[0]] + s[1..];
      var rest := SortChannels(s[1..], p);
      InsertSorted(s[0], rest, p);
      Insert(s[0], rest, p)
  }

  /**
   `organizedChannels`: the filtered channels, sorted. It holds exactly the
   matching catalogue entries, as often as the catalogue does, in comparator order.
   */
  function Organize(catalog: seq<Channel>, activeCategory: string, searchTerm: string, p: Prefs): (r: seq<Channel>)
    ensures multiset(r) == multiset(FilterChannels(catalog, activeCategory, searchTerm))
    ensures forall c :: (c in r <==>
      c in catalog && MatchesCategory(c, activeCategory) && ContainsSubstring(Lower(c.name), Lower(searchTerm)))
    ensures Sorted(r, p)
  {
    var filtered := FilterChannels(catalog, activeCategory, searchTerm);
    var r := SortChannels(filtered, p);
    assert forall c :: c in r <==> c in multiset(filtered);
    r
  }

  /** What one pair in comparator order says about favourites, recency and names. */
  lemma PrecedesMeans(a: Channel, b: Channel, p: Prefs)
    requires Precedes(a, b, p)
    ensures IsFavorite(b, p) ==> IsFavorite(a, p)
    ensures IsFavorite(a, p) == IsFavorite(b, p) && IsRecent(b, p) ==> IsRecent(a, p)
    ensures IsFavorite(a, p) == IsFavorite(b, p) && IsRecent(a, p) && IsRecent(b, p) ==>
      IndexOf(p.recentlyWatched, a.id) <= IndexOf(p.recentlyWatched, b.id)
    ensures IsFavorite(a, p) == IsFavorite(b, p) && !IsRecent(a, p) && !IsRecent(b, p) ==>
      NameCompare(a.name, b.name) <= 0
  {
  }

  /**
   The ordering policy of the organised list: every favourite stands before
   every non-favourite; within equal favourite status recent channels stand
   before the others, recent channels by ascending position in
   `recentlyWatched`, and the rest by name. The recency rule applies to
   favourites as well.
   */
  lemma OrganizedOrder(catalog: seq<Channel>, activeCategory: string, searchTerm: string, p: Prefs)
    ensures var r := Organize(catalog, activeCategory, searchTerm, p);
      && (forall i, j :: 0 <= i < j < |r| && IsFavorite(r[j], p) ==> IsFavorite(r[i], p))
      && (forall i, j :: 0 <= i < j < |r| && IsFavorite(r[i], p) == IsFavorite(r[j], p) && IsRecent(r[j], p) ==>
            IsRecent(r[i], p))
      && (forall i, j ::
            (0 <= i < j < |r| && IsFavorite(r[i], p) == IsFavorite(r[j], p)
             && IsRecent(r[i], p) && IsRecent(r[j], p)) ==>
            IndexOf(p.recentlyWatched, r[i].id) <= IndexOf(p.recentlyWatched, r[j].id))
      && (forall i, j ::
            (0 <= i < j < |r| && IsFavorite(r[i], p) == IsFavorite(r[j], p)
             && !IsRecent(r[i], p) && !IsRecent(r[j], p)) ==>
            NameCompare(r[i].name, r[j].name) <= 0)
  {
    var r := Organize(catalog, activeCategory, searchTerm, p);
    forall i, j | 0 <= i < j < |r| {
      PrecedesMeans(r[i], r[j], p);
    }
  }

  /** The keep-function selecting the channels with one given key. */
  function HasKey(k: SortKey, p: Prefs): Channel -> bool
  {
    c => KeyOf(c, p) == k
  }

  /** Insertion puts `x` in front of every element with its own key. */
  lemma {:induction false} InsertStable(x: Channel, s: seq<Channel>, p: Prefs, k: SortKey)
    ensures Filter(Insert(x, s, p), HasKey(k, p))
         == (if KeyOf(x, p) == k then [x] else []) + Filter(s, HasKey(k, p))
  {
    var keep := HasKey(k, p);
    if |s| == 0 {
      FilterCons(x, [], keep);
    } else if Precedes(x, s[0], p) {
      FilterCons(x, s, keep);
    } else {
      CompareIsKeyOrder(x, s[0], p);
      assert KeyOf(x, p) != KeyOf(s[0], p);
      var front := if KeyOf(x, p) == k then [x] else [];
      var head := if keep(s[0]) then [s[0]] else [];
      assert front == [] || head == [];
      InsertStable(x, s[1..], p, k);
      assert Insert(x, s, p) == [s[0]] + Insert(x, s[1..], p);
      FilterCons(s[0], Insert(x, s[1..], p), keep);
      assert Filter(Insert(x, s, p), keep) == head + (front + Filter(s[1..], keep));
      FilterCons(s[0], s[1..], keep);
      assert s == [s[0]] + s[1..];
      assert Filter(s, keep) == head + Filter(s[1..], keep);
      SwapEmpty(head, front, Filter(s[1..], keep));
    }
  }

  /**
   The sort is stable: for every key, the channels carrying that key appear
   in the output in the same order as in the input.
   */
  lemma {:induction false} SortStable(s: seq<Channel>, p: Prefs, k: SortKey)
    ensures Filter(SortChannels(s, p), HasKey(k, p)) == Filter(s, HasKey(k, p))
  {
    if |s| > 0 {
      SortStable(s[1..], p, k);
      InsertStable(s[0], SortChannels(s[1..], p), p, k);
    }
  }

  /** Sorting an already sorted list changes nothing; in particular organising is idempotent. */
  lemma {:induction false} SortSortedIsIdentity(s: seq<Channel>, p: Prefs)
    requires Sorted(s, p)
    ensures SortChannels(s, p) == s
  {
    if |s| > 0 {
      assert Sorted(s[1..], p);
      SortSortedIsIdentity(s[1..], p);
      assert s == [s[0]] + s[1..];
    }
  }

  /** Sorting the organised list again gives the organised list. */
  lemma OrganizeIdempotent(catalog: seq<Channel>, activeCategory: string, searchTerm: string, p: Prefs)
    ensures SortChannels(Organize(catalog, activeCategory, searchTerm, p), p)
         == Organize(catalog, activeCategory, searchTerm, p)
  {
    SortSortedIsIdentity(Organize(catalog, activeCategory, searchTerm, p), p);
  }

  /** Dropping channels from a sorted list leaves it sorted. */
  lemma {:induction false} FilterKeepsSorted(s: seq<Channel>, keep: Channel -> bool, p: Prefs)
    requires Sorted(s, p)
    ensures Sorted(Filter(s, keep), p)
  {
    if |s| > 0 {
      assert Sorted(s[1..], p);
      FilterKeepsSorted(s[1..], keep, p);
      var rest := Filter(s[1..], keep);
      forall j | 0 <= j < |rest|
        ensures Precedes(s[0], rest[j], p)
      {
        assert rest[j] in s[1..];
      }
    }
  }

  /** A channel never stands strictly after itself. */
  lemma CompareReflexive(a: Channel, p: Prefs)
    ensures Compare(a, a, p) == 0
  {
    CompareIsKeyOrder(a, a, p);
  }

  /** The first channel's key class is never empty. */
  lemma HeadKeyClass(s: seq<Channel>, p: Prefs)
    ensures |s| > 0 ==> Filter(s, HasKey(KeyOf(s[0], p), p)) != []
  {
    if |s| > 0 {
      assert HasKey(KeyOf(s[0], p), p)(s[0]);
    }
  }

  /** Two sorted lists with the same key classes start with channels of the same key. */
  lemma HeadKeysAgree(t: seq<Channel>, u: seq<Channel>, p: Prefs)
    requires Sorted(t, p) && Sorted(u, p) && |t| > 0 && |u| > 0
    requires forall k :: Filter(t, HasKey(k, p)) == Filter(u, HasKey(k, p))
    ensures KeyOf(t[0], p) == KeyOf(u[0], p)
  {
    var k0 := KeyOf(t[0], p);
    var k1 := KeyOf(u[0], p);
    assert HasKey(k1, p)(u[0]) && HasKey(k0, p)(t[0]);
    assert u[0] in Filter(t, HasKey(k1, p));
    assert t[0] in Filter(u, HasKey(k0, p));
    var i :| 0 <= i < |t| && t[i] == u[0];
    var j :| 0 <= j < |u| && u[j] == t[0];
    CompareReflexive(t[0], p);
    CompareAntisymmetric(t[0], u[0], p);
    assert Precedes(t[0], u[0], p) && Precedes(u[0], t[0], p);
    CompareIsKeyOrder(t[0], u[0], p);
  }

  /** Equal key classes, and equal first keys, give equal first channels and equal key classes of the rests. */
  lemma HeadsAgree(t: seq<Channel>, u: seq<Channel>, p: Prefs)
    requires |t| > 0 && |u| > 0 && KeyOf(t[0], p) == KeyOf(u[0], p)
    requires forall k :: Filter(t, HasKey(k, p)) == Filter(u, HasKey(k, p))
    ensures t[0] == u[0]
    ensures forall k :: Filter(t[1..], HasKey(k, p)) == Filter(u[1..], HasKey(k, p))
  {
    var k0 := KeyOf(t[0], p);
    assert t == [t[0]] + t[1..] && u == [u[0]] + u[1..];
    forall k
      ensures Filter(t, HasKey(k, p)) == (if k == k0 then [t[0]] else []) + Filter(t[1..], HasKey(k, p))
      ensures Filter(u, HasKey(k, p)) == (if k == k0 then [u[0]] else []) + Filter(u[1..], HasKey(k, p))
    {
      FilterCons(t[0], t[1..], HasKey(k, p));
      FilterCons(u[0], u[1..], HasKey(k, p));
    }
    assert Filter(t, HasKey(k0, p))[0] == t[0];
    assert Filter(u, HasKey(k0, p))[0] == u[0];
    forall k
      ensures Filter(t[1..], HasKey(k, p)) == Filter(u[1..], HasKey(k, p))
    {
      if k == k0 {
        assert Filter(t, HasKey(k, p))[1..] == Filter(t[1..], HasKey(k, p));
        assert Filter(u, HasKey(k, p))[1..] == Filter(u[1..], HasKey(k, p));
      }
    }
  }

  /**
   Two sorted lists with the same channels per key, in the same order per
   key, are equal: a stable sort with this comparator has one possible result.
   */
  lemma {:induction false} SortedStableUnique(t: seq<Channel>, u: seq<Channel>, p: Prefs)
    requires Sorted(t, p) && Sorted(u, p)
    requires forall k :: Filter(t, HasKey(k, p)) == Filter(u, HasKey(k, p))
    ensures t == u
    decreases |t|
  {
    HeadKeyClass(t, p);
    HeadKeyClass(u, p);
    if |t| > 0 && |u| > 0 {
      HeadKeysAgree(t, u, p);
      HeadsAgree(t, u, p);
      assert Sorted(t[1..], p) && Sorted(u[1..], p);
      SortedStableUnique(t[1..], u[1..], p);
      assert t == [t[0]] + t[1..] && u == [u[0]] + u[1..];
    }
  }

  /**
   Whatever stable sorting algorithm runs the comparator, its result is the
   organiser's: a sorted list that keeps every key's channels in input order
   is exactly `SortChannels`.
   */
  lemma StableSortIsSortChannels(s: seq<Channel>, t: seq<Channel>, p: Prefs)
    requires Sorted(t, p)
    requires forall k :: Filter(t, HasKey(k, p)) == Filter(s, HasKey(k, p))
    ensures t == SortChannels(s, p)
  {
    forall k
      ensures Filter(t, HasKey(k, p)) == Filter(SortChannels(s, p), HasKey(k, p))
    {
      SortStable(s, p, k);
    }
    SortedStableUnique(t, SortChannels(s, p), p);
  }
}
