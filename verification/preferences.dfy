/**
 The preference store: the favourites array (used as a set of channel ids)
 and the recently-watched list (most recent first, at most five ids).
 */
module Preferences {
  import opened Seqs

  /** The length `recentlyWatched` is truncated to (`slice(0, 5)`). */
  const MaxRecent: nat := 5

  datatype Prefs = Prefs(favorites: seq<string>, recentlyWatched: seq<string>)

  /** `toggleFavorite`'s update: drop every copy of `id` if present, else append it. */
  function ToggleFavorite(favorites: seq<string>, id: string): (r: seq<string>)
    ensures id in r <==> id !in favorites
    ensures forall x :: x != id ==> (x in r <==> x in favorites)
    ensures NoDup(favorites) ==> NoDup(r)
  {
    if id in favorites then
      FilterNoDup(favorites, Except(id));
      Filter(favorites, Except(id))
    else favorites + [id]
  }

  /**
   Toggling twice restores membership. When `id` was absent it restores the
   very array; when it was present it comes back at the end.
   */
  lemma ToggleTwice(favorites: seq<string>, id: string)
    ensures forall x :: x in ToggleFavorite(ToggleFavorite(favorites, id), id) <==> x in favorites
    ensures id !in favorites ==> ToggleFavorite(ToggleFavorite(favorites, id), id) == favorites
    ensures id in favorites ==>
      ToggleFavorite(ToggleFavorite(favorites, id), id) == Filter(favorites, Except(id)) + [id]
  {
    if id !in favorites {
      FilterConcat(favorites, [id], Except(id));
      FilterKeepsAll(favorites, Except(id));
    }
  }

  /**
   The recently-watched update of `selectChannel`: put `id` in front of the
   other ids and keep the first five.
   */
  function RecordWatched(recent: seq<string>, id: string): (r: seq<string>)
    ensures |r| > 0 && r[0] == id
    ensures |r| <= MaxRecent
    ensures id !in r[1..]
    ensures r[1..] <= Filter(recent, Except(id))
    ensures |r| == if 1 + |Filter(recent, Except(id))| <= MaxRecent
                   then 1 + |Filter(recent, Except(id))| else MaxRecent
    ensures NoDup(recent) ==> NoDup(r)
  {
    var others := Filter(recent, Except(id));
    var full := [id] + others;
    FilterNoDup(recent, Except(id));
    NoDupCons(id, others);
    TakeFront(full, others)
  }

  /** The truncation of `[id] + others` to `MaxRecent`, with what the truncation keeps. */
  function TakeFront(full: seq<string>, others: seq<string>): (r: seq<string>)
    requires |full| > 0 && full[1..] == others
    ensures r <= full && |r| > 0 && r[0] == full[0]
    ensures r[1..] <= others
    ensures |r| == if |full| <= MaxRecent then |full| else MaxRecent
    ensures forall x :: x in r[1..] ==> x in others
    ensures NoDup(full) ==> NoDup(r)
  {
    var r := Take(full, MaxRecent);
    PrefixInherits(r, full);
    PrefixInherits(r[1..], others);
    r
  }

  /** Recording the id that is already at the front changes nothing. */
  lemma RecordWatchedIdempotent(recent: seq<string>, id: string)
    ensures RecordWatched(RecordWatched(recent, id), id) == RecordWatched(recent, id)
  {
    var r := RecordWatched(recent, id);
    assert Filter(r, Except(id)) == r[1..] by {
      assert r == [id] + r[1..];
      FilterKeepsAll(r[1..], Except(id));
    }
    assert [id] + r[1..] == r;
  }

  /** Watching `a` and then another channel `b` leaves `b` first and `a` second. */
  lemma RecordTwo(recent: seq<string>, a: string, b: string)
    requires a != b
    ensures RecordWatched(RecordWatched(recent, a), b)[..2] == [b, a]
  {
    var r1 := RecordWatched(recent, a);
    assert r1 == [a] + r1[1..];
    assert Filter(r1, Except(b)) == [a] + Filter(r1[1..], Except(b));
  }
}
