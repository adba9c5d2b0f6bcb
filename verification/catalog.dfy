/**
 The channel catalogue: the immutable `Channel` record and the lookup by id
 (`channels.find(c => c.id === id)`) that the recently-watched view uses.
 */
module Catalog {

  /** An optional value: `undefined` from `find`, or a `null` selection. */
  datatype Option<T> = None | Some(value: T)

  /** One entry of the catalogue. Its identity is `id`. */
  datatype Channel = Channel(id: string, name: string, category: string, url: string)

  /** The reserved pseudo-category that matches every channel. */
  const AllCategory: string := "all"

  /** Some catalogue entry carries `id`. */
  predicate HasId(catalog: seq<Channel>, id: string)
  {
    exists c :: c in catalog && c.id == id
  }

  /** The catalogue's ids, in catalogue order. */
  function Ids(cs: seq<Channel>): (r: seq<string>)
    ensures |r| == |cs|
    ensures forall i :: 0 <= i < |cs| ==> r[i] == cs[i].id
  {
    if |cs| == 0 then [] else [cs[0].id] + Ids(cs[1..])
  }

  /** `find` by id: the FIRST catalogue entry carrying `id`, or `None` when there is none. */
  function FindById(catalog: seq<Channel>, id: string): (r: Option<Channel>)
    ensures r.None? <==> forall i :: 0 <= i < |catalog| ==> catalog[i].id != id
    ensures r.Some? ==>
      exists k :: 0 <= k < |catalog| && catalog[k] == r.value && r.value.id == id
        && forall j :: 0 <= j < k ==> catalog[j].id != id
  {
    if |catalog| == 0 then None
    else if catalog[0].id == id then Some(catalog[0])
    else
      var rest := FindById(catalog[1..], id);
      if rest.Some? then
        var k :| 0 <= k < |catalog[1..]| && catalog[1..][k] == rest.value && rest.value.id == id
          && forall j :: 0 <= j < k ==> catalog[1..][j].id != id;
        assert catalog[k + 1] == rest.value;
        assert forall j :: 0 <= j < k + 1 ==> catalog[j].id != id by {
          forall j | 0 <= j < k + 1
            ensures catalog[j].id != id
          {
            if j > 0 {
              assert catalog[j] == catalog[1..][j - 1];
            }
          }
        }
        rest
      else
        assert forall i :: 0 <= i < |catalog| ==> catalog[i].id != id by {
          forall i | 0 <= i < |catalog|
            ensures catalog[i].id != id
          {
            if i > 0 {
              assert catalog[i] == catalog[1..][i - 1];
            }
          }
        }
        None
  }
}
