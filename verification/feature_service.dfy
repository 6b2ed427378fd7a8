/**
 * The flag store of feature-forge: a fetched list of flags becomes a map from
 * id to flag (a later flag with the same id replaces an earlier one, and ids
 * keep the position where they first appeared), which answers `isEnabled` and
 * `getPayload` with the defaults false and undefined.
 */
module Features {
  import opened Wrappers
  import opened FeatureModel

  /** The ids of a flag list. */
  function Ids(list: seq<FeatureFlag>): (r: set<string>)
    ensures forall i :: 0 <= i < |list| ==> list[i].id in r
  {
    set f | f in list :: f.id
  }

  /** The index of the last flag in `list` with that id, or -1 when there is none. */
  function LastWith(list: seq<FeatureFlag>, id: string): (j: int)
    ensures -1 <= j < |list|
    ensures j >= 0 ==> list[j].id == id && forall k :: j < k < |list| ==> list[k].id != id
    ensures j < 0 ==> forall k :: 0 <= k < |list| ==> list[k].id != id
  {
    if |list| == 0 then -1
    else if list[|list| - 1].id == id then |list| - 1
    else LastWith(list[..|list| - 1], id)
  }

  /** `new Map(flags.map(f => [f.id, f]))`: entries set in list order. */
  function ToMap(list: seq<FeatureFlag>): (m: map<string, FeatureFlag>)
    ensures m.Keys == Ids(list)
    ensures forall id :: id in m ==> m[id].id == id
  {
    if |list| == 0 then map[]
    else
      var init := list[..|list| - 1];
      assert list == init + [list[|list| - 1]];
      ToMap(init)[list[|list| - 1].id := list[|list| - 1]]
  }

  /** The key order of that map: each id where it first appears in the list. */
  function FirstSeenIds(list: seq<FeatureFlag>): (ks: seq<string>)
    ensures forall i, j :: 0 <= i < j < |ks| ==> ks[i] != ks[j]
    ensures forall k :: k in ks <==> k in Ids(list)
  {
    if |list| == 0 then []
    else
      var init := list[..|list| - 1];
      var last := list[|list| - 1].id;
      assert list == init + [list[|list| - 1]];
      var ks := FirstSeenIds(init);
      if last in ks then ks else ks + [last]
  }

  /** The map holds, for each id, the last flag of the list with that id. */
  lemma {:induction false} ToMapIsLastWith(list: seq<FeatureFlag>, id: string)
    ensures id in ToMap(list) <==> LastWith(list, id) >= 0
    ensures id in ToMap(list) ==> ToMap(list)[id] == list[LastWith(list, id)]
  {
    if |list| > 0 {
      var init := list[..|list| - 1];
      ToMapIsLastWith(init, id);
      if list[|list| - 1].id != id {
        assert LastWith(list, id) == LastWith(init, id);
      }
    }
  }

  /** `_flags().get(id)?.enabled ?? false`: an absent id reads as disabled. */
  function IsEnabledIn(flags: map<string, FeatureFlag>, id: string): (r: bool)
    ensures id !in flags ==> !r
    ensures id in flags ==> (r <==> flags[id].enabled)
  {
    id in flags && flags[id].enabled
  }

  /** `_flags().get(id)?.payload`: none for an absent id or a flag without payload. */
  function PayloadIn(flags: map<string, FeatureFlag>, id: string): (r: Option<Payload>)
    ensures id !in flags ==> r.None?
    ensures id in flags ==> r == flags[id].payload
  {
    if id in flags then flags[id].payload else None
  }

  /** After loading a list, an id is enabled exactly when its last flag in the list is. */
  lemma EnabledAfterLoad(list: seq<FeatureFlag>, id: string)
    ensures IsEnabledIn(ToMap(list), id) <==> LastWith(list, id) >= 0 && list[LastWith(list, id)].enabled
  {
    ToMapIsLastWith(list, id);
  }

  /** After loading a list, the payload of an id is that of its last flag in the list, and none when there is none. */
  lemma PayloadAfterLoad(list: seq<FeatureFlag>, id: string)
    ensures PayloadIn(ToMap(list), id) == if LastWith(list, id) >= 0 then list[LastWith(list, id)].payload else None
  {
    ToMapIsLastWith(list, id);
  }

  /** FeatureService: the flag map, with the insertion order of its keys. */
  class FeatureService {
    var flags: map<string, FeatureFlag>
    /** The keys of `flags` in the order the map yields them. */
    var order: seq<string>

    /** The key order lists each key of the map once, and each flag is stored under its own id. */
    ghost predicate Valid()
      reads this
    {
      && (forall i, j :: 0 <= i < j < |order| ==> order[i] != order[j])
      && (forall k :: k in order <==> k in flags)
      && (forall k :: k in flags ==> flags[k].id == k)
    }

    /** Before `init` the map is empty. */
    constructor ()
      ensures Valid() && flags == map[] && order == []
    {
      flags := map[];
      order := [];
    }

    /**
     * init: `fetched` is the outcome of the provider's fetchFlags, none when it
     * threw. A fetched list replaces the map; a failure leaves it empty.
     */
    method Init(fetched: Option<seq<FeatureFlag>>)
      modifies this
      ensures Valid()
      ensures fetched.Some? ==> flags == ToMap(fetched.value) && order == FirstSeenIds(fetched.value)
      ensures fetched.None? ==> flags == map[] && order == []
    {
      if fetched.Some? {
        flags := ToMap(fetched.value);
        order := FirstSeenIds(fetched.value);
      } else {
        flags := map[];
        order := [];
      }
    }

    /** isEnabled: in a valid store, true exactly when `allFlags` lists an enabled flag with this id. */
    function IsEnabled(id: string): (r: bool)
      reads this
      ensures Valid() ==> (r <==> exists f :: f in AllFlags() && f.id == id && f.enabled)
    {
      Listed(id);
      IsEnabledIn(flags, id)
    }

    /** getPayload: in a valid store, the payload of the flag `allFlags` lists with this id, or none. */
    function GetPayload(id: string): (r: Option<Payload>)
      reads this
      ensures Valid() ==> forall f :: f in AllFlags() && f.id == id ==> r == f.payload
      ensures Valid() && r.Some? ==> exists f :: f in AllFlags() && f.id == id
    {
      Listed(id);
      PayloadIn(flags, id)
    }

    /** In a valid store, `allFlags` lists a flag with an id exactly when the map holds it, and that flag is the stored one. */
    lemma Listed(id: string)
      ensures Valid() ==> (id in flags <==> exists f :: f in AllFlags() && f.id == id)
      ensures Valid() ==> forall f :: f in AllFlags() && f.id == id ==> f == flags[id]
    {
      if Valid() {
        var all := AllFlags();
        if id in flags {
          var i :| 0 <= i < |order| && order[i] == id;
          assert all[i] in all;
        }
        forall f | f in all && f.id == id
          ensures f == flags[id]
        {
          var i :| 0 <= i < |all| && all[i] == f;
        }
      }
    }

    /** allFlags: the stored flags in key order, one per distinct id. */
    function AllFlags(): (r: seq<FeatureFlag>)
      reads this
      requires Valid()
      ensures |r| == |order| == |flags|
      ensures forall i :: 0 <= i < |r| ==> r[i] == flags[order[i]] && r[i].id == order[i]
      ensures forall i, j :: 0 <= i < j < |r| ==> r[i].id != r[j].id
    {
      DistinctCard(order);
      assert (set k | k in order) == flags.Keys;
      var keys, m := order, flags;
      seq(|keys|, i requires 0 <= i < |keys| => m[keys[i]])
    }
  }

  /** A sequence without repeats has as many elements as its set. */
  lemma {:induction false} DistinctCard(ks: seq<string>)
    requires forall i, j :: 0 <= i < j < |ks| ==> ks[i] != ks[j]
    ensures |set k | k in ks| == |ks|
  {
    if |ks| > 0 {
      var init := ks[..|ks| - 1];
      DistinctCard(init);
      assert (set k | k in ks) == (set k | k in init) + {ks[|ks| - 1]};
      assert ks[|ks| - 1] !in init;
    }
  }

  /** After a failed fetch nothing is enabled and no payload is found. */
  lemma FailSafe(id: string)
    ensures !IsEnabledIn(map[], id) && PayloadIn(map[], id) == None
  {
  }
}
