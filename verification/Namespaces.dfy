/** Namespace indices across merged files: `NSIndexReassigner` and `__merge_ns_uris`.

    An index k > 0 of a file stands for the k-th entry of its NamespaceUris, index 0 for
    the OPC UA namespace. Merging renumbers the indices of the new file.
 */
module Namespaces {
  import opened Basics
  import opened AddressSpace

  const UA_URI := "http://opcfoundation.org/UA/"

  predicate Declared(uris: seq<string>, id: NodeId) {
    id.ns <= |uris|
  }

  /** What an id means outside of its file. */
  datatype Named = Named(uri: string, text: string)

  function UriOf(uris: seq<string>, ns: nat): string
    requires ns <= |uris|
  {
    if ns == 0 then UA_URI else uris[ns - 1]
  }

  function Meaning(uris: seq<string>, id: NodeId): Named
    requires Declared(uris, id)
  {
    Named(UriOf(uris, id.ns), id.text)
  }

  function Reindex(reassign: map<nat, nat>, ns: nat): nat {
    if ns in reassign then reassign[ns] else ns
  }

  /** `__reassigned_ns_index` (and, for a BrowseName, `__reassigned_prefix_index`) */
  function Renumber(reassign: map<nat, nat>, id: NodeId): NodeId {
    NodeId(Reindex(reassign, id.ns), id.text)
  }

  /** `reassign` sends every index of a file with `newUris` to an index of `merged` for the same URI. */
  ghost predicate Translates(reassign: map<nat, nat>, newUris: seq<string>, merged: seq<string>) {
    && 0 !in reassign
    && forall ns :: 1 <= ns <= |newUris| ==>
         1 <= Reindex(reassign, ns) <= |merged| && merged[Reindex(reassign, ns) - 1] == newUris[ns - 1]
  }

  /** `index` gives every element of `list` its position, counted from 1. */
  ghost predicate IsIndex<T>(index: map<T, nat>, list: seq<T>) {
    && |index| == |list|
    && (forall u :: u in index ==> 1 <= index[u] <= |list| && list[index[u] - 1] == u)
    && (forall u :: u in list ==> u in index)
  }

  lemma MapSizeMore<T>(index: map<T, nat>, u: T, k: nat)
    requires u !in index
    ensures |index[u := k]| == |index| + 1
  {
    assert index[u := k].Keys == index.Keys + {u};
    assert |index[u := k]| == |index[u := k].Keys|;
    assert |index| == |index.Keys|;
  }

  lemma IndexExtended<T>(index: map<T, nat>, list: seq<T>, u: T)
    requires IsIndex(index, list) && u !in index
    ensures IsIndex(index[u := |list| + 1], list + [u])
  {
    var more, all := index[u := |list| + 1], list + [u];
    MapSizeMore(index, u, |list| + 1);
    forall v | v in more
      ensures 1 <= more[v] <= |all| && all[more[v] - 1] == v
    {
      if v != u {
        assert more[v] == index[v] && list[index[v] - 1] == v;
      }
    }
    forall v | v in all
      ensures v in more
    {
      assert v == u || v in list;
    }
  }

  lemma NotIndexed<T>(index: map<T, nat>, list: seq<T>, u: T)
    requires IsIndex(index, list) && u !in index
    ensures |index| == |list| && u !in list
  {
  }

  lemma DistinctMore<T>(list: seq<T>, u: T)
    requires Distinct(list) && u !in list
    ensures Distinct(list + [u])
  {
  }

  lemma TranslatesMore(reassign: map<nat, nat>, newUris: seq<string>, merged: seq<string>,
                       u: string, k: nat, more: seq<string>)
    requires Translates(reassign, newUris, merged) && |newUris| + 1 !in reassign
    requires merged <= more && 1 <= k <= |more| && more[k - 1] == u
    ensures Translates(if k == |newUris| + 1 then reassign else reassign[|newUris| + 1 := k], newUris + [u], more)
  {
    var next := if k == |newUris| + 1 then reassign else reassign[|newUris| + 1 := k];
    forall ns | 1 <= ns <= |newUris + [u]|
      ensures 1 <= Reindex(next, ns) <= |more| && more[Reindex(next, ns) - 1] == (newUris + [u])[ns - 1]
    {
      if ns <= |newUris| {
        assert Reindex(next, ns) == Reindex(reassign, ns);
      } else {
        assert Reindex(next, ns) == k;
      }
    }
  }

  lemma NextNotIndexed(index: map<string, nat>, uris: seq<string>, i: nat)
    requires i < |uris| && Distinct(uris) && IsIndex(index, uris[..i])
    ensures uris[i] !in index
  {
  }

  method IndexUris(uris: seq<string>) returns (index: map<string, nat>)
    requires Distinct(uris)
    ensures IsIndex(index, uris)
  {
    index := map[];
    for i := 0 to |uris|
      invariant IsIndex(index, uris[..i])
    {
      hide IsIndex;
      NextNotIndexed(index, uris, i);
      IndexExtended(index, uris[..i], uris[i]);
      assert uris[..i + 1] == uris[..i] + [uris[i]];
      index := index[uris[i] := i + 1];
    }
    assert uris[..|uris|] == uris;
  }

  /** The state of the reassignment after the URIs `seen` of the new file. */
  ghost predicate Assigned(treeUris: seq<string>, seen: seq<string>, index: map<string, nat>,
                           reassign: map<nat, nat>, added: seq<string>)
  {
    && IsIndex(index, treeUris + added)
    && Distinct(treeUris + added)
    && (forall u :: u in added <==> u in seen && u !in treeUris)
    && (forall ns :: ns in reassign ==> 1 <= ns <= |seen|)
    && Translates(reassign, seen, treeUris + added)
  }

  lemma AssignedKnownUri(treeUris: seq<string>, seen: seq<string>, index: map<string, nat>,
                         reassign: map<nat, nat>, added: seq<string>, u: string)
    requires Assigned(treeUris, seen, index, reassign, added) && u in index
    ensures var next := if index[u] == |seen| + 1 then reassign else reassign[|seen| + 1 := index[u]];
      Assigned(treeUris, seen + [u], index, next, added)
  {
    hide Translates;
    TranslatesMore(reassign, seen, treeUris + added, u, index[u], treeUris + added);
    assert (treeUris + added)[index[u] - 1] in treeUris + added;
  }

  lemma AssignedNewUri(treeUris: seq<string>, seen: seq<string>, index: map<string, nat>,
                       reassign: map<nat, nat>, added: seq<string>, u: string)
    requires Assigned(treeUris, seen, index, reassign, added) && u !in index
    ensures var k := |index| + 1;
      var next := if k == |seen| + 1 then reassign else reassign[|seen| + 1 := k];
      Assigned(treeUris, seen + [u], index[u := k], next, added + [u])
  {
    hide Translates, IsIndex, Distinct;
    var merged := treeUris + added;
    NotIndexed(index, merged, u);
    IndexExtended(index, merged, u);
    assert treeUris + (added + [u]) == merged + [u];
    TranslatesMore(reassign, seen, merged, u, |index| + 1, merged + [u]);
    DistinctMore(merged, u);
    NewMembers(treeUris, seen, added, u);
  }

  lemma NewMembers(treeUris: seq<string>, seen: seq<string>, added: seq<string>, u: string)
    requires forall v :: v in added <==> v in seen && v !in treeUris
    requires u !in treeUris + added
    ensures forall v :: v in added + [u] <==> v in seen + [u] && v !in treeUris
  {
    assert forall v :: v in treeUris ==> v in treeUris + added;
  }

  lemma NothingAssigned(treeUris: seq<string>, index: map<string, nat>)
    requires IsIndex(index, treeUris) && Distinct(treeUris)
    ensures Assigned(treeUris, [], index, map[], [])
  {
    assert treeUris + [] == treeUris;
  }

  /** `compute_reassignment`; `added` are the URIs to append to those of the tree. */
  method ComputeReassignment(treeUris: seq<string>, newUris: seq<string>)
    returns (reassign: map<nat, nat>, added: seq<string>)
    requires Distinct(treeUris)
    ensures Distinct(treeUris + added)
    ensures forall u :: u in added <==> u in newUris && u !in treeUris
    ensures Translates(reassign, newUris, treeUris + added)
  {
    hide Assigned, IsIndex, Translates, Distinct;
    var index: map<string, nat> := IndexUris(treeUris);
    reassign, added := map[], [];
    NothingAssigned(treeUris, index);
    for i := 0 to |newUris|
      invariant Assigned(treeUris, newUris[..i], index, reassign, added)
    {
      var u := newUris[i];
      assert newUris[..i + 1] == newUris[..i] + [u];
      if u in index {
        AssignedKnownUri(treeUris, newUris[..i], index, reassign, added, u);
        var treeIdx := index[u];
        if treeIdx != i + 1 {
          reassign := reassign[i + 1 := treeIdx];
        }
      } else {
        AssignedNewUri(treeUris, newUris[..i], index, reassign, added, u);
        var newIdx := |index| + 1;
        index := index[u := newIdx];
        if newIdx != i + 1 {
          reassign := reassign[i + 1 := newIdx];
        }
        added := added + [u];
      }
    }
    assert newUris[..|newUris|] == newUris;
    AllAssigned(treeUris, newUris, index, reassign, added);
  }

  lemma AllAssigned(treeUris: seq<string>, newUris: seq<string>, index: map<string, nat>,
                    reassign: map<nat, nat>, added: seq<string>)
    requires Assigned(treeUris, newUris, index, reassign, added)
    ensures Distinct(treeUris + added)
    ensures forall u :: u in added <==> u in newUris && u !in treeUris
    ensures Translates(reassign, newUris, treeUris + added)
  {
  }

  /** Renumbering an id keeps its meaning. */
  lemma RenumberKeepsMeaning(reassign: map<nat, nat>, newUris: seq<string>, merged: seq<string>, id: NodeId)
    requires Translates(reassign, newUris, merged) && Declared(newUris, id)
    ensures Declared(merged, Renumber(reassign, id))
    ensures Meaning(merged, Renumber(reassign, id)) == Meaning(newUris, id)
    ensures Renumber(reassign, id).ns == 0 <==> id.ns == 0
  {
    if id.ns > 0 {
      assert 1 <= id.ns <= |newUris|;
    }
  }

  /** Renumbering never makes two declared ids equal, even when indices are swapped. */
  lemma RenumberInjective(reassign: map<nat, nat>, newUris: seq<string>, merged: seq<string>, x: NodeId, y: NodeId)
    requires Distinct(newUris) && Translates(reassign, newUris, merged)
    requires Declared(newUris, x) && Declared(newUris, y)
    requires Renumber(reassign, x) == Renumber(reassign, y)
    ensures x == y
  {
    RenumberKeepsMeaning(reassign, newUris, merged, x);
    RenumberKeepsMeaning(reassign, newUris, merged, y);
  }

  /** Appending URIs changes the meaning of nothing that was declared. */
  lemma MeaningStable(uris: seq<string>, more: seq<string>, id: NodeId)
    requires uris <= more && Declared(uris, id)
    ensures Declared(more, id) && Meaning(more, id) == Meaning(uris, id)
  {
  }
}
