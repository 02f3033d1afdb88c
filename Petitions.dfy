/**
 * The petition records the pages work on, the constituency index entries, and
 * the normalisation of `rawPetitionsData` into a map keyed by petition id
 * (app.js folds the array with `reduce`; the pages use `Object.fromEntries`,
 * which has the same result: a later petition with the same id replaces an
 * earlier one).
 */
module Petitions {

  datatype Option<+T> = None | Some(value: T)

  type PetitionId = string

  /** One entry of `attributes.signatures_by_constituency`. */
  datatype ConstituencySignatures = ConstituencySignatures(name: string, signatureCount: int)

  /**
   * One petition record. The fields are those of `attributes` that the scripts
   * read; `signatureCount` is `Some` exactly when `signature_count` is a number,
   * `state` and `createdAt` are `None` when absent, and `byConstituency` is
   * `None` when the petition has no per-constituency breakdown.
   */
  datatype Petition = Petition(
    id: PetitionId,
    action: string,
    state: Option<string>,
    signatureCount: Option<int>,
    createdAt: Option<string>,
    hasGovernmentResponse: bool,
    hasDebate: bool,
    byConstituency: Option<seq<ConstituencySignatures>>)

  /** `rawPetitionsData` after normalisation: petition records keyed by id. */
  type PetitionStore = map<PetitionId, Petition>

  /** One entry `[action]: {count, id}` of `signaturesByConstituency[constituency]`. */
  datatype IndexEntry = IndexEntry(action: string, count: int, id: PetitionId)

  /** `signaturesByConstituency`: constituency name to its entries, in `Object.entries` order. */
  type ConstituencyIndex = map<string, seq<IndexEntry>>

  /** `petitionTopics` (`topicsData` on the topic page): petition id to the topic text assigned to it. */
  type TopicStore = map<PetitionId, string>

  /** The two shapes `rawPetitionsData` has been stored in. */
  datatype RawPetitions = Listed(petitions: seq<Petition>) | Keyed(store: PetitionStore)

  ghost predicate DistinctIds(ps: seq<Petition>)
  {
    forall i, j :: 0 <= i < j < |ps| ==> ps[i].id != ps[j].id
  }

  /** `ps.reduce((acc, p) => { acc[p.id] = p; return acc; }, {})`. */
  function IndexById(ps: seq<Petition>): (m: PetitionStore)
    ensures forall i :: 0 <= i < |ps| ==> ps[i].id in m
    ensures forall id :: id in m ==> m[id].id == id
  {
    if ps == [] then map[]
    else
      var last := ps[|ps| - 1];
      assert ps == ps[..|ps| - 1] + [last];
      IndexById(ps[..|ps| - 1])[last.id := last]
  }

  /** Every petition in the map comes from the array. */
  lemma {:induction false} IndexByIdFrom(ps: seq<Petition>, id: PetitionId)
    requires id in IndexById(ps)
    ensures exists i :: 0 <= i < |ps| && ps[i] == IndexById(ps)[id]
    decreases |ps|
  {
    var pre, last := ps[..|ps| - 1], ps[|ps| - 1];
    if id != last.id {
      IndexByIdFrom(pre, id);
      var i :| 0 <= i < |pre| && pre[i] == IndexById(pre)[id];
      assert ps[i] == pre[i];
    } else {
      assert ps[|ps| - 1] == IndexById(ps)[id];
    }
  }

  /** The petition kept under an id is the last one in array order that carries it. */
  lemma {:induction false} IndexByIdLastWins(ps: seq<Petition>, i: nat)
    requires i < |ps|
    requires forall j :: i < j < |ps| ==> ps[j].id != ps[i].id
    ensures IndexById(ps)[ps[i].id] == ps[i]
    decreases |ps|
  {
    if i < |ps| - 1 {
      IndexByIdLastWins(ps[..|ps| - 1], i);
    }
  }

  /** The map never has more keys than the array has petitions, and as many exactly when the ids are distinct. */
  lemma {:induction false} IndexByIdSize(ps: seq<Petition>)
    ensures |IndexById(ps)| <= |ps|
    ensures |IndexById(ps)| == |ps| <==> DistinctIds(ps)
    decreases |ps|
  {
    if ps != [] {
      var pre, last := ps[..|ps| - 1], ps[|ps| - 1];
      IndexByIdSize(pre);
      assert ps == pre + [last];
      if last.id in IndexById(pre) {
        SizeRepeatedId(pre, last);
      } else {
        SizeFreshId(pre, last);
      }
    }
  }

  lemma SizeRepeatedId(pre: seq<Petition>, last: Petition)
    requires |IndexById(pre)| <= |pre|
    requires last.id in IndexById(pre)
    ensures |IndexById(pre + [last])| < |pre + [last]|
    ensures !DistinctIds(pre + [last])
  {
    var m' := IndexById(pre);
    var ps := pre + [last];
    assert ps[..|ps| - 1] == pre && ps[|ps| - 1] == last;
    UpdateSize(m', last.id, last);
    IndexByIdFrom(pre, last.id);
    var j :| 0 <= j < |pre| && pre[j] == m'[last.id];
    assert ps[j].id == ps[|pre|].id;
  }

  lemma SizeFreshId(pre: seq<Petition>, last: Petition)
    requires |IndexById(pre)| == |pre| <==> DistinctIds(pre)
    requires last.id !in IndexById(pre)
    ensures |IndexById(pre + [last])| == |IndexById(pre)| + 1
    ensures DistinctIds(pre + [last]) <==> DistinctIds(pre)
  {
    var m' := IndexById(pre);
    var ps := pre + [last];
    assert ps[..|ps| - 1] == pre && ps[|ps| - 1] == last;
    UpdateSize(m', last.id, last);
    DistinctIdsSnoc(pre, last);
  }

  lemma UpdateSize<K, V>(m: map<K, V>, k: K, v: V)
    ensures |m[k := v]| == if k in m then |m| else |m| + 1
  {
    if k in m {
      assert m[k := v].Keys == m.Keys;
    } else {
      assert m[k := v].Keys == m.Keys + {k};
    }
  }

  lemma DistinctIdsSnoc(pre: seq<Petition>, last: Petition)
    ensures DistinctIds(pre + [last]) <==>
      DistinctIds(pre) && forall j :: 0 <= j < |pre| ==> pre[j].id != last.id
  {
    var ps := pre + [last];
    assert forall j :: 0 <= j < |pre| ==> ps[j] == pre[j];
    assert ps[|pre|] == last;
  }

  /**
   * `rawPetitionsData || {}`, then an array becomes a map keyed by id; a value
   * that is already an object is kept as it is.
   */
  function Normalise(raw: Option<RawPetitions>): (store: PetitionStore)
    ensures raw.None? ==> store == map[]
    ensures raw.Some? && raw.value.Keyed? ==> store == raw.value.store
    ensures raw.Some? && raw.value.Listed? ==>
      && (forall p :: p in raw.value.petitions ==> p.id in store)
      && (forall id :: id in store ==> store[id].id == id)
  {
    match raw
    case None => map[]
    case Some(Keyed(s)) => s
    case Some(Listed(ps)) => IndexById(ps)
  }

  /** `rawPetitionsData[id] || null`: a petition record is always truthy. */
  function Lookup(store: PetitionStore, id: PetitionId): (r: Option<Petition>)
    ensures r.Some? <==> id in store
    ensures r.Some? ==> r.value == store[id]
  {
    if id in store then Some(store[id]) else None
  }
}
