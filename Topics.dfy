/**
 * The topic page: how many petitions and signatures each topic has, the
 * fixed topic groups and their totals, the petitions behind a clicked group
 * or topic with their per-constituency signature sums and colour buckets, and
 * the group restriction of the individual-topics chart.
 *
 * JavaScript objects iterated with `for...in` become Dafny maps walked in an
 * unspecified order; every result here is independent of that order.
 */
module Topics {
  import opened Petitions

  // ---------------------------------------------------------------------------
  // Sums over maps
  // ---------------------------------------------------------------------------

  /** The value under `k`, or 0 when `k` is absent: `(m[k] || 0)`. */
  function Get<K>(m: map<K, int>, k: K): int
  {
    if k in m then m[k] else 0
  }

  /** The sum of the values of `m`, in no particular order. */
  ghost function Sum<K>(m: map<K, int>): int
    decreases |m.Keys|
  {
    if m == map[] then 0
    else
      var k :| k in m;
      assert (m - {k}).Keys == m.Keys - {k};
      m[k] + Sum(m - {k})
  }

  /** Any key can be taken out first. */
  lemma {:induction false} SumRemove<K>(m: map<K, int>, k: K)
    requires k in m
    ensures Sum(m) == m[k] + Sum(m - {k})
    decreases |m.Keys|
  {
    var j :| j in m && Sum(m) == m[j] + Sum(m - {j});
    if j != k {
      assert (m - {j}).Keys == m.Keys - {j} && (m - {k}).Keys == m.Keys - {k};
      SumRemove(m - {j}, k);
      SumRemove(m - {k}, j);
      assert m - {j} - {k} == m - {k} - {j};
    }
  }

  lemma SumUpdate<K>(m: map<K, int>, k: K, v: int)
    ensures Sum(m[k := v]) == Sum(m) - Get(m, k) + v
  {
    SumRemove(m[k := v], k);
    assert m[k := v] - {k} == m - {k};
    if k in m {
      SumRemove(m, k);
    } else {
      assert m - {k} == m;
    }
  }

  lemma {:induction false} SumZero<K>(m: map<K, int>)
    requires forall k :: k in m ==> m[k] == 0
    ensures Sum(m) == 0
    decreases |m.Keys|
  {
    if m != map[] {
      var k :| k in m;
      SumRemove(m, k);
      assert (m - {k}).Keys == m.Keys - {k};
      SumZero(m - {k});
    }
  }

  // ---------------------------------------------------------------------------
  // Topic statistics (calculatePercentageOfPetitionsByTopic,
  // calculatePercentageOfSignaturesByTopic)
  // ---------------------------------------------------------------------------

  /** One entry of the percentage maps: the share in percent and the raw number behind it. */
  datatype TopicStat = TopicStat(percentage: real, rawCount: int)

  /** `rawCount / total * 100`, or 0 when the total is not positive. */
  function Share(rawCount: int, total: int): (p: real)
    ensures total > 0 ==> p * (total as real) == (rawCount as real) * 100.0
    ensures total <= 0 ==> p == 0.0
    ensures total > 0 && 0 <= rawCount <= total ==> 0.0 <= p <= 100.0
  {
    if total > 0 then (rawCount as real / total as real) * 100.0 else 0.0
  }

  function RawCounts(stats: map<string, TopicStat>): map<string, int>
  {
    map t | t in stats :: stats[t].rawCount
  }

  /** The petitions among `ids` whose topic is `t`. */
  ghost function WithTopic(topics: TopicStore, ids: set<PetitionId>, t: string): set<PetitionId>
  {
    set id | id in ids && id in topics && topics[id] == t
  }

  /**
   * The first loop of `calculatePercentageOfPetitionsByTopic`: one more for the
   * topic of each petition, and one more in the total.
   */
  method CountTopics(topicsData: TopicStore) returns (topicCounts: map<string, int>, totalPetitions: int)
    ensures totalPetitions == |topicsData|
    ensures topicCounts.Keys == topicsData.Values
    ensures forall t :: t in topicCounts ==>
      topicCounts[t] == |WithTopic(topicsData, topicsData.Keys, t)| && topicCounts[t] >= 1
    ensures Sum(topicCounts) == totalPetitions
  {
    topicCounts, totalPetitions := map[], 0;
    ghost var done: set<PetitionId> := {};
    var rest := topicsData.Keys;
    while rest != {}
      invariant CountingState(topicsData, done, rest, topicCounts, totalPetitions)
      decreases |rest|
    {
      var petitionId :| petitionId in rest;
      MovePetition(done, rest, petitionId);
      topicCounts := CountOne(topicsData, done, topicCounts, petitionId);
      totalPetitions := totalPetitions + 1;
      done, rest := done + {petitionId}, rest - {petitionId};
    }
    CountingDone(topicsData, done, topicCounts, totalPetitions);
  }

  lemma CountingDone(topicsData: TopicStore, done: set<PetitionId>, topicCounts: map<string, int>, totalPetitions: int)
    requires CountingState(topicsData, done, {}, topicCounts, totalPetitions)
    ensures totalPetitions == |topicsData|
    ensures topicCounts.Keys == topicsData.Values
    ensures forall t :: t in topicCounts ==>
      topicCounts[t] == |WithTopic(topicsData, topicsData.Keys, t)| && topicCounts[t] >= 1
    ensures Sum(topicCounts) == totalPetitions
  {
    assert done == topicsData.Keys;
    assert TopicsOf(topicsData, done) == topicsData.Values;
  }

  /** Moving one petition from the ones to come to the ones done keeps the two apart and covering the same ids. */
  lemma MovePetition(done: set<PetitionId>, rest: set<PetitionId>, id: PetitionId)
    requires id in rest && done !! rest
    ensures (done + {id}) + (rest - {id}) == done + rest && (done + {id}) !! (rest - {id})
    ensures |done + {id}| == |done| + 1 && |rest - {id}| < |rest|
  {
  }

  /** The counting loop's invariant: the petitions in `done` are counted, those in `rest` are still to come. */
  ghost predicate CountingState(topicsData: TopicStore, done: set<PetitionId>, rest: set<PetitionId>,
                                topicCounts: map<string, int>, totalPetitions: int)
  {
    && done + rest == topicsData.Keys && done !! rest
    && totalPetitions == |done| && Sum(topicCounts) == totalPetitions
    && Counted(topicsData, done, topicCounts)
  }

  /** `counts` holds, for each topic of the petitions among `ids`, how many of them have it. */
  ghost predicate Counted(topics: TopicStore, ids: set<PetitionId>, counts: map<string, int>)
  {
    && counts.Keys == TopicsOf(topics, ids)
    && forall t :: t in counts ==> counts[t] == |WithTopic(topics, ids, t)| && counts[t] >= 1
  }

  /** The topics of the petitions among `ids`. */
  ghost function TopicsOf(topics: TopicStore, ids: set<PetitionId>): set<string>
  {
    set id | id in ids && id in topics :: topics[id]
  }

  /** One step of the counting loop: `topicCounts[topic] = (topicCounts[topic] || 0) + 1`. */
  method CountOne(topicsData: TopicStore, ghost done: set<PetitionId>, topicCounts: map<string, int>, petitionId: PetitionId)
    returns (counts: map<string, int>)
    requires petitionId in topicsData && petitionId !in done && done <= topicsData.Keys
    requires Counted(topicsData, done, topicCounts)
    ensures Sum(counts) == Sum(topicCounts) + 1
    ensures Counted(topicsData, done + {petitionId}, counts)
  {
    var topic := topicsData[petitionId];
    WithTopicStep(topicsData, done, petitionId);
    WithTopicCounted(topicsData, done, topic);
    assert TopicsOf(topicsData, done + {petitionId}) == TopicsOf(topicsData, done) + {topic};
    SumUpdate(topicCounts, topic, Get(topicCounts, topic) + 1);
    counts := topicCounts[topic := Get(topicCounts, topic) + 1];
    assert topicsData[petitionId] == topic;
  }

  /** A topic with petitions among `ids` is one of their topics. */
  lemma WithTopicCounted(topics: TopicStore, ids: set<PetitionId>, t: string)
    ensures WithTopic(topics, ids, t) != {} ==> t in TopicsOf(topics, ids)
  {
    if id :| id in WithTopic(topics, ids, t) {
      assert topics[id] == t;
    }
  }

  lemma WithTopicStep(topics: TopicStore, done: set<PetitionId>, id: PetitionId)
    requires id in topics && id !in done
    ensures |WithTopic(topics, done + {id}, topics[id])| == |WithTopic(topics, done, topics[id])| + 1
    ensures forall t :: t != topics[id] ==> WithTopic(topics, done + {id}, t) == WithTopic(topics, done, t)
  {
    assert WithTopic(topics, done + {id}, topics[id]) == WithTopic(topics, done, topics[id]) + {id};
  }

  /**
   * The last loop of both percentage functions: every topic's raw number with
   * its share of `total`. In the petition version the total is positive whenever
   * there is a topic, so the zero guard of the signature version changes nothing.
   */
  method PercentageStats(raw: map<string, int>, total: int) returns (stats: map<string, TopicStat>)
    ensures RawCounts(stats) == raw
    ensures forall t :: t in stats ==> stats[t].percentage == Share(raw[t], total)
  {
    stats := map[];
    var rest := raw.Keys;
    while rest != {}
      invariant rest <= raw.Keys && stats.Keys == raw.Keys - rest
      invariant forall t :: t in stats ==> stats[t] == TopicStat(Share(raw[t], total), raw[t])
      decreases |rest|
    {
      var topic :| topic in rest;
      var rawCount := raw[topic];
      var percentage := if total > 0 then (rawCount as real / total as real) * 100.0 else 0.0;
      stats := stats[topic := TopicStat(percentage, rawCount)];
      rest := rest - {topic};
    }
  }

  /** What `calculatePercentageOfPetitionsByTopic` gives for `topicsData`. */
  ghost predicate PetitionStats(topicsData: TopicStore, stats: map<string, TopicStat>)
  {
    && stats.Keys == topicsData.Values
    && (forall t :: t in stats ==>
          && stats[t].rawCount == |WithTopic(topicsData, topicsData.Keys, t)|
          && stats[t].rawCount >= 1
          && stats[t].percentage == Share(stats[t].rawCount, |topicsData|))
    && Sum(RawCounts(stats)) == |topicsData|
  }

  /**
   * `calculatePercentageOfPetitionsByTopic`: one entry per topic value, its raw
   * count the number of petitions with that topic, and the counts adding up to
   * the number of petitions.
   */
  method PetitionPercentages(topicsData: TopicStore) returns (stats: map<string, TopicStat>)
    ensures PetitionStats(topicsData, stats)
  {
    var topicCounts, totalPetitions := CountTopics(topicsData);
    stats := PercentageStats(topicCounts, totalPetitions);
    assert forall t :: t in stats ==> stats[t].rawCount == RawCounts(stats)[t];
  }

  /** `signature_count` when it is a number, else nothing (0). */
  function NumericCount(p: Petition): int
  {
    if p.signatureCount.Some? then p.signatureCount.value else 0
  }

  /** The numeric signature counts of the petitions among `ids`. */
  ghost function CountsOf(store: PetitionStore, ids: set<PetitionId>): map<PetitionId, int>
  {
    map id | id in ids && id in store :: NumericCount(store[id])
  }

  /** The numeric signature counts of the petitions among `ids` whose topic is `t`. */
  ghost function TopicCounts(store: PetitionStore, topics: TopicStore, ids: set<PetitionId>, t: string): map<PetitionId, int>
  {
    map id | id in ids && id in store && id in topics && topics[id] == t :: NumericCount(store[id])
  }

  lemma CountsOfStep(store: PetitionStore, ids: set<PetitionId>, id: PetitionId)
    requires id in store && id !in ids
    ensures CountsOf(store, ids + {id}) == CountsOf(store, ids)[id := NumericCount(store[id])]
    ensures Sum(CountsOf(store, ids + {id})) == Sum(CountsOf(store, ids)) + NumericCount(store[id])
  {
    assert CountsOf(store, ids + {id}) == CountsOf(store, ids)[id := NumericCount(store[id])];
    SumUpdate(CountsOf(store, ids), id, NumericCount(store[id]));
  }

  /** The first loop of `calculatePercentageOfSignaturesByTopic`: only numeric counts are added. */
  method TotalSignatures(store: PetitionStore) returns (totalSignatures: int)
    ensures totalSignatures == Sum(CountsOf(store, store.Keys))
  {
    totalSignatures := 0;
    ghost var done: set<PetitionId> := {};
    var rest := store.Keys;
    while rest != {}
      invariant done + rest == store.Keys && done !! rest
      invariant totalSignatures == Sum(CountsOf(store, done))
      decreases |rest|
    {
      var petitionId :| petitionId in rest;
      var signatureCount := store[petitionId].signatureCount;
      CountsOfStep(store, done, petitionId);
      if signatureCount.Some? {
        totalSignatures := totalSignatures + signatureCount.value;
      }
      done, rest := done + {petitionId}, rest - {petitionId};
    }
  }

  /** The topic the signature loop reads for a petition: absent or empty is falsy. */
  ghost predicate HasTopic(topics: TopicStore, ids: set<PetitionId>, t: string)
  {
    t != "" && exists id :: id in ids && id in topics && topics[id] == t
  }

  /** The invariant of the second loop of `calculatePercentageOfSignaturesByTopic` after the petitions `done`. */
  ghost predicate TopicSumsAfter(store: PetitionStore, topics: TopicStore, done: set<PetitionId>, sums: map<string, int>)
  {
    && (forall t :: t in sums <==> HasTopic(topics, done, t))
    && (forall t :: t in sums ==> sums[t] == Sum(TopicCounts(store, topics, done, t)))
  }

  /** Every petition among `ids` has a non-negative numeric count. */
  ghost predicate NonNegativeCounts(store: PetitionStore, ids: set<PetitionId>)
  {
    forall id :: id in ids && id in store ==> NumericCount(store[id]) >= 0
  }

  /**
   * The second loop of `calculatePercentageOfSignaturesByTopic`: a petition
   * with a topic opens that topic's entry at 0 if needed and adds its count
   * when the count is a number.
   */
  method TopicSignatureSums(store: PetitionStore, topics: TopicStore) returns (sums: map<string, int>)
    ensures TopicSumsAfter(store, topics, store.Keys, sums)
    ensures NonNegativeCounts(store, store.Keys) ==> Sum(sums) <= Sum(CountsOf(store, store.Keys))
  {
    sums := map[];
    ghost var done: set<PetitionId> := {};
    var rest := store.Keys;
    SummingStart(store, topics);
    while rest != {}
      invariant SummingState(store, topics, done, rest, sums)
      decreases |rest|
    {
      var petitionId :| petitionId in rest;
      sums := AddTopicSignatures(store, topics, done, sums, petitionId);
      done, rest := done + {petitionId}, rest - {petitionId};
    }
    SummingDone(store, topics, done, sums);
  }

  lemma SummingStart(store: PetitionStore, topics: TopicStore)
    ensures SummingState(store, topics, {}, store.Keys, map[])
  {
  }

  lemma SummingDone(store: PetitionStore, topics: TopicStore, done: set<PetitionId>, sums: map<string, int>)
    requires SummingState(store, topics, done, {}, sums)
    ensures TopicSumsAfter(store, topics, store.Keys, sums)
    ensures NonNegativeCounts(store, store.Keys) ==> Sum(sums) <= Sum(CountsOf(store, store.Keys))
  {
    assert done == store.Keys;
  }

  /** The topic-sum loop's invariant: the petitions in `done` are summed, those in `rest` are still to come. */
  ghost predicate SummingState(store: PetitionStore, topics: TopicStore, done: set<PetitionId>, rest: set<PetitionId>,
                               sums: map<string, int>)
  {
    && done + rest == store.Keys && done !! rest
    && TopicSumsAfter(store, topics, done, sums)
    && (NonNegativeCounts(store, done) ==> Sum(sums) <= Sum(CountsOf(store, done)))
  }

  /** One step of the topic-sum loop. */
  method AddTopicSignatures(store: PetitionStore, topics: TopicStore, ghost done: set<PetitionId>,
                            sums: map<string, int>, petitionId: PetitionId)
    returns (sums': map<string, int>)
    requires petitionId in store && petitionId !in done
    requires TopicSumsAfter(store, topics, done, sums)
    requires NonNegativeCounts(store, done) ==> Sum(sums) <= Sum(CountsOf(store, done))
    ensures TopicSumsAfter(store, topics, done + {petitionId}, sums')
    ensures NonNegativeCounts(store, done + {petitionId}) ==> Sum(sums') <= Sum(CountsOf(store, done + {petitionId}))
  {
    var petition := store[petitionId];
    var topic := if petitionId in topics then topics[petitionId] else "";
    var signatures := petition.signatureCount;
    sums' := sums;
    if topic != "" {
      var rawCount := if topic in sums then sums[topic] else 0;
      if signatures.Some? {
        rawCount := rawCount + signatures.value;
      }
      assert rawCount == Get(sums, topic) + NumericCount(store[petitionId]);
      sums' := sums[topic := rawCount];
      TopicEntryOpen(store, topics, done, sums, sums', petitionId);
      TopicBoundStep(store, done, sums, sums', topic, petitionId);
    } else {
      TopicSumsSkip(store, topics, done, sums, petitionId);
    }
  }

  /** A petition without a topic leaves every entry as it is. */
  lemma TopicSumsSkip(store: PetitionStore, topics: TopicStore, done: set<PetitionId>, sums: map<string, int>, id: PetitionId)
    requires id in store && id !in done
    requires !(id in topics && topics[id] != "")
    requires TopicSumsAfter(store, topics, done, sums)
    requires NonNegativeCounts(store, done) ==> Sum(sums) <= Sum(CountsOf(store, done))
    ensures TopicSumsAfter(store, topics, done + {id}, sums)
    ensures NonNegativeCounts(store, done + {id}) ==> Sum(sums) <= Sum(CountsOf(store, done + {id}))
  {
    CountsOfStep(store, done, id);
    TopicCountsStep(store, topics, done, id);
    NonNegativeShrinks(store, done, id);
    assert forall t :: HasTopic(topics, done + {id}, t) ==> HasTopic(topics, done, t);
  }

  /** Adding a petition's numeric count to one entry keeps the sums within the total. */
  lemma TopicBoundStep(store: PetitionStore, done: set<PetitionId>, sums: map<string, int>, sums': map<string, int>, topic: string, id: PetitionId)
    requires id in store && id !in done
    requires NonNegativeCounts(store, done) ==> Sum(sums) <= Sum(CountsOf(store, done))
    requires sums' == sums[topic := Get(sums, topic) + NumericCount(store[id])]
    ensures NonNegativeCounts(store, done + {id}) ==> Sum(sums') <= Sum(CountsOf(store, done + {id}))
  {
    CountsOfStep(store, done, id);
    SumAdd(sums, topic, NumericCount(store[id]));
    NonNegativeShrinks(store, done, id);
  }

  lemma NonNegativeShrinks(store: PetitionStore, done: set<PetitionId>, id: PetitionId)
    requires id in store
    ensures NonNegativeCounts(store, done + {id}) ==> NonNegativeCounts(store, done) && NumericCount(store[id]) >= 0
  {
  }

  lemma SumAdd<K>(m: map<K, int>, k: K, c: int)
    ensures Sum(m[k := Get(m, k) + c]) == Sum(m) + c
  {
    SumUpdate(m, k, Get(m, k) + c);
  }

  /** A petition with a topic adds its numeric count to that topic's entry, opened at 0. */
  lemma TopicEntryOpen(store: PetitionStore, topics: TopicStore, done: set<PetitionId>, sums: map<string, int>, sums': map<string, int>, id: PetitionId)
    requires id in store && id !in done && id in topics && topics[id] != ""
    requires TopicSumsAfter(store, topics, done, sums)
    requires sums' == sums[topics[id] := Get(sums, topics[id]) + NumericCount(store[id])]
    ensures TopicSumsAfter(store, topics, done + {id}, sums')
  {
    var topic := topics[id];
    TopicCountsStep(store, topics, done, id);
    if topic !in sums {
      assert TopicCounts(store, topics, done, topic) == map[];
    }
    assert sums'[topic] == Sum(TopicCounts(store, topics, done + {id}, topic));
    forall t
      ensures t in sums' <==> HasTopic(topics, done + {id}, t)
    {
      if t == topic {
        assert id in done + {id} && topics[id] == t;
      } else if HasTopic(topics, done + {id}, t) {
        var i :| i in done + {id} && i in topics && topics[i] == t;
        assert i in done;
      }
    }
  }

  lemma TopicCountsStep(store: PetitionStore, topics: TopicStore, done: set<PetitionId>, id: PetitionId)
    requires id in store && id !in done
    ensures id in topics ==>
      && TopicCounts(store, topics, done + {id}, topics[id]) == TopicCounts(store, topics, done, topics[id])[id := NumericCount(store[id])]
      && Sum(TopicCounts(store, topics, done + {id}, topics[id])) == Sum(TopicCounts(store, topics, done, topics[id])) + NumericCount(store[id])
    ensures forall t :: !(id in topics && topics[id] == t) ==> TopicCounts(store, topics, done + {id}, t) == TopicCounts(store, topics, done, t)
  {
    if id in topics {
      var t := topics[id];
      assert TopicCounts(store, topics, done + {id}, t) == TopicCounts(store, topics, done, t)[id := NumericCount(store[id])];
      SumUpdate(TopicCounts(store, topics, done, t), id, NumericCount(store[id]));
    }
  }

  /** What `calculatePercentageOfSignaturesByTopic` gives for `rawPetitionsData` and `topicsData`. */
  ghost predicate SignatureStats(rawPetitionsData: Option<PetitionStore>, topicsData: TopicStore, stats: map<string, TopicStat>)
  {
    && (rawPetitionsData.None? ==> stats == map[])
    && (rawPetitionsData.Some? ==>
          var store := rawPetitionsData.value;
          && TopicSumsAfter(store, topicsData, store.Keys, RawCounts(stats))
          && (forall t :: t in stats ==> stats[t].percentage == Share(stats[t].rawCount, Sum(CountsOf(store, store.Keys))))
          && (NonNegativeCounts(store, store.Keys) ==> Sum(RawCounts(stats)) <= Sum(CountsOf(store, store.Keys))))
  }

  /**
   * `calculatePercentageOfSignaturesByTopic`: without `rawPetitionsData` the
   * result is empty; otherwise one entry per non-empty topic of a petition in
   * the store, its raw count the sum of the numeric counts of that topic's
   * petitions and its percentage that sum's share of all numeric counts.
   */
  method SignaturePercentages(rawPetitionsData: Option<PetitionStore>, topicsData: TopicStore)
    returns (stats: map<string, TopicStat>)
    ensures SignatureStats(rawPetitionsData, topicsData, stats)
  {
    if rawPetitionsData.None? {
      return map[];
    }
    var store := rawPetitionsData.value;
    var totalSignatures := TotalSignatures(store);
    var sums := TopicSignatureSums(store, topicsData);
    stats := PercentageStats(sums, totalSignatures);
    assert forall t :: t in stats ==> stats[t].rawCount == RawCounts(stats)[t];
  }

  /** A topic whose petitions all lack a numeric count still has an entry, with raw count 0. */
  lemma UncountedTopic(store: PetitionStore, topics: TopicStore, t: string)
    requires HasTopic(topics, store.Keys, t)
    requires forall id :: id in store && id in topics && topics[id] == t ==> store[id].signatureCount.None?
    ensures Sum(TopicCounts(store, topics, store.Keys, t)) == 0
  {
    SumZero(TopicCounts(store, topics, store.Keys, t));
  }

  // ---------------------------------------------------------------------------
  // Topic groups (topicGroups, groupTopicData)
  // ---------------------------------------------------------------------------

  const BrexitTopics: seq<string> := ["brexit", "the eu"]
  const CoronavirusTopics: seq<string> := ["coronavirus"]
  const EconomyTopics: seq<string> := ["business", "economy", "transport", "work and incomes"]
  const HomeAffairsTopics: seq<string> := ["communities", "crime", "culture", "culture, media and sport",
    "family and civil law", "immigration", "justice", "security"]
  const ParliamentTopics: seq<string> := ["devolution", "elections", "government", "local government", "parliament"]
  const ScienceTopics: seq<string> := ["climate change", "energy", "environment", "sciences", "technology"]
  const SocialPolicyTopics: seq<string> := ["education", "families and social services", "health",
    "housing and planning", "welfare and pensions"]
  const OtherTopics: seq<string> := ["africa", "americas", "asia", "europe", "middle east", "defence",
    "institutions", "other"]

  /** `topicGroups`: the fixed grouping of topics the grouped chart shows, group name to member topics. */
  const TopicGroups: map<string, seq<string>> := map[
    "Brexit and the EU" := BrexitTopics,
    "Coronavirus" := CoronavirusTopics,
    "Economy, business and transport" := EconomyTopics,
    "Home affairs" := HomeAffairsTopics,
    "Parliament and elections" := ParliamentTopics,
    "Science, climate and technology" := ScienceTopics,
    "Social policy" := SocialPolicyTopics,
    "Other" := OtherTopics
  ]

  predicate Distinct(s: seq<string>)
  {
    forall i, j :: 0 <= i < j < |s| ==> s[i] != s[j]
  }

  /** There are eight groups. */
  lemma TopicGroupsCount()
    ensures |TopicGroups| == 8
  {
  }

  /** No group lists a topic twice. */
  lemma TopicGroupsDistinct()
    ensures forall g :: g in TopicGroups ==> Distinct(TopicGroups[g])
  {
    assert Distinct(BrexitTopics) && Distinct(CoronavirusTopics) && Distinct(EconomyTopics);
    assert Distinct(HomeAffairsTopics) && Distinct(ParliamentTopics) && Distinct(ScienceTopics);
    assert Distinct(SocialPolicyTopics) && Distinct(OtherTopics);
  }

  /** One entry of the grouped data: summed percentage, summed raw number, and the member entries found. */
  datatype GroupStat = GroupStat(percentage: real, rawCount: int, topics: map<string, TopicStat>)

  /** The entries of `data` for the member topics that have one. */
  function PresentMembers(data: map<string, TopicStat>, members: seq<string>): (r: map<string, TopicStat>)
    ensures forall t :: t in r <==> t in members && t in data
    ensures forall t :: t in r ==> r[t] == data[t]
  {
    map t | t in members && t in data :: data[t]
  }

  function RawOf(data: map<string, TopicStat>, t: string): int
  {
    if t in data then data[t].rawCount else 0
  }

  function PercentageOf(data: map<string, TopicStat>, t: string): real
  {
    if t in data then data[t].percentage else 0.0
  }

  /** The raw numbers of the members, added in list order, absent members adding nothing. */
  function MemberRawSum(data: map<string, TopicStat>, members: seq<string>): int
  {
    if members == [] then 0
    else MemberRawSum(data, members[..|members| - 1]) + RawOf(data, members[|members| - 1])
  }

  function MemberPercentSum(data: map<string, TopicStat>, members: seq<string>): real
  {
    if members == [] then 0.0
    else MemberPercentSum(data, members[..|members| - 1]) + PercentageOf(data, members[|members| - 1])
  }

  /** What `groupTopicData` gives a group with the member list `members`. */
  function GroupSummary(data: map<string, TopicStat>, members: seq<string>): GroupStat
  {
    GroupStat(MemberPercentSum(data, members), MemberRawSum(data, members), PresentMembers(data, members))
  }

  lemma PresentMembersSnoc(data: map<string, TopicStat>, members: seq<string>, t: string)
    ensures PresentMembers(data, members + [t]) ==
      if t in data then PresentMembers(data, members)[t := data[t]] else PresentMembers(data, members)
  {
    var r := PresentMembers(data, members + [t]);
    var q := if t in data then PresentMembers(data, members)[t := data[t]] else PresentMembers(data, members);
    assert forall u :: u in members + [t] <==> u in members || u == t;
    assert r.Keys == q.Keys;
  }

  /** The inner loop of `groupTopicData` for one group: every member with an entry adds to the group. */
  method GroupEntry(data: map<string, TopicStat>, members: seq<string>) returns (g: GroupStat)
    ensures g == GroupSummary(data, members)
  {
    g := GroupStat(0.0, 0, map[]);
    for i := 0 to |members|
      invariant g == GroupSummary(data, members[..i])
    {
      var topic := members[i];
      assert members[..i + 1] == members[..i] + [topic];
      PresentMembersSnoc(data, members[..i], topic);
      if topic in data {
        g := GroupStat(g.percentage + data[topic].percentage, g.rawCount + data[topic].rawCount,
                       g.topics[topic := data[topic]]);
      }
    }
    assert members[..|members|] == members;
  }

  /** `groupTopicData`: exactly one entry per group, including groups none of whose topics has data. */
  method GroupTopicData(data: map<string, TopicStat>, groups: map<string, seq<string>>)
    returns (groupedData: map<string, GroupStat>)
    ensures groupedData.Keys == groups.Keys
    ensures forall g :: g in groupedData ==> groupedData[g] == GroupSummary(data, groups[g])
  {
    groupedData := map[];
    var rest := groups.Keys;
    while rest != {}
      invariant rest <= groups.Keys && groupedData.Keys == groups.Keys - rest
      invariant forall g :: g in groupedData ==> groupedData[g] == GroupSummary(data, groups[g])
      decreases |rest|
    {
      var groupName :| groupName in rest;
      var entry := GroupEntry(data, groups[groupName]);
      groupedData := groupedData[groupName := entry];
      rest := rest - {groupName};
    }
  }

  /**
   * A group's raw number is the sum of the raw numbers of its member topics
   * present in the data, and its topic map holds exactly those members.
   */
  lemma {:induction false} GroupRawSum(data: map<string, TopicStat>, members: seq<string>)
    requires Distinct(members)
    ensures MemberRawSum(data, members) == Sum(RawCounts(PresentMembers(data, members)))
    decreases |members|
  {
    if members == [] {
      assert RawCounts(PresentMembers(data, members)) == map[];
    } else {
      var pre, t := members[..|members| - 1], members[|members| - 1];
      assert members == pre + [t];
      GroupRawSum(data, pre);
      GroupRawSumStep(data, pre, t);
    }
  }

  lemma GroupRawSumStep(data: map<string, TopicStat>, pre: seq<string>, t: string)
    requires t !in pre
    ensures Sum(RawCounts(PresentMembers(data, pre + [t]))) == Sum(RawCounts(PresentMembers(data, pre))) + RawOf(data, t)
  {
    PresentMembersSnoc(data, pre, t);
    var before := RawCounts(PresentMembers(data, pre));
    if t in data {
      assert RawCounts(PresentMembers(data, pre + [t])) == before[t := data[t].rawCount];
      SumUpdate(before, t, data[t].rawCount);
    }
  }

  /** With non-negative raw numbers, a group never reports less than any of its present members. */
  lemma {:induction false} GroupCoversMember(data: map<string, TopicStat>, members: seq<string>, t: string)
    requires forall u :: u in data ==> data[u].rawCount >= 0
    requires t in members && t in data
    ensures MemberRawSum(data, members) >= data[t].rawCount
    decreases |members|
  {
    var pre, last := members[..|members| - 1], members[|members| - 1];
    assert members == pre + [last];
    MemberRawSumNonNegative(data, pre);
    if t != last {
      GroupCoversMember(data, pre, t);
    }
  }

  lemma {:induction false} MemberRawSumNonNegative(data: map<string, TopicStat>, members: seq<string>)
    requires forall u :: u in data ==> data[u].rawCount >= 0
    ensures MemberRawSum(data, members) >= 0
    decreases |members|
  {
    if members != [] {
      MemberRawSumNonNegative(data, members[..|members| - 1]);
    }
  }

  // ---------------------------------------------------------------------------
  // The petitions behind a clicked bar (updateTopicDetailsSection)
  // ---------------------------------------------------------------------------

  /** What was clicked: a group of the grouped chart or a topic of the individual chart. */
  datatype Selection = GroupSelection(name: string) | TopicSelection(name: string)

  /** `topicsData[petitionId]`, absent as `None`. */
  function TopicOf(topics: TopicStore, id: PetitionId): (r: Option<string>)
    ensures r.Some? <==> id in topics
  {
    if id in topics then Some(topics[id]) else None
  }

  /** Whether a petition with topic `topic` belongs to the selection. */
  predicate Selects(sel: Selection, topic: Option<string>)
  {
    match sel
    case GroupSelection(name) => name in TopicGroups && topic.Some? && topic.value in TopicGroups[name]
    case TopicSelection(name) => topic == Some(name)
  }

  /** The petitions of the store that the selection picks. */
  ghost function SelectedIds(store: PetitionStore, topics: TopicStore, sel: Selection): set<PetitionId>
  {
    set id | id in store && Selects(sel, TopicOf(topics, id))
  }

  /**
   * The selection loop: every petition of the store whose topic is in the
   * clicked group, or equals the clicked topic, is pushed once, in the order
   * the store is walked (`ids` records which key each came from).
   */
  method SelectPetitions(store: PetitionStore, topics: TopicStore, sel: Selection)
    returns (relevantPetitions: seq<Petition>, ghost ids: seq<PetitionId>)
    ensures |ids| == |relevantPetitions|
    ensures forall i :: 0 <= i < |ids| ==> ids[i] in store && relevantPetitions[i] == store[ids[i]]
    ensures forall i, j :: 0 <= i < j < |ids| ==> ids[i] != ids[j]
    ensures forall id :: id in ids <==> id in SelectedIds(store, topics, sel)
    ensures |relevantPetitions| == |SelectedIds(store, topics, sel)|
    ensures forall id :: id in SelectedIds(store, topics, sel) ==> store[id] in relevantPetitions
  {
    relevantPetitions, ids := [], [];
    var rest := store.Keys;
    while rest != {}
      invariant rest <= store.Keys
      invariant |ids| == |relevantPetitions|
      invariant forall i :: 0 <= i < |ids| ==> ids[i] in store && ids[i] !in rest && relevantPetitions[i] == store[ids[i]]
      invariant forall i, j :: 0 <= i < j < |ids| ==> ids[i] != ids[j]
      invariant forall id :: id in ids <==> id in SelectedIds(store, topics, sel) && id !in rest
      decreases |rest|
    {
      var petitionId :| petitionId in rest;
      var petition := store[petitionId];
      var petitionTopic := TopicOf(topics, petitionId);
      if Selects(sel, petitionTopic) {
        relevantPetitions := relevantPetitions + [petition];
        ids := ids + [petitionId];
      }
      rest := rest - {petitionId};
    }
    DistinctCard(ids);
    assert (set id | id in ids) == SelectedIds(store, topics, sel);
  }

  /** `totalSignaturesInSelection`: the `reduce` adding each `signature_count`, a missing one as 0. */
  function SelectionSignatures(petitions: seq<Petition>): int
  {
    if petitions == [] then 0
    else SelectionSignatures(petitions[..|petitions| - 1]) + NumericCount(petitions[|petitions| - 1])
  }

  /**
   * Whatever order the selection comes in, its signature total is the sum of
   * the numeric counts of the selected petitions.
   */
  lemma {:induction false} SelectionSignaturesSum(store: PetitionStore, petitions: seq<Petition>, ids: seq<PetitionId>)
    requires |ids| == |petitions|
    requires forall i :: 0 <= i < |ids| ==> ids[i] in store && petitions[i] == store[ids[i]]
    requires forall i, j :: 0 <= i < j < |ids| ==> ids[i] != ids[j]
    ensures SelectionSignatures(petitions) == Sum(CountsOf(store, set id | id in ids))
    decreases |ids|
  {
    if ids == [] {
      assert CountsOf(store, set id | id in ids) == map[];
    } else {
      var n := |ids| - 1;
      SelectionSignaturesSum(store, petitions[..n], ids[..n]);
      var before := set id | id in ids[..n];
      assert (set id | id in ids) == before + {ids[n]};
      assert ids[n] !in before;
      CountsOfStep(store, before, ids[n]);
    }
  }

  /**
   * Clicking a topic selects exactly the petitions that make up that topic's
   * entries in the two percentage maps: the same number of petitions (when the
   * store and the topic map have the same ids) and the same signature total.
   */
  lemma TopicSelectionAgrees(store: PetitionStore, topics: TopicStore, t: string)
    ensures SelectedIds(store, topics, TopicSelection(t)) == WithTopic(topics, store.Keys, t)
    ensures CountsOf(store, SelectedIds(store, topics, TopicSelection(t))) == TopicCounts(store, topics, store.Keys, t)
  {
  }

  /** The signatures of one petition's breakdown that name constituency `c`. */
  function BreakdownSum(breakdown: seq<ConstituencySignatures>, c: string): int
  {
    if breakdown == [] then 0
    else
      var last := breakdown[|breakdown| - 1];
      BreakdownSum(breakdown[..|breakdown| - 1], c) + EntryFor(last, c)
  }

  /** The signatures one breakdown entry gives constituency `c`. */
  function EntryFor(entry: ConstituencySignatures, c: string): int
  {
    if entry.name == c then entry.signatureCount else 0
  }

  /** All the signatures of one petition's breakdown. */
  function BreakdownTotal(breakdown: seq<ConstituencySignatures>): int
  {
    if breakdown == [] then 0
    else BreakdownTotal(breakdown[..|breakdown| - 1]) + breakdown[|breakdown| - 1].signatureCount
  }

  predicate Names(breakdown: seq<ConstituencySignatures>, c: string)
  {
    exists k :: 0 <= k < |breakdown| && breakdown[k].name == c
  }

  /** The signatures for constituency `c` over the petitions that have a breakdown. */
  function ConstituencyTotal(petitions: seq<Petition>, c: string): int
  {
    if petitions == [] then 0
    else
      var p := petitions[|petitions| - 1];
      ConstituencyTotal(petitions[..|petitions| - 1], c) + (if p.byConstituency.Some? then BreakdownSum(p.byConstituency.value, c) else 0)
  }

  /** The signatures over all constituencies of the petitions that have a breakdown. */
  function ListedTotal(petitions: seq<Petition>): int
  {
    if petitions == [] then 0
    else
      var p := petitions[|petitions| - 1];
      ListedTotal(petitions[..|petitions| - 1]) + (if p.byConstituency.Some? then BreakdownTotal(p.byConstituency.value) else 0)
  }

  /** Whether some petition with a breakdown lists constituency `c`. */
  predicate Listed(petitions: seq<Petition>, c: string)
  {
    exists i :: 0 <= i < |petitions| && petitions[i].byConstituency.Some? && Names(petitions[i].byConstituency.value, c)
  }

  /** The ids of the petitions without a breakdown, in selection order. */
  function Empties(petitions: seq<Petition>): (r: seq<PetitionId>)
    ensures |r| <= |petitions|
  {
    if petitions == [] then []
    else
      var p := petitions[|petitions| - 1];
      Empties(petitions[..|petitions| - 1]) + (if p.byConstituency.None? then [p.id] else [])
  }

  /**
   * The inner loop of the per-constituency sums: each entry of the breakdown
   * adds its count to its constituency, opening it with that count.
   */
  method AddBreakdown(sums: map<string, int>, breakdown: seq<ConstituencySignatures>) returns (sums': map<string, int>)
    ensures forall c :: c in sums' <==> c in sums || Names(breakdown, c)
    ensures forall c :: Get(sums', c) == Get(sums, c) + BreakdownSum(breakdown, c)
    ensures Sum(sums') == Sum(sums) + BreakdownTotal(breakdown)
  {
    sums' := sums;
    for k := 0 to |breakdown|
      invariant forall c :: c in sums' <==> c in sums || Names(breakdown[..k], c)
      invariant forall c :: Get(sums', c) == Get(sums, c) + BreakdownSum(breakdown[..k], c)
      invariant Sum(sums') == Sum(sums) + BreakdownTotal(breakdown[..k])
    {
      NamesStep(breakdown, k);
      sums' := AddEntry(sums', breakdown[k]);
    }
    assert breakdown[..|breakdown|] == breakdown;
  }

  /** One entry of a breakdown: `sums[name] += count`, or `sums[name] = count` for a new name. */
  method AddEntry(sums: map<string, int>, entry: ConstituencySignatures) returns (sums': map<string, int>)
    ensures forall c :: c in sums' <==> c in sums || c == entry.name
    ensures forall c :: Get(sums', c) == Get(sums, c) + EntryFor(entry, c)
    ensures Sum(sums') == Sum(sums) + entry.signatureCount
  {
    var constituencyName := entry.name;
    var signatures := entry.signatureCount;
    SumAdd(sums, constituencyName, signatures);
    if constituencyName in sums {
      sums' := sums[constituencyName := sums[constituencyName] + signatures];
    } else {
      sums' := sums[constituencyName := signatures];
    }
  }

  lemma NamesStep(breakdown: seq<ConstituencySignatures>, k: nat)
    requires k < |breakdown|
    ensures forall c :: Names(breakdown[..k + 1], c) <==> Names(breakdown[..k], c) || c == breakdown[k].name
    ensures forall c :: BreakdownSum(breakdown[..k + 1], c) == BreakdownSum(breakdown[..k], c) + EntryFor(breakdown[k], c)
    ensures BreakdownTotal(breakdown[..k + 1]) == BreakdownTotal(breakdown[..k]) + breakdown[k].signatureCount
  {
    assert breakdown[..k + 1][..k] == breakdown[..k];
    forall c | Names(breakdown[..k + 1], c) && c != breakdown[k].name
      ensures Names(breakdown[..k], c)
    {
      var j :| 0 <= j < k + 1 && breakdown[..k + 1][j].name == c;
      assert breakdown[..k][j] == breakdown[j];
    }
    forall c | Names(breakdown[..k], c)
      ensures Names(breakdown[..k + 1], c)
    {
      var j :| 0 <= j < k && breakdown[..k][j].name == c;
      assert breakdown[..k + 1][j] == breakdown[..k][j];
    }
    assert breakdown[..k + 1][k].name == breakdown[k].name;
    assert Names(breakdown[..k + 1], breakdown[k].name);
  }

  /**
   * The per-constituency sums of the selection: for every constituency, the
   * signatures over the selected petitions that have a breakdown; the ids of
   * the others are collected in `empties`.
   */
  method SignaturesByConstituency(relevantPetitions: seq<Petition>)
    returns (sums: map<string, int>, empties: seq<PetitionId>)
    ensures empties == Empties(relevantPetitions)
    ensures forall c :: c in sums <==> Listed(relevantPetitions, c)
    ensures forall c :: Get(sums, c) == ConstituencyTotal(relevantPetitions, c)
    ensures Sum(sums) == ListedTotal(relevantPetitions)
  {
    sums, empties := map[], [];
    for i := 0 to |relevantPetitions|
      invariant empties == Empties(relevantPetitions[..i])
      invariant forall c :: c in sums <==> Listed(relevantPetitions[..i], c)
      invariant forall c :: Get(sums, c) == ConstituencyTotal(relevantPetitions[..i], c)
      invariant Sum(sums) == ListedTotal(relevantPetitions[..i])
    {
      var petition := relevantPetitions[i];
      var signaturesInThisPetition := petition.byConstituency;
      assert relevantPetitions[..i + 1][..i] == relevantPetitions[..i];
      ListedStep(relevantPetitions, i);
      if signaturesInThisPetition.None? {
        empties := empties + [petition.id];
      } else {
        sums := AddBreakdown(sums, signaturesInThisPetition.value);
      }
    }
    assert relevantPetitions[..|relevantPetitions|] == relevantPetitions;
  }

  lemma ListedStep(ps: seq<Petition>, i: nat)
    requires i < |ps|
    ensures forall c :: Listed(ps[..i + 1], c) <==>
      Listed(ps[..i], c) || (ps[i].byConstituency.Some? && Names(ps[i].byConstituency.value, c))
  {
    assert ps[..i + 1] == ps[..i] + [ps[i]];
    forall c | Listed(ps[..i + 1], c)
      ensures Listed(ps[..i], c) || (ps[i].byConstituency.Some? && Names(ps[i].byConstituency.value, c))
    {
      var j :| 0 <= j < i + 1 && ps[..i + 1][j].byConstituency.Some? && Names(ps[..i + 1][j].byConstituency.value, c);
      if j < i {
        assert ps[..i][j] == ps[j];
      }
    }
    forall c | Listed(ps[..i], c)
      ensures Listed(ps[..i + 1], c)
    {
      var j :| 0 <= j < i && ps[..i][j].byConstituency.Some? && Names(ps[..i][j].byConstituency.value, c);
      assert ps[..i + 1][j] == ps[..i][j];
    }
    if ps[i].byConstituency.Some? {
      assert ps[..i + 1][i] == ps[i];
    }
  }

  // ---------------------------------------------------------------------------
  // Colour buckets
  // ---------------------------------------------------------------------------

  /** `colourScale`: nine shades from light to dark. */
  const ColourScale: seq<string> :=
    ["#fff7ec", "#fee8c8", "#fdd49e", "#fdbb84", "#fc8d59", "#ef6548", "#d7301f", "#b30000", "#7f0000"]

  /**
   * The bucket of `count` when the values range over `[lo, hi]`: the range is
   * cut into nine steps, the index is the whole number of steps above `lo`,
   * and the top of the range is pulled back into the last bucket.
   */
  function ColourIndex(count: int, lo: int, hi: int): (index: int)
    requires lo < hi
    ensures lo <= count <= hi ==> 0 <= index < |ColourScale|
    ensures count == lo ==> index == 0
    ensures count == hi ==> index == |ColourScale| - 1
  {
    var stepSize := (hi - lo) as real / |ColourScale| as real;
    var steps := (count - lo) as real / stepSize;
    assert steps * stepSize == (count - lo) as real;
    assert count == hi ==> steps == |ColourScale| as real;
    var index := steps.Floor;
    if index >= |ColourScale| then |ColourScale| - 1 else index
  }

  /** More signatures never give a lighter bucket. */
  lemma ColourIndexMonotone(a: int, b: int, lo: int, hi: int)
    requires lo < hi && a <= b
    ensures ColourIndex(a, lo, hi) <= ColourIndex(b, lo, hi)
  {
    var stepSize := (hi - lo) as real / |ColourScale| as real;
    assert stepSize > 0.0;
    assert (a - lo) as real / stepSize <= (b - lo) as real / stepSize;
  }

  /** The least and the greatest value of a non-empty map (`Math.min`/`Math.max` over its values). */
  method ValueRange(sums: map<string, int>) returns (minSignatures: int, maxSignatures: int)
    requires sums != map[]
    ensures minSignatures in sums.Values && maxSignatures in sums.Values
    ensures forall c :: c in sums ==> minSignatures <= sums[c] <= maxSignatures
  {
    var first :| first in sums;
    minSignatures, maxSignatures := sums[first], sums[first];
    var rest := sums.Keys - {first};
    while rest != {}
      invariant rest <= sums.Keys
      invariant minSignatures in sums.Values && maxSignatures in sums.Values
      invariant forall c :: c in sums && c !in rest ==> minSignatures <= sums[c] <= maxSignatures
      decreases |rest|
    {
      var c :| c in rest;
      if sums[c] < minSignatures {
        minSignatures := sums[c];
      }
      if sums[c] > maxSignatures {
        maxSignatures := sums[c];
      }
      rest := rest - {c};
    }
  }

  /** The bucket `ConstituencyColours` gives a count: none when the range is a single value. */
  function Bucket(count: int, lo: int, hi: int): Option<int>
  {
    if lo < hi then Some(ColourIndex(count, lo, hi)) else None
  }

  lemma BucketOrder(sums: map<string, int>, lo: int, hi: int, colours: map<string, Option<int>>)
    requires forall c :: c in sums ==> lo <= sums[c] <= hi
    requires colours.Keys == sums.Keys
    requires forall c :: c in colours ==> colours[c] == Bucket(sums[c], lo, hi)
    ensures forall c :: c in colours && colours[c].Some? ==> 0 <= colours[c].value < |ColourScale|
    ensures forall c, d :: c in sums && d in sums && sums[c] <= sums[d] && colours[c].Some? && colours[d].Some? ==>
      colours[c].value <= colours[d].value
  {
    forall c, d | c in sums && d in sums && sums[c] <= sums[d] && lo < hi
      ensures ColourIndex(sums[c], lo, hi) <= ColourIndex(sums[d], lo, hi)
    {
      ColourIndexMonotone(sums[c], sums[d], lo, hi);
    }
  }

  lemma BucketEnds(sums: map<string, int>, lo: int, hi: int, colours: map<string, Option<int>>)
    requires lo in sums.Values && hi in sums.Values
    requires forall c :: c in sums ==> lo <= sums[c] <= hi
    requires colours.Keys == sums.Keys
    requires forall c :: c in colours ==> colours[c] == Bucket(sums[c], lo, hi)
    ensures forall c, d :: c in sums && d in sums && sums[c] != sums[d] ==> colours[c].Some?
    ensures forall c :: c in sums && (forall d :: d in sums ==> sums[c] <= sums[d]) && colours[c].Some? ==> colours[c] == Some(0)
    ensures forall c :: c in sums && (forall d :: d in sums ==> sums[d] <= sums[c]) && colours[c].Some? ==> colours[c] == Some(|ColourScale| - 1)
  {
    forall c | c in sums && (forall d :: d in sums ==> sums[c] <= sums[d])
      ensures sums[c] == lo
    {
      var d :| d in sums && sums[d] == lo;
    }
    forall c | c in sums && (forall d :: d in sums ==> sums[d] <= sums[c])
      ensures sums[c] == hi
    {
      var d :| d in sums && sums[d] == hi;
    }
  }

  /**
   * The bucket of every constituency. When all sums are equal the step size is
   * 0 and the index is not a number, so no constituency gets a bucket (`None`)
   * and the map draws them in its default colour.
   */
  method ConstituencyColours(sums: map<string, int>) returns (colours: map<string, Option<int>>)
    ensures ColoursFollow(sums, colours)
  {
    colours := map[];
    if sums == map[] {
      return;
    }
    var minSignatures, maxSignatures := ValueRange(sums);
    var rest := sums.Keys;
    while rest != {}
      invariant rest <= sums.Keys && colours.Keys == sums.Keys - rest
      invariant forall c :: c in colours ==>
        colours[c] == Bucket(sums[c], minSignatures, maxSignatures)
      decreases |rest|
    {
      var constituency :| constituency in rest;
      var count := sums[constituency];
      if minSignatures < maxSignatures {
        colours := colours[constituency := Some(ColourIndex(count, minSignatures, maxSignatures))];
      } else {
        colours := colours[constituency := None];
      }
      rest := rest - {constituency};
    }
    BucketOrder(sums, minSignatures, maxSignatures, colours);
    BucketEnds(sums, minSignatures, maxSignatures, colours);
    assert BucketedBy(sums, colours, minSignatures, maxSignatures);
  }

  /**
   * `colours` gives every constituency of `sums` an entry in the scale: all of
   * them a bucket as soon as two sums differ, the smallest sum the first
   * colour, the largest the last, and larger sums never a lighter one; and
   * each colour is exactly the bucket of its sum between those two.
   */
  ghost predicate ColoursFollow(sums: map<string, int>, colours: map<string, Option<int>>)
  {
    && colours.Keys == sums.Keys
    && (forall c :: c in colours && colours[c].Some? ==> 0 <= colours[c].value < |ColourScale|)
    && (forall c, d :: c in sums && d in sums && sums[c] != sums[d] ==> colours[c].Some?)
    && (forall c :: c in sums && (forall d :: d in sums ==> sums[c] <= sums[d]) && colours[c].Some? ==> colours[c] == Some(0))
    && (forall c :: c in sums && (forall d :: d in sums ==> sums[d] <= sums[c]) && colours[c].Some? ==> colours[c] == Some(|ColourScale| - 1))
    && (forall c, d :: c in sums && d in sums && sums[c] <= sums[d] && colours[c].Some? && colours[d].Some? ==>
          colours[c].value <= colours[d].value)
    && (sums != map[] ==> exists lo, hi :: BucketedBy(sums, colours, lo, hi))
  }

  /** `lo` and `hi` are the smallest and largest sums, and every constituency's colour is its `Bucket` between them. */
  ghost predicate BucketedBy(sums: map<string, int>, colours: map<string, Option<int>>, lo: int, hi: int)
  {
    && lo in sums.Values && hi in sums.Values
    && (forall c :: c in sums ==> lo <= sums[c] <= hi)
    && (forall c :: c in sums ==> c in colours && colours[c] == Bucket(sums[c], lo, hi))
  }

  /** What the details section shows for a selection. */
  datatype Details = Details(
    petitions: seq<Petition>,
    totalPetitionsInSelection: int,
    totalSignaturesInSelection: int,
    byConstituency: map<string, int>,
    empties: seq<PetitionId>,
    colours: map<string, Option<int>>)

  lemma {:induction false} DistinctCard(ids: seq<PetitionId>)
    requires forall i, j :: 0 <= i < j < |ids| ==> ids[i] != ids[j]
    ensures |set id | id in ids| == |ids|
    decreases |ids|
  {
    if ids != [] {
      var n := |ids| - 1;
      DistinctCard(ids[..n]);
      var before := set id | id in ids[..n];
      assert (set id | id in ids) == before + {ids[n]};
      assert ids[n] !in before;
    }
  }

  /**
   * `updateTopicDetailsSection` without its drawing: the selected petitions
   * (none when `rawPetitionsData` is missing, as `for...in` over it walks
   * nothing), how many there are, their signature total, the
   * per-constituency sums with the petitions lacking a breakdown, and each
   * constituency's colour bucket.
   */
  method TopicDetails(rawPetitionsData: Option<PetitionStore>, topicsData: TopicStore, sel: Selection) returns (d: Details)
    ensures var store := if rawPetitionsData.Some? then rawPetitionsData.value else map[];
      && d.totalPetitionsInSelection == |d.petitions| == |SelectedIds(store, topicsData, sel)|
      && d.totalSignaturesInSelection == Sum(CountsOf(store, SelectedIds(store, topicsData, sel)))
      && (forall p :: p in d.petitions ==> exists id :: id in SelectedIds(store, topicsData, sel) && store[id] == p)
      && (forall id :: id in SelectedIds(store, topicsData, sel) ==> store[id] in d.petitions)
    ensures forall c :: c in d.byConstituency <==> Listed(d.petitions, c)
    ensures forall c :: Get(d.byConstituency, c) == ConstituencyTotal(d.petitions, c)
    ensures d.empties == Empties(d.petitions)
    ensures ColoursFollow(d.byConstituency, d.colours)
  {
    var store := if rawPetitionsData.Some? then rawPetitionsData.value else map[];
    var relevantPetitions, ids := SelectPetitions(store, topicsData, sel);
    var totalPetitionsInSelection := |relevantPetitions|;
    var totalSignaturesInSelection := SelectionSignatures(relevantPetitions);
    SelectionSignaturesSum(store, relevantPetitions, ids);
    DistinctCard(ids);
    assert (set id | id in ids) == SelectedIds(store, topicsData, sel);
    forall p | p in relevantPetitions
      ensures exists id :: id in SelectedIds(store, topicsData, sel) && store[id] == p
    {
      var i :| 0 <= i < |relevantPetitions| && relevantPetitions[i] == p;
      assert ids[i] in ids;
    }
    var signaturesInThisTopicByConstituency, empties := SignaturesByConstituency(relevantPetitions);
    var constituencyColours := ConstituencyColours(signaturesInThisTopicByConstituency);
    d := Details(relevantPetitions, totalPetitionsInSelection, totalSignaturesInSelection,
                 signaturesInThisTopicByConstituency, empties, constituencyColours);
  }

  // ---------------------------------------------------------------------------
  // The individual-topics chart (filterAndRenderIndividualChart)
  // ---------------------------------------------------------------------------

  /** A group name the chart can be restricted to: truthy and one of `topicGroups`. */
  predicate NamesGroup(groupName: Option<string>)
  {
    groupName.Some? && groupName.value != "" && groupName.value in TopicGroups
  }

  /** The data the individual chart shows under the group filter `groupName`. */
  function Restricted(data: map<string, TopicStat>, groupName: Option<string>): map<string, TopicStat>
  {
    if NamesGroup(groupName) then PresentMembers(data, TopicGroups[groupName.value]) else data
  }

  /**
   * The restriction of `filterAndRenderIndividualChart`: for a group, exactly
   * the group's topics that have data, with their data; for no group (or an
   * unknown one) all the data.
   */
  method RestrictToGroup(dataToUse: map<string, TopicStat>, groupName: Option<string>)
    returns (filteredData: map<string, TopicStat>)
    ensures NamesGroup(groupName) ==>
      && (forall t :: t in filteredData <==> t in TopicGroups[groupName.value] && t in dataToUse)
      && (forall t :: t in filteredData ==> filteredData[t] == dataToUse[t])
    ensures !NamesGroup(groupName) ==> filteredData == dataToUse
    ensures filteredData == Restricted(dataToUse, groupName)
  {
    filteredData := map[];
    if NamesGroup(groupName) {
      var topicsInGroup := TopicGroups[groupName.value];
      for i := 0 to |topicsInGroup|
        invariant filteredData == PresentMembers(dataToUse, topicsInGroup[..i])
      {
        var topic := topicsInGroup[i];
        assert topicsInGroup[..i + 1] == topicsInGroup[..i] + [topic];
        PresentMembersSnoc(dataToUse, topicsInGroup[..i], topic);
        if topic in dataToUse {
          filteredData := filteredData[topic := dataToUse[topic]];
        }
      }
      assert topicsInGroup[..|topicsInGroup|] == topicsInGroup;
    } else {
      filteredData := dataToUse;
    }
  }

  /** The grouped chart shows every group's summary of `data`; the individual chart shows `data` under the filter. */
  ghost predicate ChartsShow(grouped: map<string, GroupStat>, individual: map<string, TopicStat>,
                             data: map<string, TopicStat>, groupName: Option<string>)
  {
    grouped == GroupedChart(data) && individual == Restricted(data, groupName)
  }

  /** What the grouped chart holds: one summary of `data` per group. */
  ghost function GroupedChart(data: map<string, TopicStat>): map<string, GroupStat>
  {
    map g | g in TopicGroups :: GroupSummary(data, TopicGroups[g])
  }

  /** Changing the group filter keeps the grouped chart and re-restricts the individual one. */
  lemma Refiltered(grouped: map<string, GroupStat>, individual: map<string, TopicStat>,
                   data: map<string, TopicStat>, groupName: Option<string>, individual': map<string, TopicStat>, groupName': Option<string>)
    requires ChartsShow(grouped, individual, data, groupName)
    requires individual' == Restricted(data, groupName')
    ensures ChartsShow(grouped, individual', data, groupName')
  {
  }

  /** `createGroupedChart` followed by `filterAndRenderIndividualChart`, on one data set. */
  method RenderCharts(data: map<string, TopicStat>, groupName: Option<string>)
    returns (grouped: map<string, GroupStat>, individual: map<string, TopicStat>)
    ensures ChartsShow(grouped, individual, data, groupName)
  {
    grouped := GroupTopicData(data, TopicGroups);
    individual := RestrictToGroup(data, groupName);
  }

  /** Under a group filter, the individual chart shows exactly the topics the grouped chart holds for that group. */
  lemma FilteredChartMatchesGroup(grouped: map<string, GroupStat>, individual: map<string, TopicStat>,
                                  data: map<string, TopicStat>, groupName: Option<string>)
    requires ChartsShow(grouped, individual, data, groupName) && NamesGroup(groupName)
    ensures individual == grouped[groupName.value].topics
  {
  }

  /** The two data sets the charts can show (`currentChartType`). */
  datatype ChartType = PetitionPercentagesChart | SignaturePercentagesChart

  /** The topic page's globals: the processed data, the chart type, the group filter and what the two charts show. */
  class TopicView {
    var petitionPercentages: map<string, TopicStat>
    var signaturePercentages: map<string, TopicStat>
    var currentChartType: ChartType
    var currentIndividualChartFilter: Option<string>
    var groupedChart: map<string, GroupStat>
    var individualChart: map<string, TopicStat>

    function DataFor(chartType: ChartType): map<string, TopicStat>
      reads this`petitionPercentages, this`signaturePercentages
    {
      match chartType
      case PetitionPercentagesChart => petitionPercentages
      case SignaturePercentagesChart => signaturePercentages
    }

    /** Both charts show the data of the current chart type, the individual one under the current group filter. */
    ghost predicate Valid()
      reads this
    {
      ChartsShow(groupedChart, individualChart, DataFor(currentChartType), currentIndividualChartFilter)
    }

    /**
     * `initializeTopicView` once the topics have been fetched: both percentage
     * maps, the grouped chart of petition percentages and the individual chart
     * of all topics.
     */
    constructor (topicsData: TopicStore, rawPetitionsData: Option<PetitionStore>)
      ensures Valid()
      ensures currentChartType == PetitionPercentagesChart && currentIndividualChartFilter == None
      ensures individualChart == petitionPercentages
      ensures PetitionStats(topicsData, petitionPercentages)
      ensures SignatureStats(rawPetitionsData, topicsData, signaturePercentages)
    {
      var petitions := PetitionPercentages(topicsData);
      var signatures := SignaturePercentages(rawPetitionsData, topicsData);
      var grouped, individual := RenderCharts(petitions, None);
      petitionPercentages, signaturePercentages := petitions, signatures;
      currentChartType := PetitionPercentagesChart;
      currentIndividualChartFilter := None;
      groupedChart, individualChart := grouped, individual;
      new;
      assert DataFor(currentChartType) == petitions;
    }

    /** `filterAndRenderIndividualChart`: remember the group filter and restrict the individual chart to it. */
    method FilterIndividualChart(groupName: Option<string>)
      requires Valid()
      modifies this`currentIndividualChartFilter, this`individualChart
      ensures Valid()
      ensures currentIndividualChartFilter == groupName
      ensures individualChart == Restricted(DataFor(currentChartType), groupName)
    {
      var data := DataFor(currentChartType);
      var individual := RestrictToGroup(data, groupName);
      Refiltered(groupedChart, individualChart, data, currentIndividualChartFilter, individual, groupName);
      currentIndividualChartFilter := groupName;
      individualChart := individual;
      assert DataFor(currentChartType) == data;
    }

    /** `resetIndividualChart`: the individual chart shows every topic again. */
    method ResetIndividualChart()
      requires Valid()
      modifies this`currentIndividualChartFilter, this`individualChart
      ensures Valid()
      ensures currentIndividualChartFilter == None
      ensures individualChart == DataFor(currentChartType)
    {
      FilterIndividualChart(None);
    }

    /** The data-type toggle: both charts switch data, the group filter stays. */
    method ChangeChartType(chartType: ChartType)
      requires Valid()
      modifies this`currentChartType, this`groupedChart, this`individualChart
      ensures Valid()
      ensures currentChartType == chartType
      ensures currentIndividualChartFilter == old(currentIndividualChartFilter)
    {
      var data := DataFor(chartType);
      var grouped, individual := RenderCharts(data, currentIndividualChartFilter);
      currentChartType := chartType;
      groupedChart, individualChart := grouped, individual;
      assert DataFor(currentChartType) == data;
    }

    /**
     * `initializeTopicView` on a later activation of the view, as written: the
     * grouped chart is redrawn from the petition percentages whatever the chart
     * type, the individual chart from the current chart type's data, unfiltered.
     */
    method ReactivateAsWritten()
      modifies this`currentIndividualChartFilter, this`groupedChart, this`individualChart
      ensures currentIndividualChartFilter == None
      ensures groupedChart == GroupedChart(petitionPercentages)
      ensures individualChart == DataFor(currentChartType)
      ensures currentChartType == PetitionPercentagesChart ==> Valid()
    {
      var grouped, _ := RenderCharts(petitionPercentages, None);
      var individual := RestrictToGroup(DataFor(currentChartType), None);
      currentIndividualChartFilter := None;
      groupedChart, individualChart := grouped, individual;
    }

    /**
     * A later activation as evidently intended: both charts are redrawn from
     * the current chart type's data, so the view is consistent again.
     */
    method Reactivate()
      modifies this`currentIndividualChartFilter, this`groupedChart, this`individualChart
      ensures Valid()
      ensures currentIndividualChartFilter == None
      ensures groupedChart == GroupedChart(DataFor(currentChartType))
      ensures individualChart == DataFor(currentChartType)
    {
      var data := DataFor(currentChartType);
      var grouped, individual := RenderCharts(data, None);
      currentIndividualChartFilter := None;
      groupedChart, individualChart := grouped, individual;
      assert DataFor(currentChartType) == data;
    }
  }

  /**
   * After switching to signature percentages and re-activating the view, the
   * charts disagree: with one "brexit" petition of five signatures the grouped
   * chart counts 1 for its group while the individual chart shows 5, so the
   * state `ReactivateAsWritten` leaves is not one `ChartsShow` allows.
   */
  lemma ReactivationMismatch()
    ensures var petitions := map["brexit" := TopicStat(100.0, 1)];
            var signatures := map["brexit" := TopicStat(100.0, 5)];
            !ChartsShow(GroupedChart(petitions), signatures, signatures, None)
  {
    var petitions := map["brexit" := TopicStat(100.0, 1)];
    var signatures := map["brexit" := TopicStat(100.0, 5)];
    var g := "Brexit and the EU";
    assert g in TopicGroups && TopicGroups[g] == BrexitTopics;
    assert BrexitTopics[..1] == ["brexit"] && BrexitTopics[..1][..0] == [];
    assert MemberRawSum(petitions, BrexitTopics) == 1;
    assert MemberRawSum(signatures, BrexitTopics) == 5;
    assert GroupedChart(petitions)[g].rawCount != GroupedChart(signatures)[g].rawCount;
  }
}
