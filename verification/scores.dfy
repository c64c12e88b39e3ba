/** The score aggregator and the arg-max of `round`: a JavaScript `Map`
    from repository id to summed search score, and the entry the final
    `reduce` settles on. */
module Scores {
  import opened Wrappers
  import Seqs

  /** One search result: the id of the repository it is in and its score. */
  datatype Hit = Hit(repoId: int, score: real)

  /** A `Map<number, number>`: its keys in insertion order and its entries. */
  datatype Table = Table(keys: seq<int>, scores: map<int, real>)

  /** The keys are listed once each and are exactly the keys of the entries. */
  ghost predicate Valid(t: Table)
  {
    Seqs.Distinct(t.keys) && forall k :: k in t.scores <==> k in t.keys
  }

  /** `scores.get(id) ?? 0`. */
  function ScoreOf(t: Table, k: int): real
  {
    if k in t.scores then t.scores[k] else 0.0
  }

  /** `scores.set(k, v)`: a new key goes to the end, an existing key keeps its place. */
  function Set(t: Table, k: int, v: real): (r: Table)
    requires Valid(t)
    ensures Valid(r)
    ensures r.keys == if k in t.scores then t.keys else t.keys + [k]
    ensures r.scores == t.scores[k := v]
  {
    Table(if k in t.scores then t.keys else t.keys + [k], t.scores[k := v])
  }

  function HitIds(hits: seq<Hit>): (ids: seq<int>)
    ensures |ids| == |hits| && forall i :: 0 <= i < |hits| ==> ids[i] == hits[i].repoId
  {
    seq(|hits|, i requires 0 <= i < |hits| => hits[i].repoId)
  }

  /** The sum of the scores of the hits in repository `k`. */
  function HitSum(hits: seq<Hit>, k: int): real
  {
    if |hits| == 0 then 0.0
    else (if hits[0].repoId == k then hits[0].score else 0.0) + HitSum(hits[1..], k)
  }

  /** A repository without hits sums to 0. */
  lemma {:induction false} HitSumAbsent(hits: seq<Hit>, k: int)
    requires k !in HitIds(hits)
    ensures HitSum(hits, k) == 0.0
    decreases |hits|
  {
    if |hits| > 0 {
      assert HitIds(hits[1..]) == HitIds(hits)[1..];
      HitSumAbsent(hits[1..], k);
    }
  }

  /** The first loop of the aggregation: `scores.set(id, 0)` for each candidate. */
  function Seed(t: Table, ids: seq<int>): (r: Table)
    requires Valid(t)
    ensures Valid(r)
    ensures r.keys == Seqs.AppendNew(t.keys, ids)
    ensures forall k :: k in r.scores <==> k in t.scores || k in ids
    ensures forall k :: k in ids ==> r.scores[k] == 0.0
    ensures forall k :: k in t.scores && k !in ids ==> r.scores[k] == t.scores[k]
    decreases |ids|
  {
    if |ids| == 0 then t else Seed(Set(t, ids[0], 0.0), ids[1..])
  }

  /** The second loop: `scores.set(id, (scores.get(id) ?? 0) + score)` for each hit. */
  function AddHits(t: Table, hits: seq<Hit>): (r: Table)
    requires Valid(t)
    ensures Valid(r)
    ensures r.keys == Seqs.AppendNew(t.keys, HitIds(hits))
    ensures forall k :: k in r.scores <==> k in t.scores || k in HitIds(hits)
    ensures forall k :: ScoreOf(r, k) == ScoreOf(t, k) + HitSum(hits, k)
    decreases |hits|
  {
    if |hits| == 0 then t
    else
      var h := hits[0];
      var t' := Set(t, h.repoId, ScoreOf(t, h.repoId) + h.score);
      assert HitIds(hits) == [h.repoId] + HitIds(hits[1..]);
      AddHits(t', hits[1..])
  }

  /** The score table of a round: every candidate seeded with 0, then every
      hit added to its repository, including repositories that are not
      candidates. */
  function Aggregate(ids: seq<int>, hits: seq<Hit>): (t: Table)
    ensures Valid(t)
    ensures forall k :: k in t.scores <==> k in ids || k in HitIds(hits)
    ensures forall k :: k in t.scores ==> t.scores[k] == HitSum(hits, k)
    ensures forall k :: k in ids && k !in HitIds(hits) ==> t.scores[k] == 0.0
    ensures Seqs.FirstOccurrenceOrder(t.keys, ids + HitIds(hits))
  {
    var empty := Table([], map[]);
    var seeded := Seed(empty, ids);
    var r := AddHits(seeded, hits);
    assert Seqs.FirstOccurrenceOrder(empty.keys, []);
    Seqs.AppendNewOrder(empty.keys, [], ids);
    assert [] + ids == ids;
    Seqs.AppendNewOrder(seeded.keys, ids, HitIds(hits));
    forall k | k in r.scores
      ensures r.scores[k] == HitSum(hits, k)
    {
      assert ScoreOf(r, k) == ScoreOf(seeded, k) + HitSum(hits, k);
    }
    forall k | k in ids && k !in HitIds(hits)
      ensures r.scores[k] == 0.0
    {
      HitSumAbsent(hits, k);
    }
    r
  }

  /** The arg-max: `Array.from(scores.entries()).reduce(([bi, bs], [i, s]) =>
      s > bs ? [i, s] : [bi, bs])[0]`; `None` stands for the `TypeError` of
      `reduce` on an empty table. */
  function Best(t: Table): (r: Option<int>)
    requires Valid(t)
    ensures r.None? <==> |t.keys| == 0
    ensures r.Some? ==> r.value in t.scores
    ensures r.Some? ==> forall k :: k in t.scores ==> t.scores[k] <= t.scores[r.value]
    ensures r.Some? ==> exists i :: 0 <= i < |t.keys| && t.keys[i] == r.value
                          && forall j :: 0 <= j < i ==> t.keys[j] in t.scores && t.scores[t.keys[j]] < t.scores[r.value]
  {
    if |t.keys| == 0 then None
    else
      var w := (k: int) => ScoreOf(t, k);
      var i := Seqs.FirstMax(t.keys, w);
      assert forall j :: 0 <= j < |t.keys| ==> w(t.keys[j]) == t.scores[t.keys[j]];
      assert forall k :: k in t.scores ==> t.scores[k] <= t.scores[t.keys[i]] by {
        forall k | k in t.scores
          ensures t.scores[k] <= t.scores[t.keys[i]]
        {
          var j :| 0 <= j < |t.keys| && t.keys[j] == k;
        }
      }
      Some(t.keys[i])
  }

  /** When the keys are in first-occurrence order of `all`, an entry that
      occurs in `all` before the chosen one scores strictly less. */
  lemma BestBeatsEarlier(t: Table, all: seq<int>, b: int)
    requires Valid(t) && Seqs.FirstOccurrenceOrder(t.keys, all)
    requires Best(t) == Some(b)
    ensures b in all
    ensures forall k :: k in all && Seqs.FirstIndex(all, k) < Seqs.FirstIndex(all, b) ==>
                          k in t.scores && t.scores[k] < t.scores[b]
  {
    var i := BestIndex(t, b);
    BeatsEarlierAt(t, all, i);
  }

  /** The position of the chosen key: every key before it scores less. */
  lemma BestIndex(t: Table, b: int) returns (i: nat)
    requires Valid(t) && Best(t) == Some(b)
    ensures i < |t.keys| && t.keys[i] == b && b in t.scores
    ensures forall j :: 0 <= j < i ==> t.keys[j] in t.scores && t.scores[t.keys[j]] < t.scores[b]
  {
    i :| 0 <= i < |t.keys| && t.keys[i] == b
         && forall j :: 0 <= j < i ==> t.keys[j] in t.scores && t.scores[t.keys[j]] < t.scores[b];
  }

  /** `BestBeatsEarlier` for any key that beats every key before it. */
  lemma BeatsEarlierAt(t: Table, all: seq<int>, i: nat)
    requires Valid(t) && Seqs.FirstOccurrenceOrder(t.keys, all) && i < |t.keys|
    requires t.keys[i] in t.scores && forall j :: 0 <= j < i ==> t.keys[j] in t.scores && t.scores[t.keys[j]] < t.scores[t.keys[i]]
    ensures t.keys[i] in all
    ensures forall k :: k in all && Seqs.FirstIndex(all, k) < Seqs.FirstIndex(all, t.keys[i]) ==>
                          k in t.scores && t.scores[k] < t.scores[t.keys[i]]
  {
    assert t.keys[i] in t.keys;
    forall k | k in all && Seqs.FirstIndex(all, k) < Seqs.FirstIndex(all, t.keys[i])
      ensures k in t.scores && t.scores[k] < t.scores[t.keys[i]]
    {
      var j := Seqs.EarlierKey(t.keys, all, i, k);
    }
  }

  /** The repository `round` picks from the candidate ids and the hits: the
      id whose summed score is highest, the earliest such id in insertion
      order (candidates first, then new hit ids) winning ties. `None` when
      there are neither candidates nor hits. */
  function Choose(ids: seq<int>, hits: seq<Hit>): (r: Option<int>)
    ensures var all := ids + HitIds(hits);
            && (r.None? <==> |all| == 0)
            && (r.Some? ==> r.value in all)
            && (r.Some? ==> forall k :: k in all ==> HitSum(hits, k) <= HitSum(hits, r.value))
            && (r.Some? ==> forall k :: k in all && Seqs.FirstIndex(all, k) < Seqs.FirstIndex(all, r.value) ==>
                              HitSum(hits, k) < HitSum(hits, r.value))
  {
    var all := ids + HitIds(hits);
    var t := Aggregate(ids, hits);
    assert |all| > 0 ==> all[0] in t.keys;
    var r := Best(t);
    if r.Some? then
      ChooseBest(ids, hits, r.value);
      r
    else
      r
  }

  /** The entry `Best` picks from the aggregated table, in terms of the
      summed hit scores. */
  lemma ChooseBest(ids: seq<int>, hits: seq<Hit>, b: int)
    requires Best(Aggregate(ids, hits)) == Some(b)
    ensures var all := ids + HitIds(hits);
            && b in all
            && (forall k :: k in all ==> HitSum(hits, k) <= HitSum(hits, b))
            && (forall k :: k in all && Seqs.FirstIndex(all, k) < Seqs.FirstIndex(all, b) ==>
                  HitSum(hits, k) < HitSum(hits, b))
  {
    var all := ids + HitIds(hits);
    var t := Aggregate(ids, hits);
    BestBeatsEarlier(t, all, b);
    assert t.scores[b] == HitSum(hits, b);
    forall k | k in all
      ensures k in t.scores && t.scores[k] == HitSum(hits, k)
    {
      assert k in ids || k in HitIds(hits);
    }
  }
}
