/** One round of the game, with the page reads, the repository lookup and
    the code search as inputs: `extract`, then the query, then the score
    table and its arg-max. */
module Round {
  import opened Wrappers
  import Seqs
  import Stats
  import Snippet
  import Query
  import Scores

  /** What `extract` hands to `round` (the parsed points value is not
      modelled). */
  datatype Evidence = Evidence(
    stats: map<Stats.Label, string>,
    fileName: Option<string>,
    longest: string,
    repoIds: seq<string>)

  /** The two uncaught `TypeError`s of a round: `reduce` over no surviving
      code match, and `reduce` over an empty score table. */
  datatype RoundError = NoCodeToken | NoScores

  /** The search query the round sent and the repository id it clicks. */
  datatype Decision = Decision(query: string, best: int)

  /** `extract` from what the page shows: the stats texts, the candidate id
      attributes, the file-name heading and the code block. */
  function Extract(statTexts: seq<Option<string>>, repoIds: seq<string>,
                   fileName: Option<string>, code: Option<string>): (r: Result<Evidence, RoundError>)
    ensures r.Failure? <==> forall t :: t in Snippet.CodeMatches(code) ==> Snippet.Redacted(t)
    ensures r.Failure? ==> r.error == NoCodeToken
    ensures r.Success? ==> r.value.stats == Stats.Parse(statTexts) && r.value.repoIds == repoIds
                           && r.value.fileName == fileName
    ensures r.Success? ==> r.value.longest == Snippet.Reduce(code).value
    ensures r.Success? ==> Snippet.IsToken(r.value.longest) && !Snippet.Redacted(r.value.longest)
                           && r.value.longest in Snippet.CodeMatches(code)
  {
    match Snippet.Reduce(code)
    case None => Failure(NoCodeToken)
    case Some(longest) => Success(Evidence(Stats.Parse(statTexts), fileName, longest, repoIds))
  }

  /** `repoResponses.flatMap((resp) => resp.data)`: one repository per id, in
      the order of the ids. */
  function Resolve(repoIds: seq<string>, lookup: string -> Query.Repo): (repos: seq<Query.Repo>)
    ensures |repos| == |repoIds| && forall i :: 0 <= i < |repoIds| ==> repos[i] == lookup(repoIds[i])
  {
    seq(|repoIds|, i requires 0 <= i < |repoIds| => lookup(repoIds[i]))
  }

  function Ids(repos: seq<Query.Repo>): (ids: seq<int>)
    ensures |ids| == |repos| && forall i :: 0 <= i < |repos| ==> ids[i] == repos[i].id
  {
    seq(|repos|, i requires 0 <= i < |repos| => repos[i].id)
  }

  /** `r` is the decision on query `q` answered with `hits`, candidates
      `ids`: it fails, with `NoScores`, exactly when there are neither
      candidates nor hits; otherwise it carries `q` and an id among the
      candidates and hit repositories whose summed score is highest, every
      id met earlier in insertion order scoring strictly less. */
  ghost predicate PicksFirstHighest(q: string, ids: seq<int>, hits: seq<Scores.Hit>, r: Result<Decision, RoundError>)
  {
    var all := ids + Scores.HitIds(hits);
    && (r.Failure? <==> |ids| == 0 && |hits| == 0)
    && (r.Failure? ==> r.error == NoScores)
    && (r.Success? ==> r.value.query == q && r.value.best in all)
    && (r.Success? ==> forall k :: k in all ==>
                         Scores.HitSum(hits, k) <= Scores.HitSum(hits, r.value.best))
    && (r.Success? ==> forall k :: k in all && Seqs.FirstIndex(all, k) < Seqs.FirstIndex(all, r.value.best) ==>
                         Scores.HitSum(hits, k) < Scores.HitSum(hits, r.value.best))
  }

  /** The decision of `round`: resolve the candidates, send the composed
      query once, sum the hit scores per repository and pick the first
      highest. It fails exactly when there are no candidates and no hits;
      otherwise it reports the composed query and an id among the candidates
      and hit repositories whose summed score is highest, no id met earlier
      in insertion order scoring as much. */
  function Decide(ev: Evidence, lookup: string -> Query.Repo, search: string -> seq<Scores.Hit>)
    : (r: Result<Decision, RoundError>)
    ensures var repos := Resolve(ev.repoIds, lookup);
            var q := Query.Compose(repos, ev.fileName, ev.longest);
            PicksFirstHighest(q, Ids(repos), search(q), r)
  {
    var repos := Resolve(ev.repoIds, lookup);
    var q := Query.Compose(repos, ev.fileName, ev.longest);
    DecideOn(q, Ids(repos), search(q))
  }

  /** The decision once the query `q` has been answered with `hits`. */
  function DecideOn(q: string, ids: seq<int>, hits: seq<Scores.Hit>): (r: Result<Decision, RoundError>)
    ensures PicksFirstHighest(q, ids, hits, r)
  {
    match Scores.Choose(ids, hits)
    case None => Failure(NoScores)
    case Some(best) => Success(Decision(q, best))
  }

  /** The outcome of a round in terms of its inputs: with no surviving code
      match it fails with `NoCodeToken`; otherwise, with `t` the first
      longest surviving match, the query composed from the resolved
      repositories, the file name and `t` is sent, and the decision picks the
      first highest-scoring id for that query's hits. */
  ghost predicate PlaysOut(repoIds: seq<string>, fileName: Option<string>, code: Option<string>,
                           lookup: string -> Query.Repo, search: string -> seq<Scores.Hit>,
                           r: Result<Decision, RoundError>)
  {
    match Snippet.Reduce(code)
    case None => r == Failure(NoCodeToken)
    case Some(t) =>
      var repos := Resolve(repoIds, lookup);
      var q := Query.Compose(repos, fileName, t);
      PicksFirstHighest(q, Ids(repos), search(q), r)
  }

  /** A whole round. It fails with `NoCodeToken`, before any repository is
      looked up or any query is built, exactly when every code match is
      redacted. Otherwise, with `t` the first longest surviving code match,
      it sends the query composed from the resolved repositories, the file
      name and `t`; it fails with `NoScores` exactly when there are neither
      candidates nor hits, and else picks the first id, among the candidates
      and the hit repositories, with the highest summed score. */
  function Play(statTexts: seq<Option<string>>, repoIds: seq<string>,
                fileName: Option<string>, code: Option<string>,
                lookup: string -> Query.Repo, search: string -> seq<Scores.Hit>): (r: Result<Decision, RoundError>)
    ensures r == Failure(NoCodeToken) <==> forall t :: t in Snippet.CodeMatches(code) ==> Snippet.Redacted(t)
    ensures PlaysOut(repoIds, fileName, code, lookup, search, r)
  {
    match Extract(statTexts, repoIds, fileName, code)
    case Failure(e) => Failure(e)
    case Success(ev) => Decide(ev, lookup, search)
  }
}
