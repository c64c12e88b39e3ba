/** The query builder of `round`: one `repo:` term per resolved repository,
    the `filename:` terms, and one quoted code term, joined by spaces. */
module Query {
  import opened Wrappers
  import opened Text
  import Json
  import Replace

  /** A repository as the `/repositories/:id` lookup returns it (the fields
      the round reads). */
  datatype Repo = Repo(id: int, name: string, fullName: string)

  /** One term of the search query. */
  datatype Term = RepoTerm(fullName: string) | FileTerm(fileName: string) | CodeTerm(token: string)

  /** The query syntax of a term: `repo:"…"`, `filename:"…"` or `"…"`, the
      value quoted by `JSON.stringify`. */
  function Render(t: Term): string
  {
    match t
    case RepoTerm(n) => "repo:" + Json.Quote(n)
    case FileTerm(n) => "filename:" + Json.Quote(n)
    case CodeTerm(c) => Json.Quote(c)
  }

  function RenderAll(ts: seq<Term>): (r: seq<string>)
    ensures |r| == |ts| && forall i :: 0 <= i < |ts| ==> r[i] == Render(ts[i])
  {
    seq(|ts|, i requires 0 <= i < |ts| => Render(ts[i]))
  }

  /** The file names searched for: none when the displayed name is missing
      or empty; the name itself when it lacks `redacted` (case-sensitive);
      otherwise one per repository, with the first `redacted` replaced by that
      repository's name (spelled out for names free of `$`, which GitHub
      repository names always are). */
  function FileNames(fileName: Option<string>, repos: seq<Repo>): (fs: seq<string>)
    ensures fileName.None? || fileName == Some("") ==> fs == []
    ensures fileName.Some? && |fileName.value| > 0 && !Contains(fileName.value, RedactionMarker) ==>
              fs == [fileName.value]
    ensures fileName.Some? && Contains(fileName.value, RedactionMarker) ==>
              var f := fileName.value;
              var p := FindFirst(f, RedactionMarker).value;
              && |fs| == |repos|
              && forall i :: 0 <= i < |repos| && '$' !in repos[i].name ==>
                   fs[i] == f[..p] + repos[i].name + f[p + |RedactionMarker|..]
  {
    match fileName
    case None => []
    case Some(f) =>
      if |f| == 0 then []
      else if Contains(f, RedactionMarker) then
        seq(|repos|, i requires 0 <= i < |repos| => Replace.ReplaceFirst(f, RedactionMarker, repos[i].name))
      else [f]
  }

  /** The terms of the query, in order. */
  function Terms(repos: seq<Repo>, fileName: Option<string>, token: string): seq<Term>
  {
    TermsOf(repos, FileNames(fileName, repos), token)
  }

  /** The repository terms, the file-name terms `fs` and the code term. */
  function TermsOf(repos: seq<Repo>, fs: seq<string>, token: string): seq<Term>
  {
    seq(|repos|, i requires 0 <= i < |repos| => RepoTerm(repos[i].fullName))
    + seq(|fs|, i requires 0 <= i < |fs| => FileTerm(fs[i]))
    + [CodeTerm(token)]
  }

  /** `[...repoTerms, ...fileNameTerms, codeTerm].join(" ")`. The query
      determines its terms: whatever the repository names, file name and
      token contain, reading it back gives exactly the repository terms, the
      file-name terms and the code term, in that order. */
  function Compose(repos: seq<Repo>, fileName: Option<string>, token: string): (q: string)
    ensures ParseTerms(q) == Some(Terms(repos, fileName, token))
  {
    var ts := Terms(repos, fileName, token);
    TermsShape(repos, fileName, token);
    ParseJoined(ts);
    Join(RenderAll(ts), " ")
  }

  /** The term list has one repository term per repository, in order, then the
      file-name terms, then exactly one code term, last. */
  lemma TermsShape(repos: seq<Repo>, fileName: Option<string>, token: string)
    ensures var ts, fs := Terms(repos, fileName, token), FileNames(fileName, repos);
            && |ts| == |repos| + |fs| + 1
            && (forall i :: 0 <= i < |repos| ==> ts[i] == RepoTerm(repos[i].fullName))
            && (forall i :: 0 <= i < |fs| ==> ts[|repos| + i] == FileTerm(fs[i]))
            && ts[|ts| - 1] == CodeTerm(token)
            && (forall i :: 0 <= i < |ts| - 1 ==> !ts[i].CodeTerm?)
  {
    TermsOfShape(repos, FileNames(fileName, repos), token);
  }

  /** `TermsShape` for any list of file names. */
  lemma TermsOfShape(repos: seq<Repo>, fs: seq<string>, token: string)
    ensures var ts := TermsOf(repos, fs, token);
            && |ts| == |repos| + |fs| + 1
            && (forall i :: 0 <= i < |repos| ==> ts[i] == RepoTerm(repos[i].fullName))
            && (forall i :: 0 <= i < |fs| ==> ts[|repos| + i] == FileTerm(fs[i]))
            && ts[|ts| - 1] == CodeTerm(token)
            && (forall i :: 0 <= i < |ts| - 1 ==> !ts[i].CodeTerm?)
  {
    var rt := seq(|repos|, i requires 0 <= i < |repos| => RepoTerm(repos[i].fullName));
    var ft := seq(|fs|, i requires 0 <= i < |fs| => FileTerm(fs[i]));
    var ts := TermsOf(repos, fs, token);
    assert ts == rt + ft + [CodeTerm(token)];
    assert forall i :: 0 <= i < |repos| ==> ts[i] == rt[i];
    assert forall i :: 0 <= i < |fs| ==> ts[|repos| + i] == ft[i];
  }

  /** Reads one term from the front of `s`; returns it and the rest. */
  function ParseTerm(s: string): (r: Option<(Term, string)>)
    ensures r.Some? ==> |r.value.1| < |s|
  {
    if |s| >= 5 && s[..5] == "repo:" then
      match Json.ReadQuoted(s[5..])
      case Some((v, rest)) => Some((RepoTerm(v), rest))
      case None => None
    else if |s| >= 9 && s[..9] == "filename:" then
      match Json.ReadQuoted(s[9..])
      case Some((v, rest)) => Some((FileTerm(v), rest))
      case None => None
    else
      match Json.ReadQuoted(s)
      case Some((v, rest)) => Some((CodeTerm(v), rest))
      case None => None
  }

  /** Reads a space-separated list of terms covering all of `s`. */
  function ParseTerms(s: string): Option<seq<Term>>
    decreases |s|
  {
    match ParseTerm(s)
    case None => None
    case Some((t, rest)) =>
      if |rest| == 0 then Some([t])
      else if rest[0] != ' ' then None
      else
        match ParseTerms(rest[1..])
        case None => None
        case Some(ts) => Some([t] + ts)
  }

  /** Splitting a keyword off the front of a term. */
  lemma SplitKeyword(k: string, x: string, rest: string)
    ensures |k + x + rest| >= |k|
    ensures (k + x + rest)[..|k|] == k && (k + x + rest)[|k|..] == x + rest
  {
    assert k + x + rest == k + (x + rest);
  }

  lemma ParseRenderedRepo(n: string, rest: string)
    ensures ParseTerm(Render(RepoTerm(n)) + rest) == Some((RepoTerm(n), rest))
  {
    Json.QuoteRead(n, rest);
    SplitKeyword("repo:", Json.Quote(n), rest);
  }

  lemma ParseRenderedFile(n: string, rest: string)
    ensures ParseTerm(Render(FileTerm(n)) + rest) == Some((FileTerm(n), rest))
  {
    var s := Render(FileTerm(n)) + rest;
    Json.QuoteRead(n, rest);
    SplitKeyword("filename:", Json.Quote(n), rest);
    assert s[..9][0] == 'f';
    assert s[..5][0] != "repo:"[0];
  }

  lemma ParseRenderedCode(c: string, rest: string)
    ensures ParseTerm(Render(CodeTerm(c)) + rest) == Some((CodeTerm(c), rest))
  {
    var s := Json.Quote(c) + rest;
    Json.QuoteRead(c, rest);
    assert s[0] == '"';
    assert !(|s| >= 5 && s[..5] == "repo:") && !(|s| >= 9 && s[..9] == "filename:");
  }

  /** A rendered term is read back whatever follows it. */
  lemma ParseRendered(t: Term, rest: string)
    ensures ParseTerm(Render(t) + rest) == Some((t, rest))
  {
    match t
    case RepoTerm(n) => ParseRenderedRepo(n, rest);
    case FileTerm(n) => ParseRenderedFile(n, rest);
    case CodeTerm(c) => ParseRenderedCode(c, rest);
  }

  /** A term followed by a space and a readable list reads as one more term. */
  lemma ParseTermsCons(s: string, t: Term, rest: string, ts: seq<Term>)
    requires ParseTerm(s) == Some((t, rest))
    requires |rest| > 0 && rest[0] == ' ' && ParseTerms(rest[1..]) == Some(ts)
    ensures ParseTerms(s) == Some([t] + ts)
  {
  }

  /** Joining two or more strings puts the separator after the first. */
  lemma JoinCons(xs: seq<string>, sep: string)
    requires |xs| >= 2
    ensures Join(xs, sep) == xs[0] + (sep + Join(xs[1..], sep))
  {
  }

  /** Rendering and joining loses nothing: the term list can be read back. */
  lemma {:induction false} ParseJoined(ts: seq<Term>)
    requires |ts| > 0
    ensures ParseTerms(Join(RenderAll(ts), " ")) == Some(ts)
    decreases |ts|
  {
    var rs := RenderAll(ts);
    if |ts| == 1 {
      assert Join(rs, " ") == Render(ts[0]) + [];
      ParseRendered(ts[0], []);
      assert ParseTerms(Render(ts[0]) + []) == Some([ts[0]]);
      assert [ts[0]] == ts;
    } else {
      var tail := Join(rs[1..], " ");
      JoinCons(rs, " ");
      ParseRendered(ts[0], " " + tail);
      assert (" " + tail)[1..] == tail;
      assert rs[1..] == RenderAll(ts[1..]);
      ParseJoined(ts[1..]);
      ParseTermsCons(Join(rs, " "), ts[0], " " + tail, ts[1..]);
      assert [ts[0]] + ts[1..] == ts;
    }
  }

  /** Code tokens are made of word characters, and repository full names of
      word characters, `.` and one `/`, so their quoted terms hold them
      verbatim. */
  lemma QuoteWord(s: string)
    requires forall i :: 0 <= i < |s| ==> IsWordChar(s[i]) || s[i] == '.' || s[i] == '/'
    ensures Json.Quote(s) == "\"" + s + "\""
  {
  }
}
