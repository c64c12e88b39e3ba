# stripcode-bot round resolution, modelled in Dafny

stripcode-bot plays the StripCode guessing game. Each round the page shows a
code snippet with some parts redacted, the name of its file, which may also be
redacted, and a list of candidate GitHub repositories. The bot has to click
the repository the snippet came from. This project models the part of
`src/main.ts` that turns what the page shows into that click:

- **Stats parser** (`Stats`). Each stats element's text is lower-cased and
  searched for `your total points`, `your rank` or `active users`, then `: `,
  an optional `#`, and digits. Each match records label ↦ digits, and later
  elements overwrite earlier ones. The regular expression's semantics are
  spelled out: the leftmost position wins, then the first alternative that
  matches there, the optional `#` can backtrack, and the digit run is greedy.
- **Snippet reducer** (`Snippet`). The code block is cut into the global
  matches of `[0-9A-Za-z_-]{1,128}`. Matches containing `redacted` in any
  case are dropped. The first longest of the rest is kept and trimmed. When
  nothing is left, the source's `reduce` throws; here that is a `None`.
- **Query builder** (`Query`, `Json`, `Replace`). The query has:
  - a `repo:"…"` term for every resolved repository;
  - `filename:"…"` terms: the file name itself, or one per repository with
    its first `redacted` replaced by the repository's name;
  - the quoted code token.

  The terms are joined by spaces. Quoting follows `JSON.stringify` on
  strings. Replacement follows `String.prototype.replace`, including its `$`
  patterns.
- **Score aggregator and arg-max** (`Scores`). A JavaScript `Map` is seeded
  with 0 for every candidate. Each hit then adds its score to its
  repository's entry. Keys keep insertion order. The final `reduce` keeps the
  first entry with the highest score. An empty table makes `reduce` throw;
  here that is a `None`.
- **A round** (`Round`). `extract`, then repository lookup, query, search,
  aggregation and choice. The repository lookup and the code search are
  function parameters.

Generic pieces live in `Seqs`:
- filter;
- the first-maximum fold;
- first-occurrence order, the order of a `Map`'s keys;
- the leftmost-match scan.

Character classes, ASCII lower-casing, substring search and joining live in
`Text`.

Hits for repositories that are not candidates are kept: `src/main.ts:168-173`
adds them to the table as new keys, after the candidates, so such a
repository can be the one chosen. `Scores.Aggregate`
and `Scores.Choose` state it that way.

## Model

| member | source | states |
|---|---|---|
| Stats.MatchTail | src/main.ts:93 | `: #?([0-9]+)` matches at the front exactly when `: ` is followed by a digit, or by `#` and a digit. The capture is the maximal non-empty digit run right after `: ` or `: #`. |
| Stats.MatchAtNone | src/main.ts:93 | The pattern fails at a position exactly when no label, followed by the rest of the pattern, matches there. |
| Stats.MatchAt | src/main.ts:93 | A match at a position is one of the label alternatives matching in full there, with the digits that follow it as its capture. |
| Stats.TryAlternatives | src/main.ts:93 | The alternation picks a label from those tried, and that label matches in full with its captured digits. |
| Stats.FirstMatch | src/main.ts:91-93 | `match` without `g` returns the match at the leftmost position that has one. It returns nothing only when no position matches. |
| Stats.Matches | src/main.ts:90-94 | One match per element, in page order; each match holds a non-empty digit string. |
| Stats.Record | src/main.ts:94-96 | Recording a match adds exactly its label to the key set and stores its digits under that label; every other label keeps its value, and the record stays well formed. |
| Stats.FoldKeys | src/main.ts:88-99 | A label is in the folded record exactly when some element's match is for that label. |
| Stats.FoldLastWriter | src/main.ts:90-97 | A label's recorded value comes from the last match for that label; no later match is for it. |
| Stats.Parse | src/main.ts:88-99 | Every value of the stats object is a non-empty digit string. Its keys and values are given by `Stats.ParseKeys` and `Stats.ParseLastWriter`. |
| Stats.ParseKeys | src/main.ts:88-99 | The stats object has a label iff some element's lower-cased text matched it. |
| Stats.ParseLastWriter | src/main.ts:88-99 | A recorded label's value is the digits of the last element that matched that label. |
| Stats.TryAlternativesNone | src/main.ts:93 | The alternation fails exactly when every alternative fails. |
| Snippet.RunLength | src/main.ts:110 | The greedy `{0,limit}` run: within the limit, all word characters, and stopped only by the limit, the end of the text or a non-word character. |
| Snippet.Tokens | src/main.ts:110 | Every global match has 1 to 128 characters from `[0-9A-Za-z_-]`. Where they sit in the text is stated by `Snippet.TokensScan`. |
| Snippet.TokensScan | src/main.ts:110 | The global matches are the successive matches of the search: each occurs in the text at a position. The search resumes where the previous match ended and skips only non-word characters. Each match is the greedy run of at most 128 word characters there, and no word character follows the last match. |
| Snippet.ChunkBoundary | src/main.ts:110 | A match starts at the start of the text, after a non-word character, or where a full 128-character match ended. So a long run is cut into 128-character chunks, and only its last chunk is shorter. |
| Snippet.TokensCover | src/main.ts:110 | The global matches, end to end, are exactly the text's word characters, in order: nothing skipped, nothing repeated. |
| Snippet.CodeMatches | src/main.ts:110 | Missing text gives no matches; a text gives exactly its global matches (`Tokens`, whose positions `TokensScan` pins), so a text with no match gives none. Every match is a token. |
| Snippet.Survivors | src/main.ts:111 | A match survives the filter iff its lower-case form does not contain `redacted`. |
| Snippet.Trim | src/main.ts:113 | `trim` returns a contiguous piece of the string with only white space and line terminators removed before and after it. The result neither starts nor ends with one. |
| Snippet.TrimStart | src/main.ts:113 | The leading part of `trim`: a suffix of the string, everything before it trimmable, and not starting with a trimmable character. |
| Snippet.TrimEnd | src/main.ts:113 | The trailing part of `trim`: a prefix of the string, everything after it trimmable, and not ending with a trimmable character. |
| Snippet.TrimToken | src/main.ts:113 | `trim` leaves a match unchanged: a token has no white space or line terminator. |
| Snippet.ChosenIsFirstLongest | src/main.ts:110-113 | The reduced element is a surviving match at least as long as every surviving match. It is strictly longer than every surviving match before it, and trimming does not change it. |
| Snippet.Reduce | src/main.ts:110-113 | `longest` exists iff some match survives (otherwise `reduce` throws). It is a surviving match, at least as long as every survivor, and the first of that length in match order. |
| Snippet.ReduceOccurs | src/main.ts:110-113 | The chosen token occurs in the code text. |
| Seqs.Filter | src/main.ts:111 | An element is in the filtered list iff it is in the input and kept. The result is no longer than the input. |
| Seqs.FirstMax | src/main.ts:112 | `reduce((a, b) => w(b) > w(a) ? b : a)` ends on a maximum of `w` that is strictly above everything before it. |
| Seqs.FirstMaxFrom | src/main.ts:112 | Continuing the fold from any accumulator that is a first maximum of the prefix yields a first maximum of the whole list. |
| Seqs.FirstMaxUnique | src/main.ts:112 | Being a maximum strictly above everything before it determines the fold's result. |
| Seqs.FirstMaxOfFilter | src/main.ts:111-112 | Reducing the filtered list picks a kept element of maximal weight, strictly heavier than every kept element before it in the unfiltered list. |
| Seqs.FirstSome | src/main.ts:93 | The leftmost-match scan returns the result at the first position that has one, and nothing only when no position has one. |
| Seqs.AppendNewOrder | src/main.ts:164-173 | Setting keys in a `Map` one after another keeps them distinct and ordered by first occurrence in the sequence of sets. |
| Text.Lower | src/main.ts:92 | `toLowerCase` lower-cases exactly `A`-`Z` and keeps every other character and the length. |
| Text.FindFirst | src/main.ts:152-153 | `indexOf`: the position of the first occurrence, with no occurrence before it; none when the pattern does not occur. |
| Json.EscapeChar | src/main.ts:148 | `JSON.stringify` escapes exactly the quotation mark, the reverse solidus and the control characters; every other character is copied. |
| Json.ReadEscaped | src/main.ts:158 | A quoted string's escaped body followed by the closing quote reads back as the string, leaving exactly the input after the quote. |
| Json.EscapePlain | src/main.ts:148-158 | A string with no quotation mark, reverse solidus or control character is its own escaped body. |
| Json.Quote | src/main.ts:148-158 | `JSON.stringify` on a string gives a literal enclosed in quotation marks, and reading it back gives the string. A string that needs no escape appears verbatim between the quotation marks. |
| Json.QuoteInjective | src/main.ts:148-158 | Distinct strings give distinct quoted terms. |
| Replace.SubstitutionPlain | src/main.ts:153 | A replacement without `$` is inserted verbatim; the `$` patterns apply only when `$` is present. |
| Replace.ReplaceFirst | src/main.ts:153 | `replace` with a string pattern leaves a string without the pattern unchanged. Otherwise the text before and after the leftmost occurrence is kept for any replacement, and a replacement without `$` goes in verbatim. |
| Replace.ReplaceFirstMatched | src/main.ts:153 | A `$&` replacement puts the matched text back, so the string is unchanged. |
| Replace.ReplaceFirstDollar | src/main.ts:153 | `$$` replaces the leftmost occurrence with a single `$`. |
| Replace.ReplaceFirstBefore | src/main.ts:153 | `` $` `` replaces the leftmost occurrence with the text before it. |
| Replace.ReplaceFirstAfter | src/main.ts:153 | `$'` replaces the leftmost occurrence with the text after it. |
| Query.FileNames | src/main.ts:151-156 | No file-name terms for a missing or empty name. One term with the name itself when it lacks `redacted`. Otherwise one per repository, its first `redacted` replaced by that repository's name. |
| Query.TermsShape | src/main.ts:147-161 | The query's terms, in order: one `repo:` term per repository, then the file-name terms, then exactly one code term, last. |
| Query.RenderAll | src/main.ts:147-158 | Each term is rendered in place, in order. |
| Query.ParseRendered | src/main.ts:147-158 | A rendered term reads back as itself whatever follows it. |
| Query.ParseJoined | src/main.ts:161 | The space-joined rendering of any non-empty term list reads back as that list. |
| Query.Compose | src/main.ts:147-161 | The query string determines its terms: reading it back gives exactly the repository, file-name and code terms, whatever characters the names and token contain. |
| Query.QuoteWord | src/main.ts:148-158 | A code token or a repository full name (word characters, `.` and `/`) reaches the query verbatim between quotation marks. |
| Scores.Set | src/main.ts:166-172 | `Map.set` puts a new key last and leaves an existing key in place. Only that entry's value changes. |
| Scores.Seed | src/main.ts:164-167 | Seeding adds every candidate with score 0 in first-occurrence order and leaves other entries alone. |
| Scores.AddHits | src/main.ts:168-173 | After the hits, every repository's score is its earlier score plus the sum of its hits' scores. New ids are added in first-occurrence order. |
| Scores.Aggregate | src/main.ts:164-173 | The table's keys are the candidates and the hit repositories, in first-occurrence order of candidates then hits. Each score is the sum of that repository's hit scores, so a candidate without hits scores 0. |
| Scores.HitSumAbsent | src/main.ts:164-173 | A repository that no hit belongs to sums to 0. |
| Scores.Best | src/main.ts:175-179 | The arg-max fails only on an empty table. Otherwise it is a key with the highest score, strictly above every key before it. |
| Scores.BestBeatsEarlier | src/main.ts:164-179 | With keys in first-occurrence order, every id first seen before the chosen one scores strictly less. |
| Scores.Choose | src/main.ts:164-179 | The chosen repository is a candidate or hit repository whose total hit score is highest. Every id first seen earlier scores strictly less. There is no choice only without candidates and hits. |
| Round.Extract | src/main.ts:110-121 | `extract` fails only when every code match is redacted. Otherwise it hands on the parsed stats, the ids and file name unchanged, and the first longest surviving code match as `longest`. |
| Round.Resolve | src/main.ts:136-145 | One repository per candidate id, in the ids' order. |
| Round.DecideOn | src/main.ts:160-179 | Given the search hits for the query, the decision fails only without candidates and hits. Otherwise it carries the query and a first repository with the highest summed score. |
| Round.Decide | src/main.ts:136-179 | A round that reached the query sends the composed query once. It picks the first repository, among candidates and hit repositories, with the highest summed hit score, and fails only when both are empty. |
| Round.Play | src/main.ts:110-179 | The round fails with `NoCodeToken` exactly when every code match is redacted. Otherwise, with the first longest surviving match as token, it sends the composed query and fails with `NoScores` exactly when there are neither candidates nor hits. Else it picks the first id with the highest summed hit score among candidates and hit repositories. |

## Left out

- Browser start-up, login, cookies and page navigation (`src/main.ts:1-77`): I/O with no logic to model.
- Waiting for selectors and reading the DOM (`src/main.ts:80-87`, `100-104`): the element texts and attributes are inputs instead.
- The points value (`src/main.ts:105-107`, `parseInt`): it is logged and never used to decide.
- The repository lookup and the code search: they are function parameters. A failing request, which rejects the round's promise, is not modelled.
- `Promise.all`, logging, clicking the chosen repository, delays and the endless outer loop with its error handling (`src/main.ts:129-131`, `181-215`): effects and scheduling, not logic.
- Scores are `real`: IEEE-754 rounding of the summed scores is not modelled.
- Text.Lower: only ASCII letters are lower-cased. Characters such as KELVIN SIGN, which `toLowerCase` maps to ASCII letters and which could therefore complete a label, are not modelled.
- Json.ReadChar: as the inverse of quoting it rejects `\u` escapes of surrogates. Dafny characters are Unicode scalar values, so `JSON.stringify` never produces such escapes here.
- Stats.Parse: the record's keys are the three labels as a datatype rather than their lower-case spellings (`Stats.Spelling` gives the key text). The record is otherwise the same object.
- Query.FileNames: spells out the substitution only for repository names without `$`. `Replace.ReplaceFirst` keeps the text around the occurrence for any name, and `ReplaceFirstMatched`, `ReplaceFirstDollar`, `ReplaceFirstBefore` and `ReplaceFirstAfter` state what the `$` patterns insert.
