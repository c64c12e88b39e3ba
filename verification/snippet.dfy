/** The snippet reducer: the longest word-like run of the code block that
    is not a redaction marker, used as the code term of the search. */
module Snippet {
  import opened Wrappers
  import opened Text
  import Seqs

  /** Upper bound of the quantifier in `[0-9A-Za-z_-]{1,128}`. */
  const MaxTokenLength: nat := 128

  /** A possible match of `[0-9A-Za-z_-]{1,128}`. */
  ghost predicate IsToken(t: string)
  {
    1 <= |t| <= MaxTokenLength && forall i :: 0 <= i < |t| ==> IsWordChar(t[i])
  }

  /** Length of the greedy match of `[0-9A-Za-z_-]{0,limit}` at the start of `s`. */
  function RunLength(s: string, limit: nat): (n: nat)
    ensures n <= limit && n <= |s|
    ensures forall i :: 0 <= i < n ==> IsWordChar(s[i])
    ensures n < limit && n < |s| ==> !IsWordChar(s[n])
    decreases limit
  {
    if limit == 0 || |s| == 0 || !IsWordChar(s[0]) then 0
    else 1 + RunLength(s[1..], limit - 1)
  }

  /** `s.match(/[0-9A-Za-z_-]{1,128}/g)`: scanning left to right, each match
      starts at the next word character and takes as many word characters
      as it can, at most 128; a longer run becomes consecutive chunks. */
  function Tokens(s: string): (ts: seq<string>)
    ensures forall k :: 0 <= k < |ts| ==> IsToken(ts[k])
    decreases |s|
  {
    if |s| == 0 then []
    else if !IsWordChar(s[0]) then Tokens(s[1..])
    else
      var n := RunLength(s, MaxTokenLength);
      [s[..n]] + Tokens(s[n..])
  }

  /** The matches, end to end, are exactly the word characters of the text:
      no word character is skipped or used twice, and order is kept. */
  lemma {:induction false} TokensCover(s: string)
    ensures Concat(Tokens(s)) == WordChars(s)
    decreases |s|
  {
    if |s| > 0 {
      if !IsWordChar(s[0]) {
        TokensCover(s[1..]);
      } else {
        var n := RunLength(s, MaxTokenLength);
        var rest := Tokens(s[n..]);
        assert Tokens(s) == [s[..n]] + rest;
        assert ([s[..n]] + rest)[1..] == rest;
        assert Concat(Tokens(s)) == s[..n] + Concat(rest);
        TokensCover(s[n..]);
        assert s == s[..n] + s[n..];
        WordCharsAppend(s[..n], s[n..]);
        WordCharsOfWord(s[..n]);
      }
    }
  }

  /** `xs` with `d` added to every element. */
  function Shift(xs: seq<nat>, d: nat): (r: seq<nat>)
    ensures |r| == |xs| && forall i :: 0 <= i < |xs| ==> r[i] == xs[i] + d
  {
    seq(|xs|, i requires 0 <= i < |xs| => xs[i] + d)
  }

  /** Where the global search resumes before match `k`: the end of match
      `k - 1`, or the start of the text. */
  ghost function Resume(ts: seq<string>, st: seq<nat>, k: nat): nat
    requires |st| == |ts| && k <= |ts|
  {
    if k == 0 then 0 else st[k - 1] + |ts[k - 1]|
  }

  /** No word character in `s[a..b]`. */
  ghost predicate NonWordBetween(s: string, a: nat, b: nat)
  {
    a <= b <= |s| && forall j :: a <= j < b ==> !IsWordChar(s[j])
  }

  /** Match `k` of `ts` is found at `st[k]`: the search resumed after the
      previous match, skipped only non-word characters, and took the greedy
      run of at most 128 word characters there. */
  ghost predicate Found(s: string, ts: seq<string>, st: seq<nat>, k: nat)
    requires |st| == |ts| && k < |ts|
  {
    FoundAt(s, ts[k], st[k], Resume(ts, st, k))
  }

  /** The search resumed at `from` finds the match `t` at `q`. */
  ghost predicate FoundAt(s: string, t: string, q: nat, from: nat)
  {
    && 0 < |t| && OccursAt(s, t, q)
    && |t| == RunLength(s[q..], MaxTokenLength)
    && NonWordBetween(s, from, q)
  }

  /** `ts` are the successive matches of the global search of `s`, match `k`
      found at `st[k]`, and after the last match no word character is left. */
  ghost predicate IsScan(s: string, ts: seq<string>, st: seq<nat>)
  {
    && |st| == |ts|
    && (forall k :: 0 <= k < |ts| ==> Found(s, ts, st, k))
    && NonWordBetween(s, Resume(ts, st, |ts|), |s|)
  }

  lemma NonWordShift(s: string, d: nat, a: nat, b: nat)
    requires d <= |s| && NonWordBetween(s[d..], a, b)
    ensures NonWordBetween(s, a + d, b + d)
  {
    forall j | a + d <= j < b + d
      ensures !IsWordChar(s[j])
    {
      assert s[j] == s[d..][j - d];
    }
  }

  lemma NonWordJoin(s: string, a: nat, b: nat, c: nat)
    requires NonWordBetween(s, a, b) && NonWordBetween(s, b, c)
    ensures NonWordBetween(s, a, c)
  {
    forall j | a <= j < c
      ensures !IsWordChar(s[j])
    {
      if j < b {
        assert NonWordBetween(s, a, b);
      } else {
        assert NonWordBetween(s, b, c);
      }
    }
  }

  /** A match found in `s[d..]` is found in `s`, `d` positions on, when the
      search in `s` resumed no later and skipped only non-word characters. */
  lemma FoundShift(s: string, d: nat, ts: seq<string>, st: seq<nat>, k: nat,
                   ts': seq<string>, st': seq<nat>, k': nat)
    requires d <= |s| && |st| == |ts| && k < |ts| && Found(s[d..], ts, st, k)
    requires |st'| == |ts'| && k' < |ts'| && ts'[k'] == ts[k] && st'[k'] == st[k] + d
    requires NonWordBetween(s, Resume(ts', st', k'), Resume(ts, st, k) + d)
    ensures Found(s, ts', st', k')
  {
    FoundAtShift(s, d, ts[k], st[k], Resume(ts, st, k), Resume(ts', st', k'));
  }

  /** `FoundShift` for one match. */
  lemma FoundAtShift(s: string, d: nat, t: string, q: nat, from: nat, from': nat)
    requires d <= |s| && FoundAt(s[d..], t, q, from) && NonWordBetween(s, from', from + d)
    ensures FoundAt(s, t, q + d, from')
  {
    OccursShift(s, d, t, q);
    NonWordShift(s, d, from, q);
    NonWordJoin(s, from', from + d, q + d);
  }

  /** An occurrence in `s[d..]` is an occurrence in `s`, `d` positions on,
      with the same text after it. */
  lemma OccursShift(s: string, d: nat, t: string, p: nat)
    requires d <= |s| && OccursAt(s[d..], t, p)
    ensures OccursAt(s, t, p + d) && s[d..][p..] == s[p + d..]
  {
    assert s[d..][p..p + |t|] == s[p + d..p + d + |t|];
  }

  /** A leading non-word character is skipped: the scan of the rest, moved
      one position on. */
  lemma ScanSkip(s: string, ts: seq<string>, st: seq<nat>)
    requires |s| > 0 && !IsWordChar(s[0]) && IsScan(s[1..], ts, st)
    ensures IsScan(s, ts, Shift(st, 1))
  {
    var st' := Shift(st, 1);
    assert NonWordBetween(s, 0, 1);
    forall k | 0 <= k < |ts|
      ensures Found(s, ts, st', k)
    {
      if k > 0 {
        assert Found(s[1..], ts, st, k - 1);
        assert Resume(ts, st', k) == Resume(ts, st, k) + 1;
        assert NonWordBetween(s, Resume(ts, st', k), Resume(ts, st, k) + 1);
      }
      assert Found(s[1..], ts, st, k);
      FoundShift(s, 1, ts, st, k, ts, st', k);
    }
    NonWordShift(s, 1, Resume(ts, st, |ts|), |s| - 1);
    if |ts| == 0 {
      NonWordJoin(s, 0, 1, |s|);
    } else {
      assert Resume(ts, st', |ts|) == Resume(ts, st, |ts|) + 1;
    }
  }

  /** A leading word character starts a match of `n` characters: that
      match, then the scan of the rest moved `n` positions on. */
  lemma ScanTake(s: string, n: nat, ts: seq<string>, st: seq<nat>)
    requires 0 < n <= |s| && n == RunLength(s, MaxTokenLength) && IsScan(s[n..], ts, st)
    ensures IsScan(s, [s[..n]] + ts, [0] + Shift(st, n))
  {
    var ts', st' := [s[..n]] + ts, [0] + Shift(st, n);
    assert |st'| == |ts'|;
    forall k | 0 <= k < |ts'|
      ensures Found(s, ts', st', k)
    {
      if k == 0 {
        TakeFirst(s, n, ts', st');
      } else {
        TakeStep(s, n, ts, st, k);
      }
    }
    TakeLast(s, n, ts, st);
  }

  /** After a leading match of `n` characters, the scan of the rest leaves
      no word character after its last match. */
  lemma TakeLast(s: string, n: nat, ts: seq<string>, st: seq<nat>)
    requires 0 < n <= |s| && IsScan(s[n..], ts, st)
    ensures NonWordBetween(s, Resume([s[..n]] + ts, [0] + Shift(st, n), |ts| + 1), |s|)
  {
    var ts', st' := [s[..n]] + ts, [0] + Shift(st, n);
    assert Resume(ts', st', |ts'|) == Resume(ts, st, |ts|) + n;
    NonWordShift(s, n, Resume(ts, st, |ts|), |s| - n);
  }

  /** The leading match of `n` word characters is found at 0. */
  lemma TakeFirst(s: string, n: nat, ts': seq<string>, st': seq<nat>)
    requires 0 < n <= |s| && n == RunLength(s, MaxTokenLength)
    requires |st'| == |ts'| && 0 < |ts'| && ts'[0] == s[..n] && st'[0] == 0
    ensures Found(s, ts', st', 0)
  {
    assert s[0..] == s;
    assert NonWordBetween(s, 0, 0);
  }

  /** Match `k` of the scan after a leading match of `n` characters is
      match `k - 1` of the scan of the rest. */
  lemma TakeStep(s: string, n: nat, ts: seq<string>, st: seq<nat>, k: nat)
    requires 0 < n <= |s| && IsScan(s[n..], ts, st) && 1 <= k <= |ts|
    ensures Found(s, [s[..n]] + ts, [0] + Shift(st, n), k)
  {
    var ts', st' := [s[..n]] + ts, [0] + Shift(st, n);
    var i := k - 1;
    assert ts'[k] == ts[i] && st'[k] == st[i] + n;
    if i > 0 {
      assert Found(s[n..], ts, st, i - 1);
    }
    assert Resume(ts', st', k) == Resume(ts, st, i) + n;
    assert NonWordBetween(s, Resume(ts', st', k), Resume(ts, st, i) + n);
    assert Found(s[n..], ts, st, i);
    FoundShift(s, n, ts, st, i, ts', st', k);
  }

  /** `Tokens` is the global search: every match is the greedy run of at
      most 128 word characters at the first word character after the
      previous match, found at the positions `st`. */
  lemma {:induction false} TokensScan(s: string) returns (st: seq<nat>)
    ensures IsScan(s, Tokens(s), st)
    decreases |s|
  {
    if |s| == 0 {
      st := [];
    } else if !IsWordChar(s[0]) {
      var st1 := TokensScan(s[1..]);
      ScanSkip(s, Tokens(s[1..]), st1);
      st := Shift(st1, 1);
    } else {
      var n := RunLength(s, MaxTokenLength);
      var st1 := TokensScan(s[n..]);
      ScanTake(s, n, Tokens(s[n..]), st1);
      st := [0] + Shift(st1, n);
    }
  }

  /** A match starts at the start of the text, after a non-word character,
      or right where a previous match of the full 128 characters ended: a
      run of word characters is cut into 128-character chunks, and only its
      last chunk is shorter. */
  lemma ChunkBoundary(s: string, ts: seq<string>, st: seq<nat>, k: nat)
    requires IsScan(s, ts, st) && k < |ts|
    ensures || st[k] == 0
            || (st[k] <= |s| && !IsWordChar(s[st[k] - 1]))
            || (0 < k && st[k - 1] + |ts[k - 1]| == st[k] && |ts[k - 1]| == MaxTokenLength)
  {
    assert Found(s, ts, st, k);
    if 0 < k && Resume(ts, st, k) == st[k] {
      assert Found(s, ts, st, k - 1);
      var rest := s[st[k - 1]..];
      assert rest[|ts[k - 1]|] == s[st[k]] == ts[k][0];
    }
  }

  /** `code?.match(...) ?? []`: no text content and no match both give the
      empty list. */
  function CodeMatches(code: Option<string>): (ts: seq<string>)
    ensures forall k :: 0 <= k < |ts| ==> IsToken(ts[k])
    ensures code.None? ==> ts == []
    ensures code.Some? ==> ts == Tokens(code.value)
  {
    match code
    case None => []
    case Some(c) => Tokens(c)
  }

  /** `t.toLowerCase().includes("redacted")`. */
  predicate Redacted(t: string)
  {
    Contains(Lower(t), RedactionMarker)
  }

  /** The characters `String.prototype.trim` removes: the white space and
      line terminator characters of ECMA-262. */
  predicate IsTrimmed(c: char)
  {
    || 0x09 <= c as int <= 0x0D
    || c as int == 0x20 || c as int == 0xA0 || c as int == 0x1680
    || 0x2000 <= c as int <= 0x200A
    || c as int == 0x2028 || c as int == 0x2029 || c as int == 0x202F || c as int == 0x205F
    || c as int == 0x3000 || c as int == 0xFEFF
  }

  /** `s.trim()`: the middle of `s` left once the white space and line
      terminators at either end are removed. */
  function Trim(s: string): (r: string)
    ensures exists a: nat :: TrimmedAt(s, r, a)
    ensures |r| > 0 ==> !IsTrimmed(r[0]) && !IsTrimmed(r[|r| - 1])
  {
    var t := TrimStart(s);
    var r := TrimEnd(t);
    TrimBothEnds(s, t, r);
    r
  }

  /** Trimming the end of what trimming the start left gives the middle of
      `s`. */
  lemma TrimBothEnds(s: string, t: string, r: string)
    requires |t| <= |s| && t == s[|s| - |t|..] && forall i :: 0 <= i < |s| - |t| ==> IsTrimmed(s[i])
    requires |r| <= |t| && r == t[..|r|] && forall i :: |r| <= i < |t| ==> IsTrimmed(t[i])
    requires |t| > 0 ==> !IsTrimmed(t[0])
    ensures TrimmedAt(s, r, |s| - |t|)
    ensures |r| > 0 ==> !IsTrimmed(r[0])
  {
    assert |r| > 0 ==> r[0] == t[0];
    assert s[|s| - |t|..][..|r|] == s[|s| - |t|..|s| - |t| + |r|];
    forall i | |s| - |t| + |r| <= i < |s|
      ensures IsTrimmed(s[i])
    {
      assert s[i] == t[i - (|s| - |t|)];
    }
  }

  /** `s` without its leading trimmable characters: a suffix of `s`. */
  function TrimStart(s: string): (r: string)
    ensures |r| <= |s| && r == s[|s| - |r|..]
    ensures forall i :: 0 <= i < |s| - |r| ==> IsTrimmed(s[i])
    ensures |r| > 0 ==> !IsTrimmed(r[0])
    decreases |s|
  {
    if |s| > 0 && IsTrimmed(s[0]) then TrimStart(s[1..]) else s
  }

  /** `s` without its trailing trimmable characters: a prefix of `s`. */
  function TrimEnd(s: string): (r: string)
    ensures |r| <= |s| && r == s[..|r|]
    ensures forall i :: |r| <= i < |s| ==> IsTrimmed(s[i])
    ensures |r| > 0 ==> !IsTrimmed(r[|r| - 1])
    decreases |s|
  {
    if |s| > 0 && IsTrimmed(s[|s| - 1]) then TrimEnd(s[..|s| - 1]) else s
  }

  /** `r` is `s` from position `a` on, with only trimmable characters
      before and after it. */
  ghost predicate TrimmedAt(s: string, r: string, a: nat)
  {
    && a + |r| <= |s| && s[a..a + |r|] == r
    && (forall i :: 0 <= i < a ==> IsTrimmed(s[i]))
    && (forall i :: a + |r| <= i < |s| ==> IsTrimmed(s[i]))
  }

  /** A token has nothing to trim. */
  lemma TrimToken(t: string)
    requires IsToken(t)
    ensures Trim(t) == t
  {
    assert !IsTrimmed(t[0]) && !IsTrimmed(t[|t| - 1]);
  }

  /** The filter of `extract`: a match survives unless it contains the marker. */
  predicate Survives(t: string)
  {
    !Redacted(t)
  }

  /** What the reduction compares: `length`. */
  function Weight(t: string): real
  {
    |t| as real
  }

  /** The surviving matches, in match order. */
  function Survivors(code: Option<string>): (cs: seq<string>)
    ensures forall t :: t in cs <==> t in CodeMatches(code) && Survives(t)
  {
    Seqs.Filter(CodeMatches(code), Survives)
  }

  /** The element the reduction ends on is a surviving match at least as long
      as every other, and strictly longer than every surviving match before it. */
  lemma ChosenIsFirstLongest(code: Option<string>, m: nat)
    requires |Survivors(code)| > 0 && m == Seqs.FirstMax(Survivors(code), Weight)
    ensures var c := Survivors(code)[m];
            && IsToken(c) && Survives(c) && c in CodeMatches(code) && Trim(c) == c
            && (forall t :: t in CodeMatches(code) && Survives(t) ==> |t| <= |c|)
            && exists k :: 0 <= k < |CodeMatches(code)| && CodeMatches(code)[k] == c
                           && forall j :: 0 <= j < k && Survives(CodeMatches(code)[j]) ==> |CodeMatches(code)[j]| < |c|
  {
    var ms, cs := CodeMatches(code), Survivors(code);
    var c := cs[m];
    Seqs.FirstMaxOfFilter(ms, Survives, Weight);
    TrimToken(c);
  }

  /** The text of `longest` in `extract`: the matches are filtered for the
      redaction marker, reduced with `(a, b) => b.length > a.length ? b : a`,
      and trimmed. `None` stands for the `TypeError` that `reduce` without an
      initial value throws on an empty list. */
  function Reduce(code: Option<string>): (r: Option<string>)
    ensures r.None? <==> forall t :: t in CodeMatches(code) ==> Redacted(t)
    ensures r.Some? ==> IsToken(r.value) && !Redacted(r.value) && r.value in CodeMatches(code)
    ensures r.Some? ==> forall t :: t in CodeMatches(code) && !Redacted(t) ==> |t| <= |r.value|
    ensures r.Some? ==>
              exists k :: 0 <= k < |CodeMatches(code)| && CodeMatches(code)[k] == r.value
                          && forall j :: 0 <= j < k && !Redacted(CodeMatches(code)[j]) ==>
                               |CodeMatches(code)[j]| < |r.value|
  {
    var cs := Survivors(code);
    if |cs| == 0 then
      None
    else
      var m := Seqs.FirstMax(cs, Weight);
      ChosenIsFirstLongest(code, m);
      Some(Trim(cs[m]))
  }

  /** The chosen token is a piece of the code text. */
  lemma ReduceOccurs(code: Option<string>)
    ensures Reduce(code).Some? ==> code.Some? && exists p: nat :: OccursAt(code.value, Reduce(code).value, p)
  {
    if Reduce(code).Some? {
      var c := code.value;
      var st := TokensScan(c);
      var k :| 0 <= k < |Tokens(c)| && Tokens(c)[k] == Reduce(code).value;
      assert Found(c, Tokens(c), st, k);
    }
  }
}
