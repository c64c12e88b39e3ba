/** The stats panel parser: each `div.text-lg` text is lower-cased and
    searched for `(your total points|your rank|active users): #?([0-9]+)`;
    each hit records `label -> digits`, later hits overwriting earlier ones. */
module Stats {
  import opened Wrappers
  import opened Text
  import Seqs

  /** The three labels the pattern recognises. */
  datatype Label = TotalPoints | Rank | ActiveUsers

  /** The label as it appears in the lower-cased text, which is also the
      key the source stores it under. */
  function Spelling(l: Label): string
  {
    match l
    case TotalPoints => "your total points"
    case Rank => "your rank"
    case ActiveUsers => "active users"
  }

  /** Length of the run of digits at the start of `s`. */
  function DigitRun(s: string): (n: nat)
    ensures n <= |s|
    ensures forall i :: 0 <= i < n ==> IsDigit(s[i])
    ensures n < |s| ==> !IsDigit(s[n])
  {
    if |s| == 0 || !IsDigit(s[0]) then 0 else 1 + DigitRun(s[1..])
  }

  /** `s` has a digit at position `i`. */
  predicate DigitAt(s: string, i: nat)
  {
    i < |s| && IsDigit(s[i])
  }

  /** The tail of the pattern after the label, `": #?([0-9]+)"`, matched at
      the start of `s`, with the greedy digit run as its capture. When a `#`
      is present but not followed by digits the optional `#` backtracks to
      empty, and the digit run must then start at the `#`, which fails. */
  function MatchTail(s: string): (r: Option<string>)
    ensures r.Some? <==> |s| >= 2 && s[..2] == ": " && (DigitAt(s, 2) || (|s| > 2 && s[2] == '#' && DigitAt(s, 3)))
    ensures r.Some? ==>
              var start := if |s| > 2 && s[2] == '#' then 3 else 2;
              && |r.value| > 0 && AllDigits(r.value)
              && OccursAt(s, r.value, start)
              && !DigitAt(s, start + |r.value|)
  {
    if |s| < 2 || s[..2] != ": " then None
    else
      var t := s[2..];
      if |t| > 0 && t[0] == '#' && DigitRun(t[1..]) > 0 then Some(t[1..][..DigitRun(t[1..])])
      else if DigitRun(t) > 0 then Some(t[..DigitRun(t)])
      else None
  }

  /** The alternative for label `l` matches in full at position `i`. */
  predicate AlternativeMatches(s: string, i: nat, l: Label)
  {
    var key := Spelling(l);
    i + |key| <= |s| && s[i..i + |key|] == key && MatchTail(s[i + |key|..]).Some?
  }

  /** The capture of the digit group when the alternative for `l` matches at `i`. */
  function Digits(s: string, i: nat, l: Label): string
    requires AlternativeMatches(s, i, l)
  {
    MatchTail(s[i + |Spelling(l)|..]).value
  }

  /** The alternatives of the label group, in the order the regular
      expression tries them. */
  const Alternatives: seq<Label> := [TotalPoints, Rank, ActiveUsers]

  /** The pattern matched at position `i`: the first label alternative whose
      whole match succeeds there, with both captures. */
  function MatchAt(s: string, i: nat): (r: Option<(Label, string)>)
    ensures r.Some? ==> AlternativeMatches(s, i, r.value.0) && r.value.1 == Digits(s, i, r.value.0)
  {
    TryAlternatives(s, i, Alternatives)
  }

  /** Tries the alternatives `ls` in order at position `i`. */
  function TryAlternatives(s: string, i: nat, ls: seq<Label>): (r: Option<(Label, string)>)
    ensures r.Some? ==> r.value.0 in ls && AlternativeMatches(s, i, r.value.0)
                        && r.value.1 == Digits(s, i, r.value.0)
  {
    if |ls| == 0 then None
    else if AlternativeMatches(s, i, ls[0]) then Some((ls[0], Digits(s, i, ls[0])))
    else TryAlternatives(s, i, ls[1..])
  }

  /** The alternation fails only when every alternative fails. */
  lemma {:induction false} TryAlternativesNone(s: string, i: nat, ls: seq<Label>)
    ensures TryAlternatives(s, i, ls).None? <==> forall b :: 0 <= b < |ls| ==> !AlternativeMatches(s, i, ls[b])
  {
    if |ls| > 0 {
      TryAlternativesNone(s, i, ls[1..]);
      assert forall b :: 1 <= b < |ls| ==> ls[b] == ls[1..][b - 1];
    }
  }

  /** The pattern fails at `i` exactly when none of the three labels, followed
      by the rest of the pattern, matches there. */
  lemma MatchAtNone(s: string, i: nat)
    ensures MatchAt(s, i).None? <==> forall l: Label :: !AlternativeMatches(s, i, l)
  {
    TryAlternativesNone(s, i, Alternatives);
    if MatchAt(s, i).None? {
      forall l: Label
        ensures !AlternativeMatches(s, i, l)
      {
        match l
        case TotalPoints => assert Alternatives[0] == l;
        case Rank => assert Alternatives[1] == l;
        case ActiveUsers => assert Alternatives[2] == l;
      }
    }
  }

  /** `s.match(pattern)` without the `g` flag: the match at the leftmost
      position where there is one. */
  function FirstMatch(s: string): (r: Option<(Label, string)>)
    ensures r.Some? ==> exists i :: 0 <= i <= |s| && MatchAt(s, i) == r
                          && forall j :: 0 <= j < i ==> MatchAt(s, j).None?
    ensures r.None? ==> forall i :: 0 <= i <= |s| ==> MatchAt(s, i).None?
  {
    var f := (i: nat) => MatchAt(s, i);
    assert forall k: nat :: f(k) == MatchAt(s, k);
    Seqs.FirstSome(f, 0, |s|)
  }

  /** The match of one element: `el.textContent?.toLowerCase().match(...)`;
      an element without text content matches nothing. */
  function ElementMatch(text: Option<string>): Option<(Label, string)>
  {
    match text
    case None => None
    case Some(t) => FirstMatch(Lower(t))
  }

  /** A match of the pattern: a label and a non-empty digit string. */
  ghost predicate ValidMatch(m: Option<(Label, string)>)
  {
    m.Some? ==> |m.value.1| > 0 && AllDigits(m.value.1)
  }

  /** The matches of the elements, in page order. */
  function Matches(texts: seq<Option<string>>): (ms: seq<Option<(Label, string)>>)
    ensures |ms| == |texts|
    ensures forall i :: 0 <= i < |texts| ==> ms[i] == ElementMatch(texts[i]) && ValidMatch(ms[i])
  {
    seq(|texts|, i requires 0 <= i < |texts| => ElementMatch(texts[i]))
  }

  /** Every value is a non-empty digit string. */
  ghost predicate WellFormed(stats: map<Label, string>)
  {
    forall k :: k in stats ==> |stats[k]| > 0 && AllDigits(stats[k])
  }

  /** The effect of one element's match on the stats record:
      `stats[key] = val` when the element matched. */
  function Record(stats: map<Label, string>, m: Option<(Label, string)>): (r: map<Label, string>)
    requires WellFormed(stats) && ValidMatch(m)
    ensures WellFormed(r)
    ensures forall k :: k in r <==> k in stats || IsFor(m, k)
    ensures m.Some? ==> m.value.0 in r && r[m.value.0] == m.value.1
    ensures forall k :: k in stats && !IsFor(m, k) ==> r[k] == stats[k]
  {
    match m
    case None => stats
    case Some((key, digits)) => stats[key := digits]
  }

  /** The stats record after the matches `ms`, taken in order. */
  function Fold(stats: map<Label, string>, ms: seq<Option<(Label, string)>>): (r: map<Label, string>)
    requires WellFormed(stats)
    requires forall i :: 0 <= i < |ms| ==> ValidMatch(ms[i])
    ensures WellFormed(r)
    ensures stats.Keys <= r.Keys
    decreases |ms|
  {
    if |ms| == 0 then stats else Fold(Record(stats, ms[0]), ms[1..])
  }

  /** The stats record of the page's stats elements: every value is a
      non-empty digit string. Which labels it holds is stated by `ParseKeys`,
      and which digits by `ParseLastWriter`. */
  function Parse(texts: seq<Option<string>>): (r: map<Label, string>)
    ensures WellFormed(r)
  {
    Fold(map[], Matches(texts))
  }

  /** The record after a non-empty list of matches is `Record` applied to
      the record before its last match. */
  lemma {:induction false} FoldSnoc(stats: map<Label, string>, ms: seq<Option<(Label, string)>>)
    requires WellFormed(stats)
    requires |ms| > 0
    requires forall i :: 0 <= i < |ms| ==> ValidMatch(ms[i])
    ensures Fold(stats, ms) == Record(Fold(stats, ms[..|ms| - 1]), ms[|ms| - 1])
    decreases |ms|
  {
    if |ms| == 1 {
      assert ms[1..] == [] && ms[..0] == [];
    } else {
      var init := ms[..|ms| - 1];
      assert init[1..] == ms[1..][..|ms| - 2];
      assert init[0] == ms[0];
      FoldSnoc(Record(stats, ms[0]), ms[1..]);
    }
  }

  /** The match `m` is for the label `key`. */
  predicate IsFor(m: Option<(Label, string)>, key: Label)
  {
    m.Some? && m.value.0 == key
  }

  /** Splits off the last match: the record before it, then `Record`. */
  lemma FoldLast(ms: seq<Option<(Label, string)>>)
    requires |ms| > 0
    requires forall i :: 0 <= i < |ms| ==> ValidMatch(ms[i])
    ensures Fold(map[], ms) == Record(Fold(map[], ms[..|ms| - 1]), ms[|ms| - 1])
  {
    FoldSnoc(map[], ms);
  }

  /** A label is in the folded record exactly when some match is for it. */
  lemma {:induction false} FoldKeys(ms: seq<Option<(Label, string)>>, key: Label)
    requires forall i :: 0 <= i < |ms| ==> ValidMatch(ms[i])
    ensures key in Fold(map[], ms) <==> exists i :: 0 <= i < |ms| && IsFor(ms[i], key)
    decreases |ms|
  {
    if |ms| > 0 {
      var init := ms[..|ms| - 1];
      FoldLast(ms);
      FoldKeys(init, key);
      assert forall i :: 0 <= i < |init| ==> ms[i] == init[i];
    }
  }

  /** The value a label holds in the folded record comes from the LAST match
      for that label; `i` is that match. */
  lemma {:induction false} FoldLastWriter(ms: seq<Option<(Label, string)>>, key: Label) returns (i: nat)
    requires forall i :: 0 <= i < |ms| ==> ValidMatch(ms[i])
    requires key in Fold(map[], ms)
    ensures i < |ms| && ms[i] == Some((key, Fold(map[], ms)[key]))
    ensures forall j :: i < j < |ms| ==> !IsFor(ms[j], key)
    decreases |ms|
  {
    assert |ms| > 0;
    var init := ms[..|ms| - 1];
    FoldLast(ms);
    if IsFor(ms[|ms| - 1], key) {
      i := |ms| - 1;
    } else {
      i := FoldLastWriter(init, key);
      assert ms[i] == init[i];
      assert forall j :: i < j < |init| ==> ms[j] == init[j];
    }
  }

  /** Stats parsing records a label exactly when some element's text
      matched it. */
  lemma ParseKeys(texts: seq<Option<string>>, key: Label)
    ensures key in Parse(texts) <==>
              exists i :: 0 <= i < |texts| && ElementMatch(texts[i]).Some?
                          && ElementMatch(texts[i]).value.0 == key
  {
    FoldKeys(Matches(texts), key);
  }

  /** A recorded label holds the digits of the last element that matched
      it; elements that match nothing, or match another label, change
      nothing. */
  lemma ParseLastWriter(texts: seq<Option<string>>, key: Label)
    ensures key in Parse(texts) ==>
              exists i :: 0 <= i < |texts| && ElementMatch(texts[i]) == Some((key, Parse(texts)[key]))
                          && forall j :: i < j < |texts| ==>
                               ElementMatch(texts[j]).None? || ElementMatch(texts[j]).value.0 != key
  {
    if key in Parse(texts) {
      var i := FoldLastWriter(Matches(texts), key);
      assert ElementMatch(texts[i]) == Some((key, Parse(texts)[key]));
    }
  }
}
