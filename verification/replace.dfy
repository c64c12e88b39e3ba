/** `String.prototype.replace` with a string pattern and a string
    replacement, as used to fill the redacted part of a file name. */
module Replace {
  import opened Wrappers
  import opened Text

  /** The replacement text for one match (the GetSubstitution operation of
      ECMA-262 with no capture groups): `$$` stands for `$`, `$&` for the
      matched text, `` $` `` for the text before the match, `$'` for the text
      after it; every other `$` is literal. */
  function Substitution(rep: string, matched: string, before: string, after: string): string
    decreases |rep|
  {
    if |rep| == 0 then []
    else if rep[0] == '$' && |rep| >= 2 && rep[1] == '$' then
      "$" + Substitution(rep[2..], matched, before, after)
    else if rep[0] == '$' && |rep| >= 2 && rep[1] == '&' then
      matched + Substitution(rep[2..], matched, before, after)
    else if rep[0] == '$' && |rep| >= 2 && rep[1] == '`' then
      before + Substitution(rep[2..], matched, before, after)
    else if rep[0] == '$' && |rep| >= 2 && rep[1] == '\'' then
      after + Substitution(rep[2..], matched, before, after)
    else [rep[0]] + Substitution(rep[1..], matched, before, after)
  }

  /** A replacement without `$` is inserted verbatim. */
  lemma {:induction false} SubstitutionPlain(rep: string, matched: string, before: string, after: string)
    requires '$' !in rep
    ensures Substitution(rep, matched, before, after) == rep
    decreases |rep|
  {
    if |rep| > 0 {
      assert rep[0] != '$';
      assert '$' !in rep[1..];
      SubstitutionPlain(rep[1..], matched, before, after);
    }
  }

  /** `p` occurs at `i` and nowhere before it. */
  ghost predicate Leftmost(s: string, p: string, i: nat)
  {
    OccursAt(s, p, i) && forall j :: 0 <= j < i ==> !OccursAt(s, p, j)
  }

  /** There is at most one leftmost occurrence. */
  lemma LeftmostUnique(s: string, p: string, i: nat)
    requires Leftmost(s, p, i)
    ensures forall k: nat :: Leftmost(s, p, k) ==> k == i
  {
  }

  /** `s.replace(p, rep)`: a string without `p` is left alone; otherwise only
      the leftmost occurrence of `p` is replaced: the text before and after it
      is kept, whatever `rep` holds, and a `$`-free replacement goes in
      verbatim. */
  function ReplaceFirst(s: string, p: string, rep: string): (r: string)
    ensures (forall j :: 0 <= j ==> !OccursAt(s, p, j)) ==> r == s
    ensures forall i: nat :: Leftmost(s, p, i) ==>
              |s| - |p| <= |r| && r[..i] == s[..i] && r[|r| - (|s| - i - |p|)..] == s[i + |p|..]
    ensures '$' !in rep ==>
              forall i: nat :: OccursAt(s, p, i) && (forall j :: 0 <= j < i ==> !OccursAt(s, p, j)) ==>
                r == s[..i] + rep + s[i + |p|..]
  {
    match FindFirst(s, p)
    case None => s
    case Some(i) =>
      assert '$' !in rep ==> Substitution(rep, p, s[..i], s[i + |p|..]) == rep by {
        if '$' !in rep {
          SubstitutionPlain(rep, p, s[..i], s[i + |p|..]);
        }
      }
      var r := s[..i] + Substitution(rep, p, s[..i], s[i + |p|..]) + s[i + |p|..];
      assert r[..i] == s[..i] && r[|r| - (|s| - i - |p|)..] == s[i + |p|..];
      LeftmostUnique(s, p, i);
      r
  }

  /** `$&` puts the matched text back: the string is unchanged. */
  lemma ReplaceFirstMatched(s: string, p: string)
    ensures ReplaceFirst(s, p, "$&") == s
  {
    match FindFirst(s, p)
    case None =>
    case Some(i) =>
      SubstitutionMatched(p, s[..i], s[i + |p|..]);
      SplitAround(s, i, i + |p|);
  }

  /** `$&` alone stands for the matched text. */
  lemma SubstitutionMatched(matched: string, before: string, after: string)
    ensures Substitution("$&", matched, before, after) == matched
  {
    assert Substitution("$&", matched, before, after) == matched + Substitution([], matched, before, after);
  }

  /** A string is its text before `i`, from `i` to `j`, and after `j`. */
  lemma SplitAround(s: string, i: nat, j: nat)
    requires i <= j <= |s|
    ensures s[..i] + s[i..j] + s[j..] == s
  {
  }

  /** `$$` replaces the leftmost occurrence by a single `$`. */
  lemma ReplaceFirstDollar(s: string, p: string, i: nat)
    requires Leftmost(s, p, i)
    ensures ReplaceFirst(s, p, "$$") == s[..i] + "$" + s[i + |p|..]
  {
    LeftmostUnique(s, p, i);
  }

  /** `` $` `` replaces the leftmost occurrence by the text before it. */
  lemma ReplaceFirstBefore(s: string, p: string, i: nat)
    requires Leftmost(s, p, i)
    ensures ReplaceFirst(s, p, "$`") == s[..i] + s[..i] + s[i + |p|..]
  {
  }

  /** `$'` replaces the leftmost occurrence by the text after it. */
  lemma ReplaceFirstAfter(s: string, p: string, i: nat)
    requires Leftmost(s, p, i)
    ensures ReplaceFirst(s, p, "$'") == s[..i] + s[i + |p|..] + s[i + |p|..]
  {
  }
}
