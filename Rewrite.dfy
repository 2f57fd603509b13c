/** The shape shared by every `Regex::replace_all` call of the generator: the
    text is scanned left to right; where the pattern matches (the leftmost
    match, with the pattern's own preference among matches starting there), the
    match is replaced by the closure's text and the scan resumes after it;
    elsewhere one character is copied. None of the patterns involved can match
    the empty string, so every match spans at least one character. */
module Rewrite {
  import opened Strings

  type PosNat = n: nat | n > 0 witness 1

  /** A match found at a position: how many characters it spans, and the text
      the closure returns for it. */
  datatype Hit = Hit(len: PosNat, text: string)

  /** A pattern together with its replacement closure: the hit at position `i`
      of `s`, if the pattern matches there. */
  type Matcher = (string, nat) -> Option<Hit>

  function ReplaceFrom(s: string, i: nat, m: Matcher): string
    decreases |s| - i
  {
    if i >= |s| then ""
    else match m(s, i)
      case Some(h) => h.text + ReplaceFrom(s, i + h.len, m)
      case None => [s[i]] + ReplaceFrom(s, i + 1, m)
  }

  /** `re.replace_all(s, closure)`. */
  function ReplaceAllMatches(s: string, m: Matcher): string {
    ReplaceFrom(s, 0, m)
  }

  /** A match at `j`, if any, lies inside `s` and is replaced by itself. */
  predicate KeepsMatch(s: string, j: nat, m: Matcher) {
    m(s, j).Some? ==> j + m(s, j).value.len <= |s| && m(s, j).value.text == s[j..j + m(s, j).value.len]
  }

  /** Where every match is replaced by its own text, the text is unchanged. */
  lemma {:induction false} ReplaceIdentity(s: string, i: nat, m: Matcher)
    requires i <= |s|
    requires forall j :: i <= j < |s| ==> KeepsMatch(s, j, m)
    ensures ReplaceFrom(s, i, m) == s[i..]
    decreases |s| - i
  {
    if i < |s| {
      assert KeepsMatch(s, i, m);
      match m(s, i)
      case Some(h) =>
        ReplaceIdentity(s, i + h.len, m);
        assert s[i..] == s[i..i + h.len] + s[i + h.len..];
      case None =>
        ReplaceIdentity(s, i + 1, m);
        assert s[i..] == [s[i]] + s[i + 1..];
    }
  }

  /** Text in which the pattern matches nowhere is returned unchanged. */
  lemma ReplaceNoMatch(s: string, m: Matcher)
    requires forall j :: 0 <= j < |s| ==> m(s, j).None?
    ensures ReplaceAllMatches(s, m) == s
  {
    forall j | 0 <= j < |s| ensures KeepsMatch(s, j, m) {
      assert m(s, j).None?;
    }
    ReplaceIdentity(s, 0, m);
  }

  lemma CopyStep(s: string, i: nat, m: Matcher)
    requires i < |s| && m(s, i).None?
    ensures ReplaceFrom(s, i, m) == [s[i]] + ReplaceFrom(s, i + 1, m)
  {
  }

  /** A match is replaced by its text and the scan resumes after it. */
  lemma MatchStep(s: string, i: nat, m: Matcher, h: Hit)
    requires i < |s| && m(s, i) == Some(h)
    ensures ReplaceFrom(s, i, m) == h.text + ReplaceFrom(s, i + h.len, m)
  {
  }

  /** Text before the first match is copied, then the match is replaced
      and the scan goes on after it. */
  lemma {:induction false} FirstMatch(s: string, m: Matcher, i: nat, h: Hit)
    requires i < |s| && m(s, i) == Some(h)
    requires forall j :: 0 <= j < i ==> m(s, j).None?
    ensures ReplaceAllMatches(s, m) == s[..i] + h.text + ReplaceFrom(s, i + h.len, m)
  {
    ReplaceSkip(s, 0, i, m);
    MatchStep(s, i, m, h);
    assert s[0..i] == s[..i];
  }

  /** The same, for what the result starts with. */
  lemma {:induction false} FirstMatchPrefix(s: string, m: Matcher, i: nat, h: Hit)
    requires i < |s| && m(s, i) == Some(h)
    requires forall j :: 0 <= j < i ==> m(s, j).None?
    ensures StartsWith(ReplaceAllMatches(s, m), s[..i] + h.text)
  {
    FirstMatch(s, m, i, h);
    ConcatEnds(s[..i] + h.text, ReplaceFrom(s, i + h.len, m));
  }

  /** Text before the next match is copied unchanged. */
  lemma {:induction false} ReplaceSkip(s: string, i: nat, k: nat, m: Matcher)
    requires i <= k <= |s|
    requires forall j :: i <= j < k ==> m(s, j).None?
    ensures ReplaceFrom(s, i, m) == s[i..k] + ReplaceFrom(s, k, m)
    decreases k - i
  {
    if i < k {
      CopyStep(s, i, m);
      ReplaceSkip(s, i + 1, k, m);
      assert [s[i]] + s[i + 1..k] == s[i..k];
    }
  }

  /** A text that is one match in its entirety becomes the match's replacement. */
  lemma ReplaceWhole(s: string, m: Matcher, t: string)
    requires |s| > 0 && m(s, 0) == Some(Hit(|s|, t))
    ensures ReplaceAllMatches(s, m) == t
  {
    assert ReplaceFrom(s, 0, m) == t + ReplaceFrom(s, |s|, m);
  }
}
