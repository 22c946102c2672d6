/** The word-censoring filter of the service (`censorBadWords`).

    Each disallowed term is turned into the pattern `\b<term>\b` with the
    global and case-insensitive flags, and every match is replaced by its
    first character followed by one `*` per remaining character.  The terms
    are applied one after another, each over the previous term's output.

    Terms are restricted to non-empty runs of ASCII word characters, so that
    the pattern is a literal word; under that restriction the pattern's `\b`
    and case-insensitivity (without the `u` flag) are exactly the ASCII
    definitions below.
 */
module Censor {

  /** A character that `\w` matches: ASCII letters, digits and underscore. */
  predicate IsWordChar(c: char) {
    ('a' <= c <= 'z') || ('A' <= c <= 'Z') || ('0' <= c <= '9') || c == '_'
  }

  /** ASCII case folding: upper-case letters map to lower case, all else is kept. */
  function FoldCase(c: char): (d: char)
    ensures IsWordChar(d) <==> IsWordChar(c)
    ensures !('A' <= d <= 'Z')
    ensures 'a' <= c <= 'z' ==> d == c
  {
    if 'A' <= c <= 'Z' then (c as int + 32) as char else c
  }

  /** Two strings that are equal up to ASCII case. */
  predicate SameFold(a: seq<char>, b: seq<char>) {
    |a| == |b| && forall k :: 0 <= k < |a| ==> FoldCase(a[k]) == FoldCase(b[k])
  }

  /** A term the filter accepts: a non-empty run of word characters. */
  predicate IsTerm(w: seq<char>) {
    |w| > 0 && forall k :: 0 <= k < |w| ==> IsWordChar(w[k])
  }

  predicate AllTerms(ws: seq<seq<char>>) {
    forall i :: 0 <= i < |ws| ==> IsTerm(ws[i])
  }

  /** Whether the character just before position `p` is a word character. */
  predicate WordCharBefore(t: seq<char>, p: int) {
    0 < p <= |t| && IsWordChar(t[p - 1])
  }

  /** Whether the character at position `p` is a word character. */
  predicate WordCharAt(t: seq<char>, p: int) {
    0 <= p < |t| && IsWordChar(t[p])
  }

  /** The `\b` assertion at position `p` (0 <= p <= |t|). */
  predicate IsBoundary(t: seq<char>, p: int) {
    WordCharBefore(t, p) != WordCharAt(t, p)
  }

  /** The pattern `\b<w>\b` (case-insensitive) matches `t` at position `i`. */
  predicate MatchAt(t: seq<char>, w: seq<char>, i: nat) {
    i + |w| <= |t|
    && IsBoundary(t, i)
    && SameFold(t[i..i + |w|], w)
    && IsBoundary(t, i + |w|)
  }

  /** Position `k` lies inside some match of `w` in `t`. */
  predicate Covered(t: seq<char>, w: seq<char>, k: nat) {
    exists j: nat :: j <= k < j + |w| && MatchAt(t, w, j)
  }

  function Stars(n: nat): (s: seq<char>)
    ensures |s| == n
    ensures forall k :: 0 <= k < n ==> s[k] == '*'
  {
    if n == 0 then [] else ['*'] + Stars(n - 1)
  }

  /** The replacement of one match: its first character, then asterisks. */
  function Mask(m: seq<char>): (r: seq<char>)
    requires |m| > 0
    ensures |r| == |m| && r[0] == m[0]
    ensures forall k :: 0 < k < |r| ==> r[k] == '*'
  {
    [m[0]] + Stars(|m| - 1)
  }

  /** The flagged positions of `starts` begin blocks of `n` characters that
      fit in the text. */
  predicate Fits(starts: seq<bool>, n: nat) {
    forall p :: 0 <= p < |starts| && starts[p] ==> p + n <= |starts|
  }

  /** Blocks of `n` characters at the flagged positions never overlap. */
  predicate Disjoint(starts: seq<bool>, n: nat) {
    forall p, q :: 0 <= p < q < |starts| && starts[p] && starts[q] ==> p + n <= q
  }

  /** One flag per position of `t`: whether `\b<w>\b` matches there. The
      flagged matches fit in the text and never overlap. */
  function MatchTable(t: seq<char>, w: seq<char>): (m: seq<bool>)
    requires IsTerm(w)
    ensures |m| == |t|
    ensures forall i :: 0 <= i < |t| ==> (m[i] <==> MatchAt(t, w, i))
    ensures Fits(m, |w|) && Disjoint(m, |w|)
  {
    var m := seq(|t|, i requires 0 <= i => MatchAt(t, w, i));
    assert Disjoint(m, |w|) by {
      forall p, q | 0 <= p < q < |m| && m[p] && m[q]
        ensures p + |w| <= q
      {
        if q < p + |w| {
          MatchesDisjoint(t, w, p, q);
        }
      }
    }
    m
  }

  /** The global replace of one term of length `n`, from position `i` of `t`
      onwards, where `starts` flags the positions at which the term matches:
      a match at `i` is masked and scanning resumes after it; otherwise the
      character at `i` is copied and scanning resumes at `i + 1`. */
  function CensorScan(t: seq<char>, n: nat, starts: seq<bool>, i: nat): (r: seq<char>)
    requires 0 < n && |starts| == |t| && Fits(starts, n) && i <= |t|
    ensures |r| == |t| - i
    decreases |t| - i
  {
    if i == |t| then []
    else if starts[i] then Mask(t[i..i + n]) + CensorScan(t, n, starts, i + n)
    else [t[i]] + CensorScan(t, n, starts, i + 1)
  }

  /** One step of the reduce: `text.replace(/\b<w>\b/gi, mask)`. */
  function CensorTerm(t: seq<char>, w: seq<char>): (r: seq<char>)
    requires IsTerm(w)
    ensures |r| == |t|
  {
    CensorScan(t, |w|, MatchTable(t, w), 0)
  }

  /** `censorBadWords`: the terms are applied in list order, each over the
      output of the previous one. */
  function CensorBadWords(text: seq<char>, badWords: seq<seq<char>>): (r: seq<char>)
    requires AllTerms(badWords)
    ensures |r| == |text|
    decreases |badWords|
  {
    if badWords == [] then text
    else CensorBadWords(CensorTerm(text, badWords[0]), badWords[1..])
  }

  // ---------------------------------------------------------------------
  // Matching

  /** A match consists of word characters only and is a whole word: the
      characters on either side of it are not word characters. */
  lemma MatchIsWholeWord(t: seq<char>, w: seq<char>, i: nat)
    requires IsTerm(w) && MatchAt(t, w, i)
    ensures forall k :: i <= k < i + |w| ==> IsWordChar(t[k])
    ensures i == 0 || !IsWordChar(t[i - 1])
    ensures i + |w| == |t| || !IsWordChar(t[i + |w|])
  {
    forall k | i <= k < i + |w|
      ensures IsWordChar(t[k])
    {
      assert FoldCase(t[i..i + |w|][k - i]) == FoldCase(w[k - i]);
    }
  }

  /** Two matches of the same term never overlap. */
  lemma MatchesDisjoint(t: seq<char>, w: seq<char>, i: nat, j: nat)
    requires IsTerm(w) && MatchAt(t, w, i) && i < j < i + |w|
    ensures !MatchAt(t, w, j)
  {
    MatchIsWholeWord(t, w, i);
    assert WordCharBefore(t, j) && WordCharAt(t, j);
  }

  /** Matching ignores ASCII case, both of the text and of the term. */
  lemma MatchIgnoresCase(t: seq<char>, t': seq<char>, w: seq<char>, w': seq<char>, i: nat)
    requires SameFold(t, t') && SameFold(w, w')
    ensures MatchAt(t, w, i) <==> MatchAt(t', w', i)
  {
    forall p | 0 <= p < |t|
      ensures IsWordChar(t[p]) <==> IsWordChar(t'[p])
    {
      assert FoldCase(t[p]) == FoldCase(t'[p]);
    }
    assert WordCharAt(t, i) == WordCharAt(t', i);
    assert WordCharBefore(t, i) == WordCharBefore(t', i);
    assert WordCharAt(t, i + |w|) == WordCharAt(t', i + |w|);
    assert WordCharBefore(t, i + |w|) == WordCharBefore(t', i + |w|);
    if i + |w| <= |t| {
      var m, m' := t[i..i + |w|], t'[i..i + |w|];
      assert forall k :: 0 <= k < |w| ==> FoldCase(m[k]) == FoldCase(m'[k]) by {
        forall k | 0 <= k < |w| ensures FoldCase(m[k]) == FoldCase(m'[k]) {
          assert m[k] == t[i + k] && m'[k] == t'[i + k];
        }
      }
    }
  }

  // ---------------------------------------------------------------------
  // What one term's pass does to each position

  /** Indexing a concatenation past its first part. */
  lemma IndexPastPrefix(a: seq<char>, b: seq<char>, k: nat)
    requires |a| <= k < |a| + |b|
    ensures (a + b)[k] == b[k - |a|]
  {
  }

  /** One step of the scan at a match: the mask, then the scan resumed
      after the match. */
  lemma ScanUnfoldMatch(t: seq<char>, n: nat, starts: seq<bool>, i: nat)
    requires 0 < n && |starts| == |t| && Fits(starts, n)
    requires i < |t| && starts[i]
    ensures CensorScan(t, n, starts, i) == Mask(t[i..i + n]) + CensorScan(t, n, starts, i + n)
  {
  }

  /** One step of the scan elsewhere: the character, then the scan resumed
      at the next position. */
  lemma ScanUnfoldCopy(t: seq<char>, n: nat, starts: seq<bool>, i: nat)
    requires 0 < n && |starts| == |t| && Fits(starts, n)
    requires i < |t| && !starts[i]
    ensures CensorScan(t, n, starts, i) == [t[i]] + CensorScan(t, n, starts, i + 1)
  {
  }

  /** The scan at a match writes the mask of that match. */
  lemma ScanAtMatch(t: seq<char>, n: nat, starts: seq<bool>, j: nat, k: nat)
    requires 0 < n && |starts| == |t| && Fits(starts, n)
    requires j <= k < |t| && starts[j] && k < j + n
    ensures CensorScan(t, n, starts, j)[k - j] == if k == j then t[j] else '*'
  {
    ScanUnfoldMatch(t, n, starts, j);
  }

  /** Past a match at `i`, the scan from `i` agrees with the scan resumed
      after that match. */
  lemma ScanStepMatch(t: seq<char>, n: nat, starts: seq<bool>, i: nat, k: nat)
    requires 0 < n && |starts| == |t| && Fits(starts, n)
    requires i + n <= k < |t| && starts[i]
    ensures CensorScan(t, n, starts, i)[k - i] == CensorScan(t, n, starts, i + n)[k - (i + n)]
  {
    ScanUnfoldMatch(t, n, starts, i);
    IndexPastPrefix(Mask(t[i..i + n]), CensorScan(t, n, starts, i + n), k - i);
  }

  /** Past a copied character at `i`, the scan from `i` agrees with the scan
      resumed at `i + 1`. */
  lemma ScanStepCopy(t: seq<char>, n: nat, starts: seq<bool>, i: nat, k: nat)
    requires 0 < n && |starts| == |t| && Fits(starts, n)
    requires i < k < |t| && !starts[i]
    ensures CensorScan(t, n, starts, i)[k - i] == CensorScan(t, n, starts, i + 1)[k - (i + 1)]
  {
    ScanUnfoldCopy(t, n, starts, i);
    IndexPastPrefix([t[i]], CensorScan(t, n, starts, i + 1), k - i);
  }

  /** Whatever the scan resumed after position `i` writes at `k`, the scan
      from `i` writes there too. */
  lemma ScanStep(t: seq<char>, n: nat, starts: seq<bool>, i: nat, next: nat, k: nat, c: char)
    requires 0 < n && |starts| == |t| && Fits(starts, n)
    requires i < |t| && next == (if starts[i] then i + n else i + 1) && next <= k < |t|
    requires CensorScan(t, n, starts, next)[k - next] == c
    ensures CensorScan(t, n, starts, i)[k - i] == c
  {
    if starts[i] {
      ScanStepMatch(t, n, starts, i, k);
    } else {
      ScanStepCopy(t, n, starts, i, k);
    }
  }

  /** A scan that starts at or before a match writes that match's mask:
      no earlier match overlaps it, so the scan resumes exactly at it. */
  lemma {:induction false} ScanMasksMatch(t: seq<char>, n: nat, starts: seq<bool>, i: nat, j: nat, k: nat)
    requires 0 < n && |starts| == |t| && Fits(starts, n) && Disjoint(starts, n)
    requires i <= j <= k < |t| && starts[j] && k < j + n
    ensures CensorScan(t, n, starts, i)[k - i] == if k == j then t[j] else '*'
    decreases |t| - i
  {
    var c := if k == j then t[j] else '*';
    if i == j {
      ScanAtMatch(t, n, starts, j, k);
    } else {
      var next := if starts[i] then i + n else i + 1;
      ScanMasksMatch(t, n, starts, next, j, k);
      ScanStep(t, n, starts, i, next, k, c);
    }
  }

  /** A position no flagged block covers is copied by the scan. */
  lemma {:induction false} ScanKeepsUncovered(t: seq<char>, n: nat, starts: seq<bool>, i: nat, k: nat)
    requires 0 < n && |starts| == |t| && Fits(starts, n)
    requires i <= k < |t|
    requires forall p :: 0 <= p <= k && starts[p] ==> p + n <= k
    ensures CensorScan(t, n, starts, i)[k - i] == t[k]
    decreases |t| - i
  {
    if i == k {
      ScanUnfoldCopy(t, n, starts, i);
    } else {
      var next := if starts[i] then i + n else i + 1;
      ScanKeepsUncovered(t, n, starts, next, k);
      ScanStep(t, n, starts, i, next, k, t[k]);
    }
  }

  /** A match keeps its first character (with its case) and has every other
      character turned into `*`. */
  lemma CensorTermMasksMatch(t: seq<char>, w: seq<char>, j: nat)
    requires IsTerm(w) && MatchAt(t, w, j)
    ensures CensorTerm(t, w)[j] == t[j]
    ensures forall k :: j < k < j + |w| ==> CensorTerm(t, w)[k] == '*'
  {
    var m := MatchTable(t, w);
    ScanMasksMatch(t, |w|, m, 0, j, j);
    forall k | j < k < j + |w|
      ensures CensorTerm(t, w)[k] == '*'
    {
      ScanMasksMatch(t, |w|, m, 0, j, k);
    }
  }

  /** A character outside every match is left as it is. */
  lemma CensorTermKeepsUnmatched(t: seq<char>, w: seq<char>, k: nat)
    requires IsTerm(w) && k < |t| && !Covered(t, w, k)
    ensures CensorTerm(t, w)[k] == t[k]
  {
    var m := MatchTable(t, w);
    forall p | 0 <= p <= k && m[p]
      ensures p + |w| <= k
    {
      if k < p + |w| {
        assert false;
      }
    }
    ScanKeepsUncovered(t, |w|, m, 0, k);
  }

  /** Every output character is the input character or an asterisk; the
      asterisks are exactly the non-first positions of matches. */
  lemma CensorTermAt(t: seq<char>, w: seq<char>, k: nat)
    requires IsTerm(w) && k < |t|
    ensures CensorTerm(t, w)[k] == t[k] || CensorTerm(t, w)[k] == '*'
    ensures CensorTerm(t, w)[k] != t[k] ==> Covered(t, w, k) && !MatchAt(t, w, k)
  {
    if Covered(t, w, k) {
      var j: nat :| j <= k < j + |w| && MatchAt(t, w, j);
      CensorTermMasksMatch(t, w, j);
      if MatchAt(t, w, k) && j != k {
        MatchesDisjoint(t, w, j, k);
      }
    } else {
      CensorTermKeepsUnmatched(t, w, k);
    }
  }

  /** No whole-word occurrence of the term: the text is returned unchanged. */
  lemma CensorTermNoMatch(t: seq<char>, w: seq<char>)
    requires IsTerm(w)
    requires forall j: nat :: !MatchAt(t, w, j)
    ensures CensorTerm(t, w) == t
  {
    forall k | 0 <= k < |t|
      ensures CensorTerm(t, w)[k] == t[k]
    {
      CensorTermKeepsUnmatched(t, w, k);
    }
  }

  /** A one-character term is replaced by itself: nothing changes. */
  lemma CensorTermSingleChar(t: seq<char>, w: seq<char>)
    requires IsTerm(w) && |w| == 1
    ensures CensorTerm(t, w) == t
  {
    forall k | 0 <= k < |t|
      ensures CensorTerm(t, w)[k] == t[k]
    {
      CensorTermAt(t, w, k);
    }
  }

  // ---------------------------------------------------------------------
  // The whole term list

  /** With no term matching anywhere, the filter is the identity; in
      particular with an empty term list. */
  lemma {:induction false} CensorBadWordsNoMatch(text: seq<char>, badWords: seq<seq<char>>)
    requires AllTerms(badWords)
    requires forall i, j: nat :: 0 <= i < |badWords| ==> !MatchAt(text, badWords[i], j)
    ensures CensorBadWords(text, badWords) == text
    decreases |badWords|
  {
    if badWords != [] {
      CensorTermNoMatch(text, badWords[0]);
      CensorBadWordsNoMatch(text, badWords[1..]);
    }
  }

  /** The terms are applied in sequence: filtering by `a + b` is filtering by
      `a`, then filtering that output by `b`. */
  lemma {:induction false} CensorBadWordsSequential(text: seq<char>, a: seq<seq<char>>, b: seq<seq<char>>)
    requires AllTerms(a) && AllTerms(b)
    ensures AllTerms(a + b)
    ensures CensorBadWords(text, a + b) == CensorBadWords(CensorBadWords(text, a), b)
    decreases |a|
  {
    assert AllTerms(a + b) by {
      forall i | 0 <= i < |a + b| ensures IsTerm((a + b)[i]) {
        if i < |a| { assert (a + b)[i] == a[i]; } else { assert (a + b)[i] == b[i - |a|]; }
      }
    }
    if a == [] {
      assert a + b == b;
    } else {
      assert (a + b)[0] == a[0];
      assert (a + b)[1..] == a[1..] + b;
      CensorBadWordsSequential(CensorTerm(text, a[0]), a[1..], b);
    }
  }

  /** The filter only ever writes asterisks: every output character is the
      input character at the same position or `*`. */
  lemma {:induction false} CensorBadWordsOnlyMasks(text: seq<char>, badWords: seq<seq<char>>, k: nat)
    requires AllTerms(badWords) && k < |text|
    ensures CensorBadWords(text, badWords)[k] == text[k] || CensorBadWords(text, badWords)[k] == '*'
    decreases |badWords|
  {
    if badWords != [] {
      var once := CensorTerm(text, badWords[0]);
      CensorTermAt(text, badWords[0], k);
      CensorBadWordsOnlyMasks(once, badWords[1..], k);
    }
  }

  // ---------------------------------------------------------------------
  // Concrete cases

  /** A term in the middle of a sentence is masked after its first letter. */
  lemma MaskedInSentence(t: seq<char>, w: seq<char>)
    requires t == "What the damn heck" && w == "damn"
    ensures CensorBadWords(t, [w]) == "What the d*** heck"
  {
    SentenceCensored(t, w);
    assert t[..10] == "What the d" && t[13..] == " heck";
    assert CensorBadWords(t, [w]) == CensorTerm(t, w);
  }

  lemma SentenceCensored(t: seq<char>, w: seq<char>)
    requires t == "What the damn heck" && w == "damn"
    ensures CensorTerm(t, w) == t[..10] + "***" + t[13..]
  {
    var expected := t[..10] + "***" + t[13..];
    SentenceHasOneMatch(t, w);
    CensorTermMasksMatch(t, w, 9);
    forall k | 0 <= k < |t|
      ensures CensorTerm(t, w)[k] == expected[k]
    {
      if k < 9 || 13 <= k {
        CensorTermKeepsUnmatched(t, w, k);
      }
    }
  }

  lemma SentenceHasOneMatch(t: seq<char>, w: seq<char>)
    requires t == "What the damn heck" && w == "damn"
    ensures MatchAt(t, w, 9)
    ensures forall j: nat :: j != 9 ==> !MatchAt(t, w, j)
  {
    forall j: nat | j != 9
      ensures !MatchAt(t, w, j)
    {
      if j < |t| {
        FirstLetterMismatch(t, w, j);
      }
    }
    assert MatchAt(t, w, 9);
  }

  /** A position whose character differs from the term's first letter (up to
      case) does not start a match. */
  lemma FirstLetterMismatch(t: seq<char>, w: seq<char>, j: nat)
    requires IsTerm(w) && j < |t| && FoldCase(t[j]) != FoldCase(w[0])
    ensures !MatchAt(t, w, j)
  {
    if j + |w| <= |t| {
      assert t[j..j + |w|][0] == t[j];
    }
  }

  /** A term is not matched inside a longer word. */
  lemma NotMatchedInsideWord()
    ensures CensorBadWords("category", ["cat"]) == "category"
  {
    var t := "category";
    forall j: nat ensures !MatchAt(t, "cat", j) {
      if 0 < j < |t| {
        assert WordCharBefore(t, j) && WordCharAt(t, j);
      } else if j == 0 {
        assert WordCharBefore(t, 3) && WordCharAt(t, 3);
      }
    }
    CensorBadWordsNoMatch(t, ["cat"]);
  }

  /** Matching ignores the case of the occurrence, and the kept first
      letter keeps its own case. */
  lemma MatchedWhateverTheCase()
    ensures CensorBadWords("DAMN", ["damn"]) == "D***"
  {
    assert MatchAt("DAMN", "damn", 0);
    CensorTermMasksMatch("DAMN", "damn", 0);
    assert CensorBadWords("DAMN", ["damn"]) == CensorTerm("DAMN", "damn");
  }

  /** Asterisks written for an earlier term form a word boundary that a later
      term can match: "x" is not a whole word of "xy", but it is one of the
      output of the pass for "xy". */
  lemma EarlierPassCreatesBoundary()
    ensures !MatchAt("xy", "x", 0)
    ensures CensorTerm("xy", "xy") == "x*"
    ensures MatchAt(CensorTerm("xy", "xy"), "x", 0)
  {
    assert WordCharAt("xy", 1) && WordCharBefore("xy", 1);
    assert MatchAt("xy", "xy", 0);
    CensorTermMasksMatch("xy", "xy", 0);
    assert CensorTerm("xy", "xy") == "x*";
  }

  /** The boundary an earlier pass creates matters only to one-character
      terms: a match that appears after a pass and was not in the input is
      for a term of length 1, which `CensorTermSingleChar` shows changes
      nothing. So each term masks exactly the whole-word occurrences it
      would mask on its own, up to the asterisks written before it. */
  lemma NewMatchOnlySingleChar(t: seq<char>, u: seq<char>, w: seq<char>, p: nat)
    requires IsTerm(u) && IsTerm(w)
    requires MatchAt(CensorTerm(t, u), w, p) && !MatchAt(t, w, p)
    ensures |w| == 1
  {
    var c := CensorTerm(t, u);
    var e := p + |w|;
    MatchIsWholeWord(c, w, p);
    forall k | p <= k < e
      ensures c[k] == t[k]
    {
      CensorTermAt(t, u, k);
    }
    assert c[p..e] == t[p..e];
    if |w| > 1 {
      if p > 0 {
        UnmaskedBeforeWord(t, u, p);
      }
      if e < |t| {
        UnmaskedAfterLongWord(t, u, e);
      }
      assert false;
    }
  }

  /** The character before a word character of a pass's output is the
      input's: a masked one would lie in a match of `u` that either still
      runs at `p` (so `p` would be `*`) or ends at `p` (so `p` would not be a
      word character). */
  lemma UnmaskedBeforeWord(t: seq<char>, u: seq<char>, p: nat)
    requires IsTerm(u) && 0 < p < |t| && IsWordChar(CensorTerm(t, u)[p])
    ensures CensorTerm(t, u)[p - 1] == t[p - 1]
  {
    CensorTermAt(t, u, p - 1);
    if CensorTerm(t, u)[p - 1] != t[p - 1] {
      var j: nat :| j <= p - 1 < j + |u| && MatchAt(t, u, j);
      NoWordCharAfterMasked(t, u, j, p);
      assert false;
    }
  }

  /** The character after two word characters of a pass's output is the
      input's: a masked one would lie in a match of `u` that covers `e`
      without starting there. */
  lemma UnmaskedAfterLongWord(t: seq<char>, u: seq<char>, e: nat)
    requires IsTerm(u) && 2 <= e < |t|
    requires IsWordChar(CensorTerm(t, u)[e - 2]) && IsWordChar(CensorTerm(t, u)[e - 1])
    ensures CensorTerm(t, u)[e] == t[e]
  {
    CensorTermAt(t, u, e);
    if CensorTerm(t, u)[e] != t[e] {
      var j: nat :| j <= e < j + |u| && MatchAt(t, u, j);
      NoWordPairBeforeMasked(t, u, j, e);
      assert false;
    }
  }

  /** After a masked position of a pass's output comes either another `*`
      or the non-word character that closes the match. */
  lemma NoWordCharAfterMasked(t: seq<char>, u: seq<char>, j: nat, p: nat)
    requires IsTerm(u) && MatchAt(t, u, j) && j < p <= j + |u| && p < |t|
    ensures !IsWordChar(CensorTerm(t, u)[p])
  {
    CensorTermMasksMatch(t, u, j);
    if p == j + |u| {
      MatchIsWholeWord(t, u, j);
      CensorTermAt(t, u, p);
    }
  }

  /** Before a masked position `e` of a pass's output, the two positions
      `e - 2` and `e - 1` are never both word characters: either `e - 1` is
      masked too, or the match starts at `e - 1` and `e - 2` is the non-word
      character before it. */
  lemma NoWordPairBeforeMasked(t: seq<char>, u: seq<char>, j: nat, e: nat)
    requires IsTerm(u) && MatchAt(t, u, j) && 2 <= e && j < e < j + |u|
    ensures !IsWordChar(CensorTerm(t, u)[e - 2]) || !IsWordChar(CensorTerm(t, u)[e - 1])
  {
    CensorTermMasksMatch(t, u, j);
    if j == e - 1 {
      MatchIsWholeWord(t, u, j);
      CensorTermAt(t, u, e - 2);
    }
  }
}
