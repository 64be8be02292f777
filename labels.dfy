/**
 * The label extractor: maps the free-text reply of the language model to one
 * label of a fixed, ordered set, or to the sentinel "unknown".
 *
 * A label is found when it occurs in the lower-cased reply as a whole word,
 * i.e. as the regular expression `\b<label>\b` would find it: every label
 * begins and ends with a word character, so the boundary before it holds when
 * it starts the text or follows a non-word character, and the boundary after
 * it when it ends the text or is followed by a non-word character.
 */
module LabelExtractor {
  import opened PyStr

  /** The categories, in the priority order in which they are searched. */
  const LABELS: seq<string> := ["toxic", "hate speech", "harassment", "violent threat", "safe"]

  /** The answer when no category is found. */
  const UNKNOWN: string := "unknown"

  /** Every string the extractor can return. */
  const OUTPUTS: seq<string> := LABELS + [UNKNOWN]

  /** `word` sits at index `i` of `t`, with a word boundary on each side. */
  predicate MatchesAt(word: string, t: string, i: nat) {
    && i + |word| <= |t|
    && t[i..i + |word|] == word
    && (i == 0 || !IsWordChar(t[i - 1]))
    && (i + |word| == |t| || !IsWordChar(t[i + |word|]))
  }

  /** `word` occurs in `t` as a whole word. */
  predicate OccursAsWord(word: string, t: string) {
    exists i: nat :: i <= |t| && MatchesAt(word, t, i)
  }

  /** The search for `\b<word>\b` in `t`, scanning start positions from `from`. */
  function Search(word: string, t: string, from: nat): (found: bool)
    requires from <= |t|
    ensures found <==> exists i: nat :: from <= i <= |t| && MatchesAt(word, t, i)
    decreases |t| - from
  {
    if MatchesAt(word, t, from) then true
    else if from == |t| then false
    else Search(word, t, from + 1)
  }

  /** Label `k` is the first label, in priority order, that occurs in `t`. */
  predicate IsFirstMatch(k: nat, t: string) {
    && k < |LABELS|
    && OccursAsWord(LABELS[k], t)
    && forall j :: 0 <= j < k ==> !OccursAsWord(LABELS[j], t)
  }

  /**
   * The priority-ordered scan over the labels from index `k`: the index of
   * the first label that occurs in `t`, or |LABELS| when none does.
   */
  function FirstMatch(t: string, k: nat): (m: nat)
    requires k <= |LABELS|
    ensures k <= m <= |LABELS|
    ensures m < |LABELS| ==> OccursAsWord(LABELS[m], t)
    ensures forall j :: k <= j < m ==> !OccursAsWord(LABELS[j], t)
    decreases |LABELS| - k
  {
    if k == |LABELS| then k
    else if Search(LABELS[k], t, 0) then k
    else FirstMatch(t, k + 1)
  }

  /** `extract_label`: the empty (or absent) reply gives "unknown". */
  function ExtractLabel(text: string): (r: string)
    ensures r in OUTPUTS
    ensures text == [] ==> r == UNKNOWN
    ensures r == UNKNOWN <==>
      forall j :: 0 <= j < |LABELS| ==> !OccursAsWord(LABELS[j], LowerStr(text))
    ensures forall k :: 0 <= k < |LABELS| && r == LABELS[k] ==> IsFirstMatch(k, LowerStr(text))
  {
    if text == [] then UNKNOWN
    else
      var m := FirstMatch(LowerStr(text), 0);
      if m < |LABELS| then LABELS[m] else UNKNOWN
  }

  /** The labels are distinct and differ from the sentinel. */
  lemma LabelsDistinct()
    ensures forall i, j :: 0 <= i < j < |OUTPUTS| ==> OUTPUTS[i] != OUTPUTS[j]
  {
  }

  /** No label occurs in the empty text. */
  lemma NoLabelInEmpty()
    ensures forall j :: 0 <= j < |LABELS| ==> !OccursAsWord(LABELS[j], [])
  {
    assert forall j :: 0 <= j < |LABELS| ==> |LABELS[j]| > 0;
  }

  /** The extractor only looks at the lower-cased text, whatever the input. */
  lemma ExtractIsScanOfLowered(text: string)
    ensures ExtractLabel(text) ==
      var m := FirstMatch(LowerStr(text), 0);
      if m < |LABELS| then LABELS[m] else UNKNOWN
  {
    if text == [] {
      NoLabelInEmpty();
      assert LowerStr(text) == [];
    }
  }

  /** Matching is case-insensitive: lower-casing the reply first changes nothing. */
  lemma ExtractCaseInsensitive(text: string)
    ensures ExtractLabel(LowerStr(text)) == ExtractLabel(text)
  {
    ExtractIsScanOfLowered(text);
    ExtractIsScanOfLowered(LowerStr(text));
    LowerStrIdempotent(text);
  }

  /** When label `j` occurs, no label of lower priority than `j` is returned. */
  lemma EarlierLabelWins(text: string, j: nat, k: nat)
    requires j < k < |LABELS|
    requires OccursAsWord(LABELS[j], LowerStr(text))
    ensures ExtractLabel(text) != LABELS[k]
  {
  }

  /** When label `k` occurs, the result is label `k` or one of higher priority. */
  lemma ExtractFindsOccurring(text: string, k: nat)
    requires k < |LABELS|
    requires OccursAsWord(LABELS[k], LowerStr(text))
    ensures ExtractLabel(text) in LABELS[..k + 1]
  {
    LabelsDistinct();
    var r := ExtractLabel(text);
    assert r != UNKNOWN;
    var m :| 0 <= m < |LABELS| && r == LABELS[m];
    assert IsFirstMatch(m, LowerStr(text));
    assert r == LABELS[..k + 1][m];
  }

  /** A word glued between two non-word characters (or text ends) occurs, in any letter case. */
  lemma EmbeddedWordOccurs(a: string, w: string, b: string, word: string)
    requires LowerStr(w) == word
    requires a == [] || !IsWordChar(a[|a| - 1])
    requires b == [] || !IsWordChar(b[0])
    ensures OccursAsWord(word, LowerStr(a + w + b))
  {
    var t := LowerStr(a + w + b);
    LowerStrConcat(a + w, b);
    LowerStrConcat(a, w);
    assert t == LowerStr(a) + word + LowerStr(b);
    var i: nat := |a|;
    assert t[i..i + |word|] == word;
    assert i == 0 || t[i - 1] == Lower(a[|a| - 1]);
    assert i + |word| == |t| || t[i + |word|] == Lower(b[0]);
    assert MatchesAt(word, t, i);
  }

  /**
   * A label embedded as a standalone word, in any letter case, is found:
   * the result is that label or one of higher priority.
   */
  lemma EmbeddedLabelFound(a: string, w: string, b: string, k: nat)
    requires k < |LABELS|
    requires LowerStr(w) == LABELS[k]
    requires a == [] || !IsWordChar(a[|a| - 1])
    requires b == [] || !IsWordChar(b[0])
    ensures ExtractLabel(a + w + b) in LABELS[..k + 1]
  {
    EmbeddedWordOccurs(a, w, b, LABELS[k]);
    ExtractFindsOccurring(a + w + b, k);
  }

  /**
   * A label embedded as a standalone word, in any letter case, in text where
   * no label of higher priority occurs, is exactly what is extracted.
   */
  lemma EmbeddedLabelExact(a: string, w: string, b: string, k: nat)
    requires k < |LABELS|
    requires LowerStr(w) == LABELS[k]
    requires a == [] || !IsWordChar(a[|a| - 1])
    requires b == [] || !IsWordChar(b[0])
    requires forall j :: 0 <= j < k ==> !OccursAsWord(LABELS[j], LowerStr(a + w + b))
    ensures ExtractLabel(a + w + b) == LABELS[k]
  {
    var text := a + w + b;
    EmbeddedLabelFound(a, w, b, k);
    var r := ExtractLabel(text);
    var m :| 0 <= m <= k && r == LABELS[..k + 1][m];
    assert r == LABELS[m];
    assert IsFirstMatch(m, LowerStr(text));
    assert m == k;
  }

  /** A typical reply that names a label as a word is classified "toxic". */
  lemma ExtractQuotedReply()
    ensures ExtractLabel("This text is classified as: toxic.") == "toxic"
  {
    var a, w, b := "This text is classified as: ", "toxic", ".";
    assert LowerStr(w) == w;
    assert a + w + b == "This text is classified as: toxic.";
    EmbeddedLabelFound(a, w, b, 0);
  }

  /** With both "safe" and "toxic" present as words, the earlier "toxic" wins. */
  lemma ExtractPriorityExample()
    ensures ExtractLabel("SAFE, or maybe Toxic") == "toxic"
  {
    var a, w, b := "SAFE, or maybe ", "Toxic", "";
    assert LowerStr(w) == "toxic";
    assert a + w + b == "SAFE, or maybe Toxic";
    EmbeddedLabelFound(a, w, b, 0);
  }

  /**
   * `word` does not occur in `t` when every place where its first letter
   * appears is either too close to the end or glued to a word character.
   */
  lemma NoOccurrence(word: string, t: string)
    requires |word| > 0
    requires forall i :: 0 <= i < |t| && t[i] == word[0] ==>
      i + |word| > |t| || (i > 0 && IsWordChar(t[i - 1])) || (i + |word| < |t| && IsWordChar(t[i + |word|]))
    ensures !OccursAsWord(word, t)
  {
    forall i: nat | i <= |t| ensures !MatchesAt(word, t, i) {
      if i + |word| <= |t| {
        assert t[i..i + |word|][0] == t[i];
      }
    }
  }

  /** A label that only appears inside a longer word is not a match. */
  lemma ExtractNotInsideWords()
    ensures ExtractLabel("toxicity") == UNKNOWN
    ensures ExtractLabel("unsafe") == UNKNOWN
  {
    var t1, t2 := "toxicity", "unsafe";
    assert LowerStr(t1) == t1;
    assert LowerStr(t2) == t2;
    forall j | 0 <= j < |LABELS| ensures !OccursAsWord(LABELS[j], t1) && !OccursAsWord(LABELS[j], t2) {
      NoOccurrence(LABELS[j], t1);
      NoOccurrence(LABELS[j], t2);
    }
  }

  /** Every answer of the extractor is already in lower case. */
  lemma OutputsAreLowerCase()
    ensures forall k :: 0 <= k < |OUTPUTS| ==> LowerStr(OUTPUTS[k]) == OUTPUTS[k]
  {
    forall k | 0 <= k < |OUTPUTS| ensures LowerStr(OUTPUTS[k]) == OUTPUTS[k] {
      LowerStrNoUpper(OUTPUTS[k]);
    }
  }

  /** A label none of whose predecessors occurs in it is extracted from itself. */
  lemma ExtractOwnLabel(k: nat)
    requires k < |LABELS|
    requires forall j :: 0 <= j < k ==> !OccursAsWord(LABELS[j], LABELS[k])
    ensures ExtractLabel(LABELS[k]) == LABELS[k]
  {
    var o := LABELS[k];
    OutputsAreLowerCase();
    assert LowerStr(o) == o by { assert OUTPUTS[k] == o; }
    assert MatchesAt(o, o, 0) by { assert o[0..|o|] == o; }
    var r := ExtractLabel(o);
    assert r != UNKNOWN;
    var m :| 0 <= m < |LABELS| && r == LABELS[m];
    assert IsFirstMatch(m, o);
    assert m == k;
  }

  /** No label occurs, as a word, in a label of lower priority. */
  lemma EarlierLabelsAbsent(k: nat)
    requires k < |LABELS|
    ensures forall j :: 0 <= j < k ==> !OccursAsWord(LABELS[j], LABELS[k])
  {
    forall j | 0 <= j < k ensures !OccursAsWord(LABELS[j], LABELS[k]) {
      NoOccurrence(LABELS[j], LABELS[k]);
    }
  }

  /** No label occurs, as a word, in the sentinel. */
  lemma NoLabelInUnknown()
    ensures forall j :: 0 <= j < |LABELS| ==> !OccursAsWord(LABELS[j], UNKNOWN)
  {
    forall j | 0 <= j < |LABELS| ensures !OccursAsWord(LABELS[j], UNKNOWN) {
      NoOccurrence(LABELS[j], UNKNOWN);
    }
  }

  /** Applied to one of its own answers, the extractor returns that answer. */
  lemma ExtractFixesOutputs()
    ensures forall k :: 0 <= k < |OUTPUTS| ==> ExtractLabel(OUTPUTS[k]) == OUTPUTS[k]
  {
    forall k | 0 <= k < |OUTPUTS| ensures ExtractLabel(OUTPUTS[k]) == OUTPUTS[k] {
      if k < |LABELS| {
        EarlierLabelsAbsent(k);
        ExtractOwnLabel(k);
        assert OUTPUTS[k] == LABELS[k];
      } else {
        NoLabelInUnknown();
        OutputsAreLowerCase();
        assert OUTPUTS[k] == UNKNOWN;
      }
    }
  }

  /** Extracting twice gives the same label as extracting once. */
  lemma ExtractIdempotent(text: string)
    ensures ExtractLabel(ExtractLabel(text)) == ExtractLabel(text)
  {
    ExtractFixesOutputs();
    var r := ExtractLabel(text);
    var k :| 0 <= k < |OUTPUTS| && r == OUTPUTS[k];
  }

  /** Every label begins and ends with a word character. */
  lemma LabelsWordBounded()
    ensures forall k :: 0 <= k < |LABELS| ==>
      |LABELS[k]| > 0 && IsWordChar(LABELS[k][0]) && IsWordChar(LABELS[k][|LABELS[k]| - 1])
  {
  }

  /** A slice of the middle part of `p + u + q`, read in the middle part. */
  lemma MiddleSlice(p: string, u: string, q: string, i: nat, n: nat)
    requires i + n <= |u|
    ensures (p + u + q)[|p| + i..|p| + i + n] == u[i..i + n]
  {
    var t := p + u + q;
    var w := t[|p| + i..|p| + i + n];
    forall k | 0 <= k < n ensures w[k] == u[i..i + n][k] {
      assert w[k] == t[|p| + i + k];
    }
  }

  /** The characters of `p + u + q` outside the middle part are whitespace. */
  lemma PaddingIsSpace(p: string, u: string, q: string)
    requires AllSpace(p) && AllSpace(q)
    ensures forall k :: 0 <= k < |p| ==> IsSpace((p + u + q)[k])
    ensures forall k :: |p| + |u| <= k < |p| + |u| + |q| ==> IsSpace((p + u + q)[k])
  {
    var t := p + u + q;
    assert forall k :: 0 <= k < |p| ==> t[k] == p[k];
    assert forall k :: |p| + |u| <= k < |t| ==> t[k] == q[k - |p| - |u|];
  }

  /** A whole-word occurrence in `u` is still one once `u` is padded with whitespace. */
  lemma OccursInPadded(word: string, p: string, u: string, q: string)
    requires AllSpace(p) && AllSpace(q)
    requires OccursAsWord(word, u)
    ensures OccursAsWord(word, p + u + q)
  {
    var t := p + u + q;
    var n := |word|;
    var i: nat :| i <= |u| && MatchesAt(word, u, i);
    var i': nat := |p| + i;
    MiddleSlice(p, u, q, i, n);
    PaddingIsSpace(p, u, q);
    if i' > 0 && i > 0 {
      assert t[i' - 1] == u[i - 1];
    }
    if i' + n < |t| && i + n < |u| {
      assert t[i' + n] == u[i + n];
    }
    assert MatchesAt(word, t, i');
  }

  /**
   * A whole-word occurrence in `u` padded with whitespace lies inside `u`,
   * when the word begins and ends with word characters.
   */
  lemma OccursInCore(word: string, p: string, u: string, q: string)
    requires |word| > 0 && IsWordChar(word[0]) && IsWordChar(word[|word| - 1])
    requires AllSpace(p) && AllSpace(q)
    requires OccursAsWord(word, p + u + q)
    ensures OccursAsWord(word, u)
  {
    var t := p + u + q;
    var n := |word|;
    var i': nat :| i' <= |t| && MatchesAt(word, t, i');
    assert !IsSpace(t[i']) by { assert t[i'..i' + n][0] == t[i']; }
    assert !IsSpace(t[i' + n - 1]) by { assert t[i'..i' + n][n - 1] == t[i' + n - 1]; }
    PaddingIsSpace(p, u, q);
    assert |p| <= i' && i' + n <= |p| + |u|;
    var i: nat := i' - |p|;
    MiddleSlice(p, u, q, i, n);
    if i > 0 {
      assert u[i - 1] == t[i' - 1];
    }
    if i + n < |u| {
      assert u[i + n] == t[i' + n];
    }
    assert MatchesAt(word, u, i);
  }

  /** The priority scan only depends on which labels occur. */
  lemma {:induction false} FirstMatchSameOccurrences(t1: string, t2: string, k: nat)
    requires k <= |LABELS|
    requires forall j :: k <= j < |LABELS| ==> (OccursAsWord(LABELS[j], t1) <==> OccursAsWord(LABELS[j], t2))
    ensures FirstMatch(t1, k) == FirstMatch(t2, k)
    decreases |LABELS| - k
  {
    if k < |LABELS| {
      FirstMatchSameOccurrences(t1, t2, k + 1);
    }
  }

  /** A label occurs in `u` exactly when it occurs in `u` padded with whitespace. */
  lemma LabelsIgnorePadding(p: string, u: string, q: string)
    requires AllSpace(p) && AllSpace(q)
    ensures forall j :: 0 <= j < |LABELS| ==>
      (OccursAsWord(LABELS[j], p + u + q) <==> OccursAsWord(LABELS[j], u))
  {
    LabelsWordBounded();
    forall j | 0 <= j < |LABELS| ensures OccursAsWord(LABELS[j], p + u + q) <==> OccursAsWord(LABELS[j], u) {
      if OccursAsWord(LABELS[j], u) {
        OccursInPadded(LABELS[j], p, u, q);
      }
      if OccursAsWord(LABELS[j], p + u + q) {
        OccursInCore(LABELS[j], p, u, q);
      }
    }
  }

  /**
   * Whitespace before and after the reply never changes the label, so the
   * handler's stripping of the reply does not affect the classification.
   */
  lemma ExtractIgnoresSurroundingSpace(p: string, r: string, q: string)
    requires AllSpace(p) && AllSpace(q)
    ensures ExtractLabel(p + r + q) == ExtractLabel(r)
  {
    var t1 := LowerStr(p + r + q);
    var t2 := LowerStr(r);
    assert t1 == p + t2 + q by {
      LowerStrConcat(p + r, q);
      LowerStrConcat(p, r);
      LowerStrAllSpace(p);
      LowerStrAllSpace(q);
    }
    LabelsIgnorePadding(p, t2, q);
    FirstMatchSameOccurrences(t1, t2, 0);
    ExtractIsScanOfLowered(p + r + q);
    ExtractIsScanOfLowered(r);
  }

  /** Extracting from the stripped text gives the same label as from the raw text. */
  lemma ExtractStripInvariant(text: string)
    ensures ExtractLabel(Strip(text)) == ExtractLabel(text)
  {
    var i := SkipSpace(text, 0);
    var j := SkipSpaceBack(text, i, |text|);
    var p, r, q := text[..i], text[i..j], text[j..];
    assert Strip(text) == r;
    assert AllSpace(p) && AllSpace(q);
    assert text == p + r + q;
    ExtractIgnoresSurroundingSpace(p, r, q);
  }
}
