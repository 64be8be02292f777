/**
 * The four Python string primitives the classifier relies on, restricted to
 * ASCII: the regex word class `\w`, `str.lower()`, `str.isspace()` and
 * `str.strip()`.
 */
module PyStr {

  /** `\w` over ASCII: letters, digits and the underscore. */
  predicate IsWordChar(c: char) {
    ('a' <= c <= 'z') || ('A' <= c <= 'Z') || ('0' <= c <= '9') || c == '_'
  }

  /** The characters for which Python's `str.isspace()` holds, within ASCII. */
  predicate IsSpace(c: char) {
    c == ' ' || ('\t' <= c <= '\r') || ('\U{1C}' <= c <= '\U{1F}')
  }

  predicate AllSpace(s: string) {
    forall i :: 0 <= i < |s| ==> IsSpace(s[i])
  }

  /** ASCII lower-casing of one character; every other character is kept. */
  function Lower(c: char): (d: char)
    ensures IsWordChar(d) <==> IsWordChar(c)
    ensures IsSpace(d) <==> IsSpace(c)
    ensures !('A' <= d <= 'Z')
    ensures !('A' <= c <= 'Z') ==> d == c
    ensures 'A' <= c <= 'Z' ==> d as int - 'a' as int == c as int - 'A' as int
  {
    if 'A' <= c <= 'Z' then (c as int - 'A' as int + 'a' as int) as char else c
  }

  /** `s.lower()`: character-wise, so the length is kept. */
  function LowerStr(s: string): (r: string)
    ensures |r| == |s|
    ensures forall i :: 0 <= i < |s| ==> r[i] == Lower(s[i])
    ensures forall i :: 0 <= i < |s| && 'A' <= s[i] <= 'Z' ==> r[i] as int - 'a' as int == s[i] as int - 'A' as int
    ensures forall i :: 0 <= i < |s| && !('A' <= s[i] <= 'Z') ==> r[i] == s[i]
    ensures forall i :: 0 <= i < |s| ==> (IsWordChar(r[i]) <==> IsWordChar(s[i])) && (IsSpace(r[i]) <==> IsSpace(s[i]))
  {
    seq(|s|, i requires 0 <= i < |s| => Lower(s[i]))
  }

  /** Lower-casing is idempotent. */
  lemma LowerStrIdempotent(s: string)
    ensures LowerStr(LowerStr(s)) == LowerStr(s)
  {
    var t := LowerStr(s);
    assert forall i :: 0 <= i < |t| ==> Lower(t[i]) == t[i];
  }

  /** Text without upper-case letters is its own lower case. */
  lemma LowerStrNoUpper(s: string)
    requires forall i :: 0 <= i < |s| ==> !('A' <= s[i] <= 'Z')
    ensures LowerStr(s) == s
  {
  }

  /** Lower-casing distributes over concatenation. */
  lemma LowerStrConcat(a: string, b: string)
    ensures LowerStr(a + b) == LowerStr(a) + LowerStr(b)
  {
    assert forall i :: 0 <= i < |a + b| ==>
      LowerStr(a + b)[i] == (LowerStr(a) + LowerStr(b))[i];
  }

  /** Whitespace has no upper case, so lower-casing leaves it alone. */
  lemma LowerStrAllSpace(s: string)
    requires AllSpace(s)
    ensures LowerStr(s) == s
  {
    assert forall i :: 0 <= i < |s| ==> LowerStr(s)[i] == s[i];
  }

  /** Index of the first non-whitespace character at or after `i`. */
  function SkipSpace(s: string, i: nat): (k: nat)
    requires i <= |s|
    ensures i <= k <= |s|
    ensures forall j :: i <= j < k ==> IsSpace(s[j])
    ensures k == |s| || !IsSpace(s[k])
    decreases |s| - i
  {
    if i < |s| && IsSpace(s[i]) then SkipSpace(s, i + 1) else i
  }

  /** Index just past the last non-whitespace character of `s[lo..]`. */
  function SkipSpaceBack(s: string, lo: nat, j: nat): (k: nat)
    requires lo <= j <= |s|
    ensures lo <= k <= j
    ensures forall m :: k <= m < j ==> IsSpace(s[m])
    ensures k == lo || !IsSpace(s[k - 1])
    decreases j - lo
  {
    if lo < j && IsSpace(s[j - 1]) then SkipSpaceBack(s, lo, j - 1) else j
  }

  /** `s.strip()`: `s` with its leading and trailing whitespace removed. */
  function Strip(s: string): (r: string)
    ensures exists i, j :: 0 <= i <= j <= |s| && r == s[i..j]
                           && AllSpace(s[..i]) && AllSpace(s[j..])
    ensures r == [] || (!IsSpace(r[0]) && !IsSpace(r[|r| - 1]))
    ensures r == [] <==> AllSpace(s)
  {
    var i := SkipSpace(s, 0);
    var j := SkipSpaceBack(s, i, |s|);
    assert AllSpace(s[..i]) && AllSpace(s[j..]);
    s[i..j]
  }

  /** Stripping a second time changes nothing. */
  lemma StripIdempotent(s: string)
    ensures Strip(Strip(s)) == Strip(s)
  {
    var r := Strip(s);
    var i := SkipSpace(r, 0);
    assert i == 0;
    var j := SkipSpaceBack(r, i, |r|);
    assert j == |r|;
    assert r[i..j] == r;
  }

  /** Stripping `p + r + q` with whitespace-only `p`, `q` and a stripped `r` gives `r`. */
  lemma StripSurrounded(p: string, r: string, q: string)
    requires AllSpace(p) && AllSpace(q)
    requires r == [] || (!IsSpace(r[0]) && !IsSpace(r[|r| - 1]))
    ensures Strip(p + r + q) == r
  {
    var s := p + r + q;
    if r == [] {
      assert AllSpace(s) by {
        forall k | 0 <= k < |s| ensures IsSpace(s[k]) {
          if k < |p| { assert s[k] == p[k]; } else { assert s[k] == q[k - |p|]; }
        }
      }
    } else {
      assert forall k :: 0 <= k < |p| ==> s[k] == p[k];
      assert s[|p|] == r[0];
      var i := SkipSpace(s, 0);
      assert i == |p|;
      assert forall k :: |p| + |r| <= k < |s| ==> s[k] == q[k - |p| - |r|];
      assert s[|p| + |r| - 1] == r[|r| - 1];
      var j := SkipSpaceBack(s, i, |s|);
      assert j == |p| + |r|;
      assert s[i..j] == r;
    }
  }

  /** Concatenating whitespace-only strings gives a whitespace-only string. */
  lemma AllSpaceConcat(a: string, b: string)
    requires AllSpace(a) && AllSpace(b)
    ensures AllSpace(a + b)
  {
    assert forall k :: 0 <= k < |a| ==> (a + b)[k] == a[k];
    assert forall k :: |a| <= k < |a + b| ==> (a + b)[k] == b[k - |a|];
  }

  /** Regrouping a five-part concatenation. */
  lemma Regroup(p: string, a: string, t: string, b: string, q: string)
    ensures p + (a + t + b) + q == (p + a) + t + (b + q)
  {
    assert p + (a + t + b) + q == ((p + a) + t) + (b + q);
  }

  /** A string is its leading whitespace, its stripped form and its trailing whitespace. */
  lemma StripSplit(s: string) returns (lead: string, trail: string)
    ensures AllSpace(lead) && AllSpace(trail)
    ensures s == lead + Strip(s) + trail
  {
    var i := SkipSpace(s, 0);
    var j := SkipSpaceBack(s, i, |s|);
    lead, trail := s[..i], s[j..];
    assert Strip(s) == s[i..j];
    assert lead + s[i..j] == s[..j];
  }

  /** Extra whitespace around a string does not change what stripping it gives. */
  lemma StripPadded(p: string, s: string, q: string)
    requires AllSpace(p) && AllSpace(q)
    ensures Strip(p + s + q) == Strip(s)
  {
    var t := Strip(s);
    var lead, trail := StripSplit(s);
    AllSpaceConcat(p, lead);
    AllSpaceConcat(trail, q);
    Regroup(p, lead, t, trail, q);
    StripSurrounded(p + lead, t, trail + q);
  }
}
