/** The one pattern the response side matches against the `Set-Cookie` text:
    `/_session_id=([^;]+)/`, unanchored. The match is the leftmost position where
    `_session_id=` is followed by at least one character other than `;`; the captured
    group is the longest run of non-`;` characters from there. */
module SessionIdPattern {
  import opened Wrappers

  const Prefix: string := "_session_id="

  /** The pattern matches at position `i` of `s`. */
  predicate MatchesAt(s: string, i: nat) {
    i + |Prefix| < |s| && s[i..i + |Prefix|] == Prefix && s[i + |Prefix|] != ';'
  }

  /** `i` is the leftmost position at which the pattern matches. */
  predicate LeftmostMatch(s: string, i: nat) {
    MatchesAt(s, i) && forall j :: 0 <= j < i ==> !MatchesAt(s, j)
  }

  /** `v` is what `([^;]+)` captures when it starts at position `j` of `s`: a non-empty
      run of non-`;` characters that ends at a `;` or at the end of `s`. */
  predicate CaptureAt(s: string, j: nat, v: string) {
    && j + |v| <= |s| && s[j..j + |v|] == v
    && |v| > 0 && ';' !in v
    && (j + |v| == |s| || s[j + |v|] == ';')
  }

  /** End of the run of non-`;` characters that starts at `j`. */
  function RunEnd(s: string, j: nat): (e: nat)
    requires j <= |s|
    ensures j <= e <= |s|
    ensures forall k :: j <= k < e ==> s[k] != ';'
    ensures e == |s| || s[e] == ';'
    decreases |s| - j
  {
    if j == |s| || s[j] == ';' then j else RunEnd(s, j + 1)
  }

  /** The leftmost match at or after `from`. */
  function Search(s: string, from: nat): (r: Option<nat>)
    requires from <= |s|
    ensures r.Some? ==> from <= r.value && MatchesAt(s, r.value)
    ensures r.Some? ==> forall j :: from <= j < r.value ==> !MatchesAt(s, j)
    ensures r.None? ==> forall j :: from <= j ==> !MatchesAt(s, j)
    decreases |s| - from
  {
    if MatchesAt(s, from) then Some(from)
    else if from == |s| then None
    else Search(s, from + 1)
  }

  /** `s.match(/_session_id=([^;]+)/)[1]`, or `None` when there is no match. */
  function Match(s: string): (r: Option<string>)
    ensures r.Some? <==> exists i :: MatchesAt(s, i)
    ensures r.Some? ==> exists i: nat :: LeftmostMatch(s, i) && CaptureAt(s, i + |Prefix|, r.value)
    ensures r.Some? ==> |r.value| > 0 && ';' !in r.value
  {
    match Search(s, 0)
    case None => None
    case Some(i) =>
      var j := i + |Prefix|;
      var v := s[j..RunEnd(s, j)];
      assert forall k :: 0 <= k < |v| ==> v[k] == s[j + k];
      assert LeftmostMatch(s, i) && CaptureAt(s, j, v);
      Some(v)
  }

  // ---------------------------------------------------------------------------
  // Lemmas

  /** Only one position is the leftmost match. */
  lemma LeftmostUnique(s: string, i: nat, i': nat)
    requires LeftmostMatch(s, i) && LeftmostMatch(s, i')
    ensures i == i'
  {
  }

  /** A capture starting at a given position is determined by the text. */
  lemma CaptureUnique(s: string, j: nat, v: string, w: string)
    requires CaptureAt(s, j, v) && CaptureAt(s, j, w)
    ensures v == w
  {
    assert forall k :: 0 <= k < |v| ==> s[j + k] == v[k] && v[k] != ';';
    assert forall k :: 0 <= k < |w| ==> s[j + k] == w[k] && w[k] != ';';
    assert |v| == |w|;
  }

  /** The match is fully determined by a leftmost position and its capture. */
  lemma MatchIs(s: string, i: nat, v: string)
    requires LeftmostMatch(s, i) && CaptureAt(s, i + |Prefix|, v)
    ensures Match(s) == Some(v)
  {
    var r := Match(s);
    assert r.Some?;
    var i': nat :| LeftmostMatch(s, i') && CaptureAt(s, i' + |Prefix|, r.value);
    LeftmostUnique(s, i, i');
    CaptureUnique(s, i + |Prefix|, v, r.value);
  }

  /** Text without the prefix, or with it only right before a `;` or at the end,
      has no match. */
  lemma NoPrefixNoMatch(s: string)
    requires forall i :: !MatchesAt(s, i)
    ensures Match(s) == None
  {
  }
}
