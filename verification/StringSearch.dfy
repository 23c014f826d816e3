/** Substring search: brute force on short texts, Boyer-Moore-Horspool on longer ones. */
module StringSearch {
  import opened Bits

  predicate MatchAt(text: seq<byte>, pat: seq<byte>, i: int) {
    0 <= i <= |text| - |pat| && text[i..i + |pat|] == pat
  }

  /** r is the least match at or after start, or -1 when there is none. */
  ghost predicate FirstMatch(text: seq<byte>, pat: seq<byte>, start: nat, r: int) {
    if r == -1 then forall i :: start <= i ==> !MatchAt(text, pat, i)
    else start <= r && MatchAt(text, pat, r) && forall i :: start <= i < r ==> !MatchAt(text, pat, i)
  }

  /** What a caller of indexOf gets: an empty pattern is found at 0 wherever the search starts. */
  ghost predicate IndexOfResult(text: seq<byte>, pat: seq<byte>, start: nat, r: int) {
    if pat == [] then r == 0 else FirstMatch(text, pat, start, r)
  }

  lemma FirstMatchUnique(text: seq<byte>, pat: seq<byte>, start: nat, r: int, q: int)
    requires FirstMatch(text, pat, start, r) && FirstMatch(text, pat, start, q)
    ensures r == q
  {
    assert r == -1 || MatchAt(text, pat, r);
    assert q == -1 || MatchAt(text, pat, q);
  }

  lemma NoMatch(text: seq<byte>, pat: seq<byte>, i: nat, j: nat)
    requires i + |pat| <= |text| && j < |pat| && text[i + j] != pat[j]
    ensures !MatchAt(text, pat, i)
  {
    assert text[i..i + |pat|][j] == text[i + j];
  }

  /** The answer for an empty pattern is the first match at or after the start only for a start of 0. */
  lemma EmptyPattern(text: seq<byte>, start: nat)
    ensures FirstMatch(text, [], start, 0) <==> start == 0
  {
    assert MatchAt(text, [], 0);
  }

  /** The branch for fewer than 256 characters. */
  method BruteForce(text: seq<byte>, pat: seq<byte>, start: nat) returns (r: int)
    requires start <= |text| && 0 < |pat| <= |text| - start
    ensures FirstMatch(text, pat, start, r)
  {
    var i := start;
    while i < |text| - |pat| + 1
      invariant start <= i <= |text| - |pat| + 1
      invariant forall k :: start <= k < i ==> !MatchAt(text, pat, k)
    {
      var match_ := true;
      var j := 0;
      while match_ && j < |pat|
        invariant 0 <= j <= |pat|
        invariant if match_ then text[i..i + j] == pat[..j] else !MatchAt(text, pat, i)
      {
        if text[i + j] != pat[j] {
          match_ := false;
          NoMatch(text, pat, i, j);
        } else {
          assert text[i..i + j + 1] == text[i..i + j] + [text[i + j]];
          assert pat[..j + 1] == pat[..j] + [pat[j]];
        }
        j := j + 1;
      }
      if match_ {
        assert pat[..|pat|] == pat;
        return i;
      }
      i := i + 1;
    }
    return -1;
  }

  /** The distance from the last occurrence of c in the pattern, its last place not counted, to that last place. */
  ghost predicate SkipFor(pat: seq<byte>, n: nat, c: byte, d: nat)
    requires n < |pat|
  {
    && 1 <= d <= |pat|
    && (d < |pat| ==> |pat| - 1 - d < n && pat[|pat| - 1 - d] == c)
    && forall k :: |pat| - 1 - d < k < n ==> pat[k] != c
  }

  /** A skip passes over no match: a match less than d further on would need the same character nearer to the end. */
  lemma SkipsNoMatch(text: seq<byte>, pat: seq<byte>, at: nat, d: nat, k: nat)
    requires |pat| > 0 && at + |pat| <= |text|
    requires SkipFor(pat, |pat| - 1, text[at + |pat| - 1], d)
    requires at < k < at + d
    ensures !MatchAt(text, pat, k)
  {
    var j := at + |pat| - 1 - k;
    assert pat[j] != text[k + j];
    if k + |pat| <= |text| {
      NoMatch(text, pat, k, j);
    }
  }

  /** The 32-bit counter that fills the skip table up to the last index of a pattern gets there exactly below 2^32. */
  lemma CounterEnds(endIndex: nat)
    ensures (exists n: nat :: Uint32(n) >= endIndex) <==> endIndex <= UINT32_MAX
  {
    if endIndex <= UINT32_MAX {
      Uint32Value(endIndex);
      assert Uint32(endIndex) >= endIndex;
    }
  }

  /** The branch for longer texts. */
  method Horspool(text: seq<byte>, pat: seq<byte>, start: nat) returns (r: int)
    requires start <= |text| && 0 < |pat| <= |text| - start
    ensures FirstMatch(text, pat, start, r)
  {
    var endIndex := |pat| - 1;
    var badCharSkip := new nat[256];
    for i := 0 to 256
      invariant forall c: byte :: c < i ==> badCharSkip[c] == |pat|
    {
      badCharSkip[i] := |pat|;
    }
    for i := 0 to endIndex
      invariant forall c: byte :: SkipFor(pat, i, c, badCharSkip[c])
    {
      badCharSkip[pat[i]] := endIndex - i;
    }
    ghost var skip := badCharSkip[..];
    var searchPtr := start;
    while searchPtr <= |text| - |pat|
      invariant start <= searchPtr && badCharSkip[..] == skip
      invariant forall k :: start <= k < searchPtr ==> !MatchAt(text, pat, k)
      decreases |text| - searchPtr
    {
      var scan := endIndex;
      while text[searchPtr + scan] == pat[scan]
        invariant 0 <= scan <= endIndex
        invariant forall k :: scan < k <= endIndex ==> text[searchPtr + k] == pat[k]
        decreases scan
      {
        if scan == 0 {
          assert text[searchPtr..searchPtr + |pat|] == pat;
          return searchPtr;
        }
        scan := scan - 1;
      }
      NoMatch(text, pat, searchPtr, scan);
      var d := badCharSkip[text[searchPtr + endIndex]];
      assert d == skip[text[searchPtr + endIndex]];
      forall k | searchPtr < k < searchPtr + d
        ensures !MatchAt(text, pat, k)
      {
        SkipsNoMatch(text, pat, searchPtr, d, k);
      }
      searchPtr := searchPtr + d;
    }
    return -1;
  }

  /** indexOf(StringRef, size_t). */
  method IndexOf(text: seq<byte>, pat: seq<byte>, startIndex: nat) returns (r: int)
    requires startIndex <= |text|
    ensures IndexOfResult(text, pat, startIndex, r)
  {
    if |pat| == 0 {
      return 0;
    }
    var searchLen := |text| - startIndex;
    if |pat| > searchLen {
      return -1;
    }
    if searchLen < 256 {
      r := BruteForce(text, pat, startIndex);
    } else {
      r := Horspool(text, pat, startIndex);
    }
  }
}
