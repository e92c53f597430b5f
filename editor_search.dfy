/** Conversions between char and byte offsets of a UTF-8 string
    (crates/editor/src/search.rs), and the search types. Byte offsets are those of the
    string's UTF-8 encoding: a char boundary is the byte length of a prefix. */
module EditorSearch {
  import opened RustStr

  datatype SearchDirection = Forward | Backward

  datatype SearchQuery = SearchQuery(needle: seq<char>, caseSensitive: bool)

  datatype SearchMatch = SearchMatch(startChar: nat, endChar: nat)

  /** The byte length of a prefix grows by the width of the next char. */
  lemma ByteLenPrefixStep(s: seq<char>, k: nat)
    requires 0 < k <= |s|
    ensures ByteLen(s[..k]) == ByteLen(s[..k - 1]) + Utf8Len(s[k - 1])
  {
    assert s[..k][..k - 1] == s[..k - 1];
  }

  /** Longer prefixes are at least one byte longer per extra char. */
  lemma {:induction false} ByteLenPrefixMono(s: seq<char>, i: nat, j: nat)
    requires i <= j <= |s|
    ensures ByteLen(s[..i]) + (j - i) <= ByteLen(s[..j])
    decreases j - i
  {
    if i < j {
      ByteLenPrefixMono(s, i, j - 1);
      ByteLenPrefixStep(s, j);
    }
  }

  /** `b` is the byte offset of a char boundary of `s`. */
  predicate IsCharBoundary(s: seq<char>, b: nat)
  {
    exists k :: 0 <= k <= |s| && ByteLen(s[..k]) == b
  }

  /** The byte offset of char `k`, `str::len` for any `k` at or past the char count. */
  function ByteOffset(s: seq<char>, k: nat): nat
  {
    ByteLen(s[..Min(k, |s|)])
  }

  /** `char_to_byte_idx`: walk the chars counting them; the byte offset of the char
      numbered `charIdx`, or the byte length when there are not that many. */
  method CharToByteIdx(s: seq<char>, charIdx: nat) returns (b: nat)
    ensures b == ByteOffset(s, charIdx)
    ensures charIdx >= |s| ==> b == ByteLen(s)
  {
    var cur := 0;
    b := 0;
    while cur < |s|
      invariant cur <= |s| && cur <= charIdx
      invariant b == ByteLen(s[..cur])
    {
      if cur == charIdx {
        return b;
      }
      ByteLenPrefixStep(s, cur + 1);
      b := b + Utf8Len(s[cur]);
      cur := cur + 1;
    }
    assert s[..|s|] == s;
  }

  /** The offset of char 0 is 0, every offset is a char boundary within the string, and
      offsets grow with the char index. */
  lemma ByteOffsetProperties(s: seq<char>, k: nat, k2: nat)
    requires k <= k2
    ensures ByteOffset(s, 0) == 0
    ensures IsCharBoundary(s, ByteOffset(s, k)) && ByteOffset(s, k) <= ByteLen(s)
    ensures ByteOffset(s, k) <= ByteOffset(s, k2)
  {
    assert s[..0] == [];
    assert s[..|s|] == s;
    ByteLenPrefixMono(s, Min(k, |s|), |s|);
    ByteLenPrefixMono(s, Min(k, |s|), Min(k2, |s|));
  }

  /** The number of chars of the longest prefix of `s` whose encoding fits in `b` bytes. */
  function CharsWithin(s: seq<char>, b: nat): (r: nat)
    ensures r <= |s| && ByteLen(s[..r]) <= b
    ensures r < |s| ==> b < ByteLen(s[..r + 1])
  {
    assert s[..|s|] == s;
    if ByteLen(s) <= b then |s|
    else
      var p := s[..|s| - 1];
      var r := CharsWithin(p, b);
      assert s[..r] == p[..r];
      if r < |p| then
        assert s[..r + 1] == p[..r + 1];
        r
      else
        r
  }

  /** `byte_to_char_idx`: the char count of the string cut at the (clamped) byte index; Rust
      panics when the cut is not on a char boundary. */
  function ByteToCharIdx(s: seq<char>, byteIdx: nat): (r: nat)
    requires IsCharBoundary(s, Min(byteIdx, ByteLen(s)))
    ensures r <= |s| && ByteLen(s[..r]) == Min(byteIdx, ByteLen(s))
  {
    var b := Min(byteIdx, ByteLen(s));
    var r := CharsWithin(s, b);
    var k :| 0 <= k <= |s| && ByteLen(s[..k]) == b;
    if r < k then
      ByteLenPrefixMono(s, r + 1, k);
      r
    else if k < r then
      ByteLenPrefixMono(s, k + 1, r);
      ByteLenPrefixMono(s, k, k + 1);
      r
    else
      r
  }

  /** Char index to byte index and back gives the char index, clamped to the char count. */
  lemma CharByteRoundTrip(s: seq<char>, k: nat)
    ensures IsCharBoundary(s, Min(ByteOffset(s, k), ByteLen(s)))
    ensures ByteToCharIdx(s, ByteOffset(s, k)) == Min(k, |s|)
  {
    ByteOffsetProperties(s, k, k);
    var r := ByteToCharIdx(s, ByteOffset(s, k));
    var m := Min(k, |s|);
    if r < m {
      ByteLenPrefixMono(s, r + 1, m);
      ByteLenPrefixMono(s, r, r + 1);
    } else if m < r {
      ByteLenPrefixMono(s, m + 1, r);
      ByteLenPrefixMono(s, m, m + 1);
    }
  }
}
