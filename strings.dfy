/**
 * The part of Go's `strings` package the store relies on: `strings.TrimSpace`
 * over a byte string. Go strings are byte sequences and `len` counts bytes, so
 * text is `seq<byte>` here. Only the ASCII white-space bytes are treated as
 * space (tab, newline, vertical tab, form feed, carriage return, blank).
 */
module Strings {

  newtype byte = x: int | 0 <= x < 256

  /** The ASCII white-space set Go's TrimSpace uses for single-byte runes. */
  predicate IsSpace(b: byte) {
    b == 9 || b == 10 || b == 11 || b == 12 || b == 13 || b == 32
  }

  ghost predicate AllSpace(s: seq<byte>) {
    forall i :: 0 <= i < |s| ==> IsSpace(s[i])
  }

  /** Neither starts nor ends with white space. */
  ghost predicate IsTrimmed(s: seq<byte>) {
    s == [] || (!IsSpace(s[0]) && !IsSpace(s[|s| - 1]))
  }

  /** Index of the first byte that is not white space (|s| if there is none). */
  function FirstNonSpace(s: seq<byte>): (lo: nat)
    ensures lo <= |s|
    ensures forall i :: 0 <= i < lo ==> IsSpace(s[i])
    ensures lo < |s| ==> !IsSpace(s[lo])
  {
    if s == [] || !IsSpace(s[0]) then 0 else 1 + FirstNonSpace(s[1..])
  }

  /** One past the last byte that is not white space (0 if there is none). */
  function EndOfNonSpace(s: seq<byte>): (hi: nat)
    ensures hi <= |s|
    ensures forall i :: hi <= i < |s| ==> IsSpace(s[i])
    ensures 0 < hi ==> !IsSpace(s[hi - 1])
  {
    if s == [] || !IsSpace(s[|s| - 1]) then |s| else EndOfNonSpace(s[..|s| - 1])
  }

  /** `strings.TrimSpace`: drop leading and trailing white space. */
  function TrimSpace(s: seq<byte>): (r: seq<byte>)
    ensures IsTrimmed(r)
    ensures |r| <= |s|
    ensures r == [] <==> AllSpace(s)
  {
    var lo := FirstNonSpace(s);
    if lo == |s| then [] else s[lo..EndOfNonSpace(s)]
  }

  /**
   * Trimming is exact: surrounding a trimmed text with any white space and
   * trimming gives the text back. With empty padding this is idempotence.
   */
  lemma {:induction false} TrimSpacePadded(pre: seq<byte>, t: seq<byte>, post: seq<byte>)
    requires AllSpace(pre) && AllSpace(post) && IsTrimmed(t)
    ensures TrimSpace(pre + t + post) == t
  {
    var s := pre + t + post;
    if t == [] {
      assert s == pre + post;
      assert AllSpace(s);
    } else {
      var lo, hi := FirstNonSpace(s), EndOfNonSpace(s);
      assert s[|pre|] == t[0];
      assert s[|pre| + |t| - 1] == t[|t| - 1];
      assert lo == |pre|;
      assert hi == |pre| + |t|;
      assert s[lo..hi] == t;
    }
  }
}
