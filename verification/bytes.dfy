/**
 * Go strings as byte sequences. Go's `len`, indexing, slicing and the
 * `strings` package all count bytes of the UTF-8 encoding, so every string of
 * the model is the sequence of its bytes and every offset is a byte offset.
 */
module Bytes {

  /** One byte of a Go string. */
  type Byte = b: int | 0 <= b < 256

  /** A Go string, as the sequence of its bytes. */
  type Bytes = seq<Byte>

  /** The bytes of an ASCII literal (each character encodes as one byte). */
  function Lit(s: string): (r: Bytes)
    requires forall i :: 0 <= i < |s| ==> s[i] < 128 as char
    ensures |r| == |s|
    ensures forall i :: 0 <= i < |s| ==> r[i] == s[i] as int
  {
    seq(|s|, i requires 0 <= i < |s| => s[i] as int)
  }

  /** `sub` occurs in `s` starting at byte offset `i`. */
  predicate OccursAt(s: Bytes, sub: Bytes, i: int)
  {
    0 <= i && i + |sub| <= |s| && s[i..i + |sub|] == sub
  }

  /** The first occurrence of `sub` in `s` at an offset of at least `from`, or -1. */
  function IndexFrom(s: Bytes, sub: Bytes, from: nat): (r: int)
    ensures r == -1 || (from <= r && OccursAt(s, sub, r))
    ensures forall j :: from <= j && (r == -1 || j < r) ==> !OccursAt(s, sub, j)
    decreases |s| - from
  {
    if from + |sub| > |s| then -1
    else if s[from..from + |sub|] == sub then from
    else IndexFrom(s, sub, from + 1)
  }

  /**
   * Go's `strings.Index`: the byte offset of the first occurrence of `sub` in
   * `s`, or -1 when there is none (an empty `sub` is found at 0).
   */
  function Index(s: Bytes, sub: Bytes): (r: int)
    ensures r == -1 <==> forall j :: !OccursAt(s, sub, j)
    ensures r != -1 ==> OccursAt(s, sub, r)
    ensures forall j :: 0 <= j < r ==> !OccursAt(s, sub, j)
  {
    IndexFrom(s, sub, 0)
  }

  /** Go's `strings.Contains`: `sub` occurs somewhere in `s`. */
  predicate Contains(s: Bytes, sub: Bytes): (b: bool)
    ensures b <==> exists i :: OccursAt(s, sub, i)
  {
    Index(s, sub) != -1
  }

  /** An occurrence anywhere makes `Contains` true and bounds `Index` from above. */
  lemma OccurrenceFound(s: Bytes, sub: Bytes, i: int)
    requires OccursAt(s, sub, i)
    ensures Contains(s, sub)
    ensures 0 <= Index(s, sub) <= i
  {
  }

  /**
   * Go's `strings.Replace(s, pat, rep, 1)`: the first occurrence of `pat` is
   * replaced by `rep`; without an occurrence `s` comes back unchanged.
   */
  function ReplaceFirst(s: Bytes, pat: Bytes, rep: Bytes): (r: Bytes)
    ensures !Contains(s, pat) ==> r == s
    ensures Contains(s, pat) ==>
              var i := Index(s, pat);
              && |r| == |s| - |pat| + |rep|
              && r[..i] == s[..i]
              && r[i..i + |rep|] == rep
              && r[i + |rep|..] == s[i + |pat|..]
  {
    var i := Index(s, pat);
    if i == -1 then s else s[..i] + rep + s[i + |pat|..]
  }

  /** The bytes Go's `strings.TrimSpace` removes on ASCII input: tab, LF, VT, FF, CR, space. */
  predicate IsSpace(b: Byte)
  {
    b == 9 || b == 10 || b == 11 || b == 12 || b == 13 || b == 32
  }

  /** `s` without its leading spaces. */
  function TrimLeft(s: Bytes): (r: Bytes)
    ensures |r| <= |s| && r == s[|s| - |r|..]
    ensures forall i :: 0 <= i < |s| - |r| ==> IsSpace(s[i])
    ensures |r| > 0 ==> !IsSpace(r[0])
  {
    if |s| > 0 && IsSpace(s[0]) then TrimLeft(s[1..]) else s
  }

  /** `s` without its trailing spaces. */
  function TrimRight(s: Bytes): (r: Bytes)
    ensures |r| <= |s| && r == s[..|r|]
    ensures forall i :: |r| <= i < |s| ==> IsSpace(s[i])
    ensures |r| > 0 ==> !IsSpace(r[|r| - 1])
  {
    if |s| > 0 && IsSpace(s[|s| - 1]) then TrimRight(s[..|s| - 1]) else s
  }

  /** `r` sits in `s` at offset `lo`, and every byte of `s` outside it is a space. */
  predicate SpacesAround(s: Bytes, lo: int, r: Bytes)
  {
    && 0 <= lo <= |s| - |r|
    && r == s[lo..lo + |r|]
    && (forall i :: 0 <= i < lo ==> IsSpace(s[i]))
    && (forall i :: lo + |r| <= i < |s| ==> IsSpace(s[i]))
  }

  /**
   * Go's `strings.TrimSpace` on ASCII whitespace: the longest slice of `s`
   * that neither starts nor ends with a space, with only spaces cut away.
   */
  function TrimSpace(s: Bytes): (r: Bytes)
    ensures |r| > 0 ==> !IsSpace(r[0]) && !IsSpace(r[|r| - 1])
    ensures exists lo :: SpacesAround(s, lo, r)
  {
    var l := TrimLeft(s);
    var r := TrimRight(l);
    var lo := |s| - |l|;
    assert SpacesAround(s, lo, r);
    r
  }
}
