/**
  Python's slice reads and the slice assignment of a memory map, as the blit loop uses them:
  `frame[lo:hi]` and `fbmap[lo:hi] = src` with step 1. Bounds are adjusted the way Python
  adjusts them (a negative bound counts from the end, then both are clipped to the length),
  and a memory-mapped slice cannot change size: assigning a source of a different length
  raises `IndexError`.
*/
module PySlice {
  import opened Wrappers

  /** A slice bound adjusted against a sequence of length `n`. */
  function ClampIndex(i: int, n: nat): (r: nat)
    ensures r <= n
    ensures 0 <= i <= n ==> r == i
    ensures i > n ==> r == n
    ensures i < 0 ==> r == Max(i + n, 0)
  {
    if i < 0 then (if i + n < 0 then 0 else i + n) else if i > n then n else i
  }

  /** `s[lo:hi]`: never fails; a bound past the end is clipped and an inverted range is empty. */
  function Slice<T>(s: seq<T>, lo: int, hi: int): (r: seq<T>)
    ensures |r| <= |s|
    ensures 0 <= lo <= hi <= |s| ==> r == s[lo..hi]
  {
    var a, b := ClampIndex(lo, |s|), ClampIndex(hi, |s|);
    if a <= b then s[a..b] else []
  }

  /**
    `m[lo:hi] = src` on a memory map: the adjusted range is replaced by `src`, which must
    be exactly as long as the range (`None`: the `IndexError` the map raises otherwise).
  */
  function SliceAssign<T>(m: seq<T>, lo: int, hi: int, src: seq<T>): (r: Option<seq<T>>)
    ensures r.Some? ==> |r.value| == |m|
  {
    var a := ClampIndex(lo, |m|);
    var b := Max(a, ClampIndex(hi, |m|));
    if b - a != |src| then None else Some(m[..a] + src + m[b..])
  }

  /** Assigning a range that lies inside the map, from a source of the same length, succeeds and replaces exactly that range. */
  lemma SliceAssignInRange<T>(m: seq<T>, lo: int, src: seq<T>)
    requires 0 <= lo && lo + |src| <= |m|
    ensures SliceAssign(m, lo, lo + |src|, src) == Some(m[..lo] + src + m[lo + |src|..])
  {
  }

  /** Copying `len` bytes from an in-range slice of `src` into an in-range slice of `m` of the same length succeeds. */
  lemma SliceAssignFromSlice<T>(m: seq<T>, dst: int, src: seq<T>, from: int, len: int)
    requires 0 <= len && 0 <= dst && dst + len <= |m| && 0 <= from && from + len <= |src|
    ensures SliceAssign(m, dst, dst + len, Slice(src, from, from + len)) ==
              Some(m[..dst] + src[from..from + len] + m[dst + len..])
  {
    SliceAssignInRange(m, dst, src[from..from + len]);
  }

  /** `next` is `m` with the `len` elements from `dst` on replaced by `src[from..from + len]`, both ranges in bounds. */
  predicate Spliced<T(==)>(m: seq<T>, dst: int, src: seq<T>, from: int, len: int, next: seq<T>) {
    0 <= len && 0 <= dst && dst + len <= |m| && 0 <= from && from + len <= |src| &&
    next == m[..dst] + src[from..from + len] + m[dst + len..]
  }

  /** Indexing the result of an in-range assignment: inside the range the source's bytes, elsewhere the map's. */
  lemma SplicedAt<T>(m: seq<T>, lo: nat, src: seq<T>, i: nat)
    requires lo + |src| <= |m| && i < |m|
    ensures var r := m[..lo] + src + m[lo + |src|..];
            |r| == |m| && r[i] == (if lo <= i < lo + |src| then src[i - lo] else m[i])
  {
  }

  /** A range that runs past the end of the map is clipped, so a full-length source no longer fits and the assignment raises. */
  lemma SliceAssignPastEndRaises<T>(m: seq<T>, lo: int, src: seq<T>)
    requires 0 <= lo <= |m| && lo + |src| > |m|
    ensures SliceAssign(m, lo, lo + |src|, src).None?
  {
  }
}
