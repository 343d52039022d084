/** Changing a sequence in one place: a stretch overwritten, an element removed. */
module Sequences {

  /** copy_from_slice into a range of a buffer. */
  function Patched<T>(buf: seq<T>, offset: nat, items: seq<T>): (s: seq<T>)
    requires offset + |items| <= |buf|
    ensures |s| == |buf|
  {
    buf[..offset] + items + buf[offset + |items|..]
  }

  lemma PatchedElsewhere<T>(d: seq<T>, at: nat, items: seq<T>, lo: nat, hi: nat)
    requires at + |items| <= |d| && lo <= hi <= |d| && (hi <= at || at + |items| <= lo)
    ensures Patched(d, at, items)[lo..hi] == d[lo..hi]
  {
  }

  lemma PatchedHere<T>(d: seq<T>, at: nat, items: seq<T>)
    requires at + |items| <= |d|
    ensures Patched(d, at, items)[at..at + |items|] == items
  {
  }

  /** Patching a buffer patches its beginning. */
  lemma PatchPrefix<T>(d: seq<T>, offset: nat, items: seq<T>, end: nat)
    requires offset + |items| <= end <= |d|
    ensures Patched(d, offset, items)[..end] == Patched(d[..end], offset, items)
  {
  }

  /** Writing back a patched stretch is patching the whole. */
  lemma PatchWithin<T>(d: seq<T>, lo: nat, hi: nat, offset: nat, items: seq<T>)
    requires lo <= hi <= |d| && lo + offset + |items| <= hi
    ensures Patched(d, lo, Patched(d[lo..hi], offset, items)) == Patched(d, lo + offset, items)
  {
    var end, part := offset + |items|, Patched(d[lo..hi], offset, items);
    assert lo + |part| == hi;
    assert d[lo..hi][..offset] == d[lo..lo + offset];
    assert d[lo..hi][end..] == d[lo + end..hi];
    assert d[..lo] + d[lo..lo + offset] == d[..lo + offset];
    assert d[lo + end..hi] + d[hi..] == d[lo + end..];
    assert d[..lo] + (d[lo..lo + offset] + items + d[lo + end..hi]) + d[hi..]
        == (d[..lo] + d[lo..lo + offset]) + items + (d[lo + end..hi] + d[hi..]);
  }

  /** Vec::remove. */
  function RemoveAt<T>(s: seq<T>, k: nat): (r: seq<T>)
    requires k < |s|
  {
    s[..k] + s[k + 1..]
  }

  lemma RemovedElements<T>(s: seq<T>, k: nat)
    requires k < |s|
    ensures |RemoveAt(s, k)| == |s| - 1
    ensures forall i :: 0 <= i < |s| - 1 ==> RemoveAt(s, k)[i] == s[if i < k then i else i + 1]
  {
  }
}
