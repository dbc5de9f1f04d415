/** Byte strings: little-endian words, patches, and NUL-terminated strings. */
module Bytes {
  import opened Bits

  /** A copy of `src` over `dst` from position `at`, as memcpy leaves it. */
  function Patch(dst: seq<byte>, at: nat, src: seq<byte>): (r: seq<byte>)
    requires at + |src| <= |dst|
    ensures |r| == |dst|
  {
    dst[..at] + src + dst[at + |src|..]
  }

  lemma PatchAt(dst: seq<byte>, at: nat, src: seq<byte>, i: nat)
    requires at + |src| <= |dst| && i < |dst|
    ensures Patch(dst, at, src)[i] == if at <= i < at + |src| then src[i - at] else dst[i]
  {
  }

  /** Reading a range that was patched gives the patch; a range apart from it is unchanged. */
  lemma PatchSlice(dst: seq<byte>, at: nat, src: seq<byte>, lo: nat, n: nat)
    requires at + |src| <= |dst| && lo + n <= |dst|
    ensures lo == at && n == |src| ==> Patch(dst, at, src)[lo..lo + n] == src
    ensures lo + n <= at || at + |src| <= lo ==> Patch(dst, at, src)[lo..lo + n] == dst[lo..lo + n]
  {
  }

  function Zeros(n: nat): (z: seq<byte>)
    ensures |z| == n && forall i :: 0 <= i < n ==> z[i] == 0
  {
    seq(n, _ => 0)
  }

  function ByteOf(w: u32, i: nat): byte
    requires i < 4
  {
    if i == 0 then w % 0x100
    else if i == 1 then w / 0x100 % 0x100
    else if i == 2 then w / 0x100 / 0x100 % 0x100
    else w / 0x100 / 0x100 / 0x100
  }

  /** The little-endian word at byte offset `at`. */
  function WordAt(s: seq<byte>, at: nat): u32
    requires at + 4 <= |s|
  {
    var b0: int, b1: int, b2: int, b3: int := s[at], s[at + 1], s[at + 2], s[at + 3];
    b0 + 0x100 * b1 + 0x1_0000 * b2 + 0x100_0000 * b3
  }

  function Words(s: seq<byte>): (w: seq<u32>)
    ensures |w| == |s| / 4
  {
    seq(|s| / 4, k requires 0 <= k < |s| / 4 => WordAt(s, 4 * k))
  }

  function WordBytes(w: seq<u32>): (s: seq<byte>)
    ensures |s| == 4 * |w|
  {
    seq(4 * |w|, i requires 0 <= i < 4 * |w| => ByteOf(w[i / 4], i % 4))
  }

  lemma WordRoundTrip(w: u32, s: seq<byte>, at: nat)
    requires at + 4 <= |s|
    requires forall i :: 0 <= i < 4 ==> s[at + i] == ByteOf(w, i)
    ensures WordAt(s, at) == w
  {
    assert s[at + 0] == ByteOf(w, 0) && s[at + 1] == ByteOf(w, 1) && s[at + 2] == ByteOf(w, 2)
      && s[at + 3] == ByteOf(w, 3);
  }

  lemma WordsOfBytes(w: seq<u32>)
    ensures Words(WordBytes(w)) == w
  {
    var s := WordBytes(w);
    forall k | 0 <= k < |w| ensures WordAt(s, 4 * k) == w[k] {
      forall i | 0 <= i < 4 ensures s[4 * k + i] == ByteOf(w[k], i) {
        assert (4 * k + i) / 4 == k && (4 * k + i) % 4 == i;
      }
      WordRoundTrip(w[k], s, 4 * k);
    }
  }

  /** Storing one word changes that word and no other. */
  lemma PatchWord(s: seq<byte>, k: nat, v: u32)
    requires |s| % 4 == 0 && k < |s| / 4
    ensures Words(Patch(s, 4 * k, WordBytes([v]))) == Words(s)[k := v]
  {
    var t := Patch(s, 4 * k, WordBytes([v]));
    forall j | 0 <= j < |s| / 4 ensures WordAt(t, 4 * j) == if j == k then v else WordAt(s, 4 * j) {
      if j == k {
        forall i | 0 <= i < 4 ensures t[4 * k + i] == ByteOf(v, i) {
          PatchAt(s, 4 * k, WordBytes([v]), 4 * k + i);
        }
        WordRoundTrip(v, t, 4 * k);
      }
    }
  }

  lemma WordsOfZeros(n: nat)
    requires n % 4 == 0
    ensures forall k :: 0 <= k < n / 4 ==> Words(Zeros(n))[k] == 0
  {
  }
}
