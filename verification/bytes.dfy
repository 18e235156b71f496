/** Fixed-width unsigned integers and their network-byte-order (big-endian)
    serialisation, the `htons`/`htonl` and `ntohs`/`ntohl` conversions of the
    stack, stated as explicit byte layouts instead of memory overlays. */
module Bytes {

  type byte = x: int | 0 <= x < 0x100
  type uint2 = x: int | 0 <= x < 4
  type uint4 = x: int | 0 <= x < 0x10
  type uint16 = x: int | 0 <= x < 0x1_0000
  type uint32 = x: int | 0 <= x < 0x1_0000_0000

  /** The two bytes of `w`, most significant first (`htons`). */
  function Be16(w: uint16): (s: seq<byte>)
    ensures |s| == 2
    ensures s[0] as int * 0x100 + s[1] == w
  {
    [w / 0x100, w % 0x100]
  }

  /** The 16-bit value stored big-endian at offset `i` (`ntohs`). */
  function Get16(s: seq<byte>, i: nat): uint16
    requires i + 2 <= |s|
  {
    s[i] as int * 0x100 + s[i + 1]
  }

  /** Re-encoding a 16-bit read gives back exactly the bytes read. */
  lemma Be16OfGet16(s: seq<byte>, i: nat)
    requires i + 2 <= |s|
    ensures Be16(Get16(s, i)) == s[i..i + 2]
  {
  }

  /** The four bytes of `w`, most significant first (`htonl`). */
  function Be32(w: uint32): (s: seq<byte>)
    ensures |s| == 4
    ensures (s[0] as int * 0x100 + s[1]) * 0x1_0000 + s[2] as int * 0x100 + s[3] == w
  {
    Be16(w / 0x1_0000) + Be16(w % 0x1_0000)
  }

  /** The 32-bit value stored big-endian at offset `i` (`ntohl`). */
  function Get32(s: seq<byte>, i: nat): uint32
    requires i + 4 <= |s|
  {
    Get16(s, i) * 0x1_0000 + Get16(s, i + 2)
  }

  /** Re-encoding a 32-bit read gives back exactly the bytes read. */
  lemma Be32OfGet32(s: seq<byte>, i: nat)
    requires i + 4 <= |s|
    ensures Be32(Get32(s, i)) == s[i..i + 4]
  {
    var hi, lo := Get16(s, i), Get16(s, i + 2);
    assert Get32(s, i) / 0x1_0000 == hi && Get32(s, i) % 0x1_0000 == lo;
    Be16OfGet16(s, i);
    Be16OfGet16(s, i + 2);
    assert s[i..i + 4] == s[i..i + 2] + s[i + 2..i + 4];
  }

  lemma Get16OfBe16(w: uint16, pre: seq<byte>, post: seq<byte>)
    ensures Get16(pre + Be16(w) + post, |pre|) == w
  {
    var s := pre + Be16(w) + post;
    assert s[|pre|] == Be16(w)[0] && s[|pre| + 1] == Be16(w)[1];
  }

  lemma Get32OfBe32(w: uint32, pre: seq<byte>, post: seq<byte>)
    ensures Get32(pre + Be32(w) + post, |pre|) == w
  {
    var s := pre + Be32(w) + post;
    var b := Be32(w);
    assert s[|pre|] == b[0] && s[|pre| + 1] == b[1] && s[|pre| + 2] == b[2] && s[|pre| + 3] == b[3];
  }

  /** Exchanges the two bytes of a 16-bit word: what a little-endian host
      sees when it loads a big-endian word from memory, and vice versa. */
  function Swap16(w: uint16): (r: uint16)
    ensures r / 0x100 == w % 0x100 && r % 0x100 == w / 0x100
    ensures r == 0 <==> w == 0
  {
    (w % 0x100) * 0x100 + w / 0x100
  }

  /** The first `n` 16-bit words of `s`, each read big-endian: the words a
      big-endian host (or a reader using network order) sums. */
  function WordsBE(s: seq<byte>, n: nat): (ws: seq<uint16>)
    requires 2 * n <= |s|
    ensures |ws| == n
    ensures forall i :: 0 <= i < n ==> ws[i] == Get16(s, 2 * i)
  {
    seq(n, i requires 0 <= i < n => Get16(s, 2 * i))
  }

  /** The first `n` 16-bit words of `s`, each read little-endian: what
      `(unsigned short *)buf` yields on an x86 host. */
  function WordsLE(s: seq<byte>, n: nat): (ws: seq<uint16>)
    requires 2 * n <= |s|
    ensures |ws| == n
    ensures forall i :: 0 <= i < n ==> ws[i] == Swap16(Get16(s, 2 * i))
  {
    seq(n, i requires 0 <= i < n => s[2 * i] + s[2 * i + 1] as int * 0x100)
  }

  /** The words of a buffer depend only on the bytes they cover. */
  lemma WordsBEPrefix(s: seq<byte>, t: seq<byte>, n: nat)
    requires 2 * n <= |s| && 2 * n <= |t|
    requires s[..2 * n] == t[..2 * n]
    ensures WordsBE(s, n) == WordsBE(t, n)
  {
    forall i | 0 <= i < n
      ensures WordsBE(s, n)[i] == WordsBE(t, n)[i]
    {
      assert s[2 * i] == s[..2 * n][2 * i] == t[2 * i];
      assert s[2 * i + 1] == s[..2 * n][2 * i + 1] == t[2 * i + 1];
    }
  }

  /** Overwriting the two bytes of word `k` with the big-endian bytes of `w`
      overwrites that word, and only that word. */
  lemma WordsBEUpdate(s: seq<byte>, n: nat, k: nat, w: uint16)
    requires 2 * n <= |s| && k < n
    ensures 2 * n <= |s[2 * k := w / 0x100][2 * k + 1 := w % 0x100]|
    ensures WordsBE(s[2 * k := w / 0x100][2 * k + 1 := w % 0x100], n) == WordsBE(s, n)[k := w]
  {
    var t := s[2 * k := w / 0x100][2 * k + 1 := w % 0x100];
    forall i | 0 <= i < n
      ensures WordsBE(t, n)[i] == WordsBE(s, n)[k := w][i]
    {
      if i == k {
        assert Get16(t, 2 * i) == w;
      } else {
        assert t[2 * i] == s[2 * i] && t[2 * i + 1] == s[2 * i + 1];
      }
    }
  }

  /** Word `j / 2` of `s` after byte `j` is overwritten with `b`. */
  function WordWithByte(s: seq<byte>, j: nat, b: byte): (v: uint16)
    requires j < |s| && (j % 2 == 0 ==> j + 1 < |s|)
  {
    if j % 2 == 0 then b as int * 0x100 + s[j + 1] else s[j - 1] as int * 0x100 + b
  }

  /** Overwriting one byte overwrites the word holding it, and that word
      changes exactly when the byte does. */
  lemma WordsBEByteUpdate(s: seq<byte>, n: nat, j: nat, b: byte)
    requires 2 * n <= |s| && j < 2 * n
    ensures WordsBE(s[j := b], n) == WordsBE(s, n)[j / 2 := WordWithByte(s, j, b)]
    ensures WordWithByte(s, j, b) == Get16(s, 2 * (j / 2)) <==> b == s[j]
  {
    var k := j / 2;
    var v := WordWithByte(s, j, b);
    assert s[j := b] == s[2 * k := v / 0x100][2 * k + 1 := v % 0x100];
    WordsBEUpdate(s, n, k, v);
  }
}
