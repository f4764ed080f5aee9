/**
 * COM_Munge of Common/Encrypt.cpp: the in-place obfuscation of a network
 * message, word by word, with a sequence number and a 16-byte table.
 */
module Munge {
  /** A C int on the 32-bit target. */
  type Int32 = x: int | -0x8000_0000 <= x < 0x8000_0000

  /** mungify_table2, the table COM_MungeFile passes. */
  const MungifyTable2: seq<bv8> :=
    [0x05, 0x61, 0x7A, 0xED,
     0x1B, 0xCA, 0x0D, 0x9B,
     0x4A, 0xF1, 0x64, 0xC7,
     0xB5, 0x8E, 0xDF, 0xA0]

  /** The two's-complement bit pattern of an int. */
  function Bits(x: Int32): bv32 {
    (if x < 0 then x + 0x1_0000_0000 else x) as bv32
  }

  /** `len & ~3`: clearing the two low bits of a two's-complement int subtracts its remainder modulo 4. */
  function ClearLow2(len: Int32): (r: Int32)
    ensures r % 4 == 0 && r <= len < r + 4
  {
    len - len % 4
  }

  /** C's `/`, which truncates toward zero. */
  function CDiv(a: int, b: int): (q: int)
    requires b > 0
    ensures 0 <= a ==> 0 <= q && q * b <= a < q * b + b
    ensures a < 0 ==> q <= 0 && q * b - b < a <= q * b
  {
    if a >= 0 then a / b else -((-a) / b)
  }

  /** mungelen: the bound of the outer loop, `(len & ~3) / 4`; the loop runs only while it is positive. */
  function GroupLimit(len: Int32): (n: int)
    ensures 0 <= len ==> 4 * n <= len < 4 * n + 4
    ensures len < 0 ==> n < 0
  {
    CDiv(ClearLow2(len), 4)
  }

  /** The number of 4-byte groups munged: none below 4 bytes (negative lengths too), else len / 4 whole groups. */
  function Groups(len: Int32): (g: nat)
    ensures len < 4 ==> g == 0
    ensures len >= 0 ==> 4 * g <= len < 4 * g + 4
  {
    if GroupLimit(len) < 0 then 0 else GroupLimit(len)
  }

  // ---------------------------------------------------------------------
  // Words and bytes on the little-endian target

  /** The int at a 4-byte group, read little-endian. */
  function LoadLE(b0: bv8, b1: bv8, b2: bv8, b3: bv8): bv32 {
    (b0 as bv32) | ((b1 as bv32) << 8) | ((b2 as bv32) << 16) | ((b3 as bv32) << 24)
  }

  /** Byte k (0 = lowest, the first in memory) of a word. */
  function ByteOf(w: bv32, k: nat): bv8
    requires k < 4
  {
    var shifted := if k == 0 then w else if k == 1 then w >> 8 else if k == 2 then w >> 16 else w >> 24;
    (shifted & 0xFF) as bv8
  }

  /** A byte moved to byte position j of a word. */
  function Place(b: bv8, j: nat): bv32
    requires j < 4
  {
    if j == 0 then b as bv32 else if j == 1 then (b as bv32) << 8
    else if j == 2 then (b as bv32) << 16 else (b as bv32) << 24
  }

  /** _byteswap_ulong: reverses the order of the four bytes of a word, byte k moving to byte 3 - k. */
  function ByteSwap(w: bv32): (r: bv32)
    ensures ByteOf(r, 0) == ByteOf(w, 3) && ByteOf(r, 1) == ByteOf(w, 2)
    ensures ByteOf(r, 2) == ByteOf(w, 1) && ByteOf(r, 3) == ByteOf(w, 0)
  {
    (w << 24) | ((w << 8) & 0x00FF_0000) | ((w >> 8) & 0x0000_FF00) | (w >> 24)
  }

  /** Reading back a stored word gives its bytes, lowest first. */
  lemma ByteOfLoadLE(b0: bv8, b1: bv8, b2: bv8, b3: bv8)
    ensures var w := LoadLE(b0, b1, b2, b3);
      ByteOf(w, 0) == b0 && ByteOf(w, 1) == b1 && ByteOf(w, 2) == b2 && ByteOf(w, 3) == b3
  {
  }

  /** Storing a word's bytes and reading them back gives the word. */
  lemma LoadLEByteOf(v: bv32)
    ensures LoadLE(ByteOf(v, 0), ByteOf(v, 1), ByteOf(v, 2), ByteOf(v, 3)) == v
  {
  }

  // ---------------------------------------------------------------------
  // The mask of a group

  /** The index `(i + j) & 0x0f` of the table entry for byte j of group i: in 0..15, and congruent to i + j modulo 16. */
  function TableIndex(i: nat, j: nat): (r: nat)
    ensures r < 16 && (i + j - r) % 16 == 0
  {
    (i + j) % 16
  }

  /** The mask XORed into byte j of group i after the swap: `0xa5 | (j << j) | j | table[(i + j) & 0x0f]`. */
  function MaskByte(i: nat, j: nat, table: seq<bv8>): (m: bv8)
    requires j < 4 && |table| >= 16
    ensures var t := table[(i + j) % 16];
      m == (if j == 0 then 0xa5 else if j == 1 then 0xa7 else if j == 2 then 0xaf else 0xbf) | t
  {
    var jb: bv8 := if j == 0 then 0 else if j == 1 then 1 else if j == 2 then 2 else 3;
    0xa5 | (jb << jb) | jb | table[TableIndex(i, j)]
  }

  /** The word c with the masks of bytes 0..n-1 of group i XORed into their byte positions. */
  function MaskedUpTo(c: bv32, i: nat, n: nat, table: seq<bv8>): bv32
    requires n <= 4 && |table| >= 16
  {
    if n == 0 then c
    else MaskedUpTo(c, i, n - 1, table) ^ Place(MaskByte(i, n - 1, table), n - 1)
  }

  /** M_i, the whole mask of group i: defined as 0 with Place(MaskByte(i, j, table), j) XORed in for j = 0..3. */
  function MaskWord(i: nat, table: seq<bv8>): bv32
    requires |table| >= 16
  {
    MaskedUpTo(0, i, 4, table)
  }

  /** XORing the masks in one byte at a time is XORing in M_i. */
  lemma {:induction false} MaskedUpToXor(c: bv32, i: nat, n: nat, table: seq<bv8>)
    requires n <= 4 && |table| >= 16
    ensures MaskedUpTo(c, i, n, table) == c ^ MaskedUpTo(0, i, n, table)
  {
    if n > 0 {
      MaskedUpToXor(c, i, n - 1, table);
    }
  }

  // ---------------------------------------------------------------------
  // The transformation of one group

  /** The group transformation with inner key n and outer key k: bswap(w ^ n) ^ k. */
  function MungeWith(w: bv32, n: bv32, k: bv32): bv32 {
    ByteSwap(w ^ n) ^ k
  }

  /** Its inverse, undoing the steps in reverse order: bswap(v ^ k) ^ n. */
  function UnmungeWith(v: bv32, n: bv32, k: bv32): bv32 {
    ByteSwap(v ^ k) ^ n
  }

  /** What COM_Munge makes of the word w of group i: bswap(w ^ ~seq) ^ (M_i ^ seq). */
  function MungeWord(w: bv32, i: nat, s: bv32, table: seq<bv8>): bv32
    requires |table| >= 16
  {
    MungeWith(w, !s, MaskWord(i, table) ^ s)
  }

  /** The inverse of MungeWord for the same group, sequence and table. */
  function UnmungeWord(v: bv32, i: nat, s: bv32, table: seq<bv8>): bv32
    requires |table| >= 16
  {
    UnmungeWith(v, !s, MaskWord(i, table) ^ s)
  }

  /** Whatever the keys, UnmungeWith undoes MungeWith. */
  lemma UnmungeWithMunge(w: bv32, n: bv32, k: bv32)
    ensures UnmungeWith(MungeWith(w, n, k), n, k) == w
  {
  }

  /** Whatever the keys, MungeWith undoes UnmungeWith. */
  lemma MungeWithUnmunge(v: bv32, n: bv32, k: bv32)
    ensures MungeWith(UnmungeWith(v, n, k), n, k) == v
  {
  }

  /** For a fixed group, sequence and table, UnmungeWord undoes MungeWord and MungeWord undoes UnmungeWord: the group map is a bijection. */
  lemma MungeWordInverse(w: bv32, v: bv32, i: nat, s: bv32, table: seq<bv8>)
    requires |table| >= 16
    ensures UnmungeWord(MungeWord(w, i, s, table), i, s, table) == w
    ensures MungeWord(UnmungeWord(v, i, s, table), i, s, table) == v
  {
    UnmungeWithMunge(w, !s, MaskWord(i, table) ^ s);
    MungeWithUnmunge(v, !s, MaskWord(i, table) ^ s);
  }

  /** Two different words of one group never munge to the same word. */
  lemma MungeWordInjective(w1: bv32, w2: bv32, i: nat, s: bv32, table: seq<bv8>)
    requires |table| >= 16
    ensures MungeWord(w1, i, s, table) == MungeWord(w2, i, s, table) <==> w1 == w2
  {
    MungeWordInverse(w1, w1, i, s, table);
    MungeWordInverse(w2, w2, i, s, table);
  }

  /** With mungify_table2, munging the zero word of group 0 twice under sequence 0 gives 0x5A18185A, not 0: COM_Munge is not its own inverse. */
  lemma MungeTwiceTable2()
    ensures MungeWord(MungeWord(0, 0, 0, MungifyTable2), 0, 0, MungifyTable2) == 0x5A18_185A
  {
  }

  /** A second witness, with a nonzero word, group and sequence: munging twice does not restore the word. */
  lemma MungeTwiceTable2Group3()
    ensures MungeWord(MungeWord(0x1234_5678, 3, 0xDEAD_BEEF, MungifyTable2), 3, 0xDEAD_BEEF, MungifyTable2) != 0x1234_5678
  {
  }

  // ---------------------------------------------------------------------
  // Buffers: words stored group after group

  /** The word of the group that starts at index p. */
  function WordAt(s: seq<bv8>, p: nat): bv32
    requires p + 4 <= |s|
  {
    LoadLE(s[p], s[p + 1], s[p + 2], s[p + 3])
  }

  /** `*(int *)p = v` on the little-endian target: the four bytes of v stored from index p. */
  function StoreLE(s: seq<bv8>, p: nat, v: bv32): (r: seq<bv8>)
    requires p + 4 <= |s|
    ensures |r| == |s|
  {
    s[p := ByteOf(v, 0)][p + 1 := ByteOf(v, 1)][p + 2 := ByteOf(v, 2)][p + 3 := ByteOf(v, 3)]
  }

  /** s with the words ws stored, one after the other, in the 4-byte groups from off. */
  function StoreGroups(s: seq<bv8>, off: nat, ws: seq<bv32>): (r: seq<bv8>)
    requires |ws| == 0 || off + 4 * |ws| <= |s|
    ensures |r| == |s|
    decreases |ws|
  {
    if |ws| == 0 then s
    else StoreLE(StoreGroups(s, off, ws[..|ws| - 1]), off + 4 * (|ws| - 1), ws[|ws| - 1])
  }

  /** Byte k after storing ws: byte (k - off) % 4 of word (k - off) / 4 inside the groups, the old byte outside them. */
  lemma {:induction false} StoreGroupsAt(s: seq<bv8>, off: nat, ws: seq<bv32>, k: nat)
    requires (|ws| == 0 || off + 4 * |ws| <= |s|) && k < |s|
    ensures StoreGroups(s, off, ws)[k] ==
      if off <= k < off + 4 * |ws| then ByteOf(ws[(k - off) / 4], (k - off) % 4) else s[k]
    decreases |ws|
  {
    if |ws| > 0 {
      var n := |ws| - 1;
      var p := off + 4 * n;
      if p <= k < p + 4 {
        assert (k - off) / 4 == n && (k - off) % 4 == k - p;
      } else {
        StoreGroupsAt(s, off, ws[..n], k);
        if off <= k < p {
          assert (k - off) / 4 < n;
        }
      }
    }
  }

  /** Byte r of group g after storing ws is byte r of ws[g]. */
  lemma StoreGroupsByte(s: seq<bv8>, off: nat, ws: seq<bv32>, g: nat, r: nat)
    requires off + 4 * |ws| <= |s| && g < |ws| && r < 4
    ensures StoreGroups(s, off, ws)[off + 4 * g + r] == ByteOf(ws[g], r)
  {
    StoreGroupsAt(s, off, ws, off + 4 * g + r);
    assert (4 * g + r) / 4 == g && (4 * g + r) % 4 == r;
  }

  /** Four bytes holding the bytes of v, lowest first, read back as v. */
  lemma WordAtBytes(s: seq<bv8>, p: nat, v: bv32)
    requires p + 4 <= |s|
    requires s[p] == ByteOf(v, 0) && s[p + 1] == ByteOf(v, 1) && s[p + 2] == ByteOf(v, 2) && s[p + 3] == ByteOf(v, 3)
    ensures WordAt(s, p) == v
  {
    LoadLEByteOf(v);
  }

  /** After storing ws, the word of group g < |ws| is ws[g]. */
  lemma StoreGroupsWord(s: seq<bv8>, off: nat, ws: seq<bv32>, g: nat)
    requires off + 4 * |ws| <= |s| && g < |ws|
    ensures WordAt(StoreGroups(s, off, ws), off + 4 * g) == ws[g]
  {
    StoreGroupsByte(s, off, ws, g, 0);
    StoreGroupsByte(s, off, ws, g, 1);
    StoreGroupsByte(s, off, ws, g, 2);
    StoreGroupsByte(s, off, ws, g, 3);
    WordAtBytes(StoreGroups(s, off, ws), off + 4 * g, ws[g]);
  }

  /** Storing ws leaves the group right after them as it was. */
  lemma StoreGroupsNextWord(s: seq<bv8>, off: nat, ws: seq<bv32>)
    requires off + 4 * (|ws| + 1) <= |s|
    ensures WordAt(StoreGroups(s, off, ws), off + 4 * |ws|) == WordAt(s, off + 4 * |ws|)
  {
    var p := off + 4 * |ws|;
    StoreGroupsAt(s, off, ws, p);
    StoreGroupsAt(s, off, ws, p + 1);
    StoreGroupsAt(s, off, ws, p + 2);
    StoreGroupsAt(s, off, ws, p + 3);
  }

  /** Storing one more word is one more StoreLE at the next group. */
  lemma StoreGroupsSnoc(s: seq<bv8>, off: nat, ws: seq<bv32>, v: bv32)
    requires off + 4 * (|ws| + 1) <= |s|
    ensures StoreGroups(s, off, ws + [v]) == StoreLE(StoreGroups(s, off, ws), off + 4 * |ws|, v)
  {
    assert (ws + [v])[..|ws|] == ws;
  }

  /** The word group g from off turns into: munged, or unmunged when inverse holds. */
  function GroupWord(s: seq<bv8>, off: nat, g: nat, sq: bv32, table: seq<bv8>, inverse: bool): bv32
    requires |table| >= 16 && off + 4 * (g + 1) <= |s|
  {
    var w := WordAt(s, off + 4 * g);
    if inverse then UnmungeWord(w, g, sq, table) else MungeWord(w, g, sq, table)
  }

  /** The new words of groups 0..n-1 from off. */
  function GroupWords(s: seq<bv8>, off: nat, n: nat, sq: bv32, table: seq<bv8>, inverse: bool): (ws: seq<bv32>)
    requires |table| >= 16 && (n == 0 || off + 4 * n <= |s|)
    ensures |ws| == n
  {
    seq(n, g requires 0 <= g < n => GroupWord(s, off, g, sq, table, inverse))
  }

  /** The buffer after n iterations of the outer loop: the words of groups 0..n-1 from off rewritten. */
  function MungedUpTo(s: seq<bv8>, off: nat, n: nat, sq: bv32, table: seq<bv8>, inverse: bool): (r: seq<bv8>)
    requires |table| >= 16 && (n == 0 || off + 4 * n <= |s|)
    ensures |r| == |s|
  {
    StoreGroups(s, off, GroupWords(s, off, n, sq, table, inverse))
  }

  /** The buffer after COM_Munge(s + off, len, seq, table): same length, and a buffer of fewer than 4 bytes (or a negative len) is left as it is. */
  function Munged(s: seq<bv8>, off: nat, len: Int32, sq: bv32, table: seq<bv8>): (r: seq<bv8>)
    requires |table| >= 16 && (Groups(len) == 0 || off + 4 * Groups(len) <= |s|)
    ensures |r| == |s|
    ensures len < 4 ==> r == s
  {
    MungedUpTo(s, off, Groups(len), sq, table, false)
  }

  /** The buffer-level inverse of Munged. */
  function Unmunged(s: seq<bv8>, off: nat, len: Int32, sq: bv32, table: seq<bv8>): (r: seq<bv8>)
    requires |table| >= 16 && (Groups(len) == 0 || off + 4 * Groups(len) <= |s|)
    ensures |r| == |s|
  {
    MungedUpTo(s, off, Groups(len), sq, table, true)
  }

  /** One iteration of COM_Munge's outer loop: the group read from the buffer, rewritten and stored back, is the next group of MungedUpTo. */
  lemma MungeStep(s: seq<bv8>, off: nat, n: nat, sq: bv32, table: seq<bv8>, before: seq<bv8>, w: bv32, c: bv32)
    requires |table| >= 16 && off + 4 * (n + 1) <= |s|
    requires before == MungedUpTo(s, off, n, sq, table, false)
    requires w == WordAt(before, off + 4 * n) && c == MungeWord(w, n, sq, table)
    ensures StoreLE(before, off + 4 * n, c) == MungedUpTo(s, off, n + 1, sq, table, false)
  {
    var ws := GroupWords(s, off, n, sq, table, false);
    StoreGroupsNextWord(s, off, ws);
    assert GroupWords(s, off, n + 1, sq, table, false) == ws + [c];
    StoreGroupsSnoc(s, off, ws, c);
  }

  // ---------------------------------------------------------------------
  // COM_Munge

  /** The step-by-step computation of MungeGroup (mask bytes XORed in one at a time) ends in MungeWord. */
  lemma FinishGroup(w: bv32, i: nat, sq: bv32, table: seq<bv8>, swapped: bv32, c: bv32)
    requires |table| >= 16 && swapped == ByteSwap(w ^ !sq) && c == MaskedUpTo(swapped, i, 4, table)
    ensures c ^ sq == MungeWord(w, i, sq, table)
  {
    MaskedUpToXor(swapped, i, 4, table);
  }

  /**
   * The body of COM_Munge's outer loop on the word c of group i: c ^= ~seq,
   * the byte swap, the table mask XORed in byte by byte, c ^= seq.
   */
  method MungeGroup(w: bv32, i: nat, sq: bv32, table: seq<bv8>) returns (c: bv32)
    requires |table| >= 16
    ensures c == MungeWord(w, i, sq, table)
  {
    c := w;
    c := c ^ !sq;
    c := ByteSwap(c);
    ghost var swapped := c;
    // *p++ ^= mask: byte j of c, in memory order, is bits 8j..8j+7
    for j := 0 to 4
      invariant c == MaskedUpTo(swapped, i, j, table)
    {
      c := c ^ Place(MaskByte(i, j, table), j);
    }
    FinishGroup(w, i, sq, table, swapped, c);
    c := c ^ sq;
  }

  /** `c = *pc`: the int at index p, read little-endian. */
  method LoadWord(data: array<bv8>, p: nat) returns (c: bv32)
    requires p + 4 <= data.Length
    ensures c == WordAt(data[..], p)
  {
    c := LoadLE(data[p], data[p + 1], data[p + 2], data[p + 3]);
  }

  /** `*pc = c`: the four bytes of c stored from index p, lowest first. */
  method StoreWord(data: array<bv8>, p: nat, c: bv32)
    requires p + 4 <= data.Length
    modifies data
    ensures data[..] == StoreLE(old(data[..]), p, c)
  {
    data[p], data[p + 1], data[p + 2], data[p + 3] := ByteOf(c, 0), ByteOf(c, 1), ByteOf(c, 2), ByteOf(c, 3);
  }

  /** `mungelen = len & ~3; mungelen /= 4;`: positive exactly when there are groups to munge, and then their number. */
  method GroupCount(len: Int32) returns (mungelen: int)
    ensures (mungelen <= 0 && Groups(len) == 0) || mungelen == Groups(len)
  {
    mungelen := ClearLow2(len);
    mungelen := CDiv(mungelen, 4);
  }

  /**
   * COM_Munge: rewrites the len & ~3 bytes from data + off in place, one
   * group at a time. The int seq is only used bitwise, so it is passed as
   * its 32-bit pattern.
   */
  method COM_Munge(data: array<bv8>, off: nat, len: Int32, sq: bv32, table: seq<bv8>)
    requires |table| >= 16
    requires Groups(len) == 0 || off + 4 * Groups(len) <= data.Length
    modifies data
    ensures data[..] == Munged(old(data[..]), off, len, sq, table)
  {
    var mungelen := GroupCount(len);
    ghost var s0 := data[..];
    var i := 0;
    while i < mungelen
      invariant (mungelen <= 0 && Groups(len) == 0) || mungelen == Groups(len)
      invariant 0 <= i <= Groups(len)
      invariant data[..] == MungedUpTo(s0, off, i, sq, table, false)
    {
      var pc := off + 4 * i;
      assert pc + 4 <= data.Length;
      ghost var before := data[..];
      var w := LoadWord(data, pc);
      var c := MungeGroup(w, i, sq, table);
      MungeStep(s0, off, i, sq, table, before, w, c);
      StoreWord(data, pc, c);
      i := i + 1;
    }
    assert i == Groups(len);
  }

  // ---------------------------------------------------------------------
  // Properties of the buffer-level munge

  /** Group g of the munged buffer depends only on group g of the input, g itself, the sequence and the table. */
  lemma MungedGroup(s: seq<bv8>, off: nat, len: Int32, sq: bv32, table: seq<bv8>, g: nat)
    requires |table| >= 16 && (Groups(len) == 0 || off + 4 * Groups(len) <= |s|) && g < Groups(len)
    ensures WordAt(Munged(s, off, len, sq, table), off + 4 * g) == MungeWord(WordAt(s, off + 4 * g), g, sq, table)
  {
    StoreGroupsWord(s, off, GroupWords(s, off, Groups(len), sq, table, false), g);
  }

  /** Only the len & ~3 bytes from off are rewritten: the bytes before off and the 1-3 trailing bytes keep their values. */
  lemma MungeOnlyGroups(s: seq<bv8>, off: nat, len: Int32, sq: bv32, table: seq<bv8>)
    requires |table| >= 16 && (Groups(len) == 0 || off + 4 * Groups(len) <= |s|)
    ensures forall k :: 0 <= k < |s| && !(off <= k < off + 4 * Groups(len)) ==> Munged(s, off, len, sq, table)[k] == s[k]
  {
    forall k | 0 <= k < |s| && !(off <= k < off + 4 * Groups(len))
      ensures Munged(s, off, len, sq, table)[k] == s[k]
    {
      StoreGroupsAt(s, off, GroupWords(s, off, Groups(len), sq, table, false), k);
    }
  }

  /** Byte r of the word at p is the byte at p + r. */
  lemma ByteOfWordAt(s: seq<bv8>, p: nat, r: nat)
    requires p + 4 <= |s| && r < 4
    ensures ByteOf(WordAt(s, p), r) == s[p + r]
  {
    ByteOfLoadLE(s[p], s[p + 1], s[p + 2], s[p + 3]);
  }

  /** Group g, rewritten and then rewritten back the other way, is the original word. */
  lemma GroupRoundTrip(s: seq<bv8>, off: nat, n: nat, sq: bv32, table: seq<bv8>, inverse: bool, g: nat)
    requires |table| >= 16 && off + 4 * n <= |s| && g < n
    ensures GroupWord(MungedUpTo(s, off, n, sq, table, inverse), off, g, sq, table, !inverse) == WordAt(s, off + 4 * g)
  {
    var w := WordAt(s, off + 4 * g);
    StoreGroupsWord(s, off, GroupWords(s, off, n, sq, table, inverse), g);
    MungeWordInverse(w, w, g, sq, table);
  }

  /** Byte r of group g, rewritten with n groups and rewritten back the other way, is the original byte. */
  lemma RoundTripGroupByte(s: seq<bv8>, off: nat, n: nat, sq: bv32, table: seq<bv8>, inverse: bool, g: nat, r: nat)
    requires |table| >= 16 && off + 4 * n <= |s| && g < n && r < 4
    ensures MungedUpTo(MungedUpTo(s, off, n, sq, table, inverse), off, n, sq, table, !inverse)[off + 4 * g + r] == s[off + 4 * g + r]
  {
    var m := MungedUpTo(s, off, n, sq, table, inverse);
    var ws := GroupWords(m, off, n, sq, table, !inverse);
    StoreGroupsByte(m, off, ws, g, r);
    assert ws[g] == GroupWord(m, off, g, sq, table, !inverse);
    GroupRoundTrip(s, off, n, sq, table, inverse, g);
    ByteOfWordAt(s, off + 4 * g, r);
  }

  /** A byte outside the n groups, rewritten and rewritten back, is the original byte. */
  lemma RoundTripOtherByte(s: seq<bv8>, off: nat, n: nat, sq: bv32, table: seq<bv8>, inverse: bool, k: nat)
    requires |table| >= 16 && (n == 0 || off + 4 * n <= |s|) && k < |s| && !(off <= k < off + 4 * n)
    ensures MungedUpTo(MungedUpTo(s, off, n, sq, table, inverse), off, n, sq, table, !inverse)[k] == s[k]
  {
    var m := MungedUpTo(s, off, n, sq, table, inverse);
    StoreGroupsAt(m, off, GroupWords(m, off, n, sq, table, !inverse), k);
    StoreGroupsAt(s, off, GroupWords(s, off, n, sq, table, inverse), k);
  }

  /** Byte k, rewritten with n groups and rewritten back the other way, is the original byte. */
  lemma RoundTripByte(s: seq<bv8>, off: nat, n: nat, sq: bv32, table: seq<bv8>, inverse: bool, k: nat)
    requires |table| >= 16 && (n == 0 || off + 4 * n <= |s|) && k < |s|
    ensures MungedUpTo(MungedUpTo(s, off, n, sq, table, inverse), off, n, sq, table, !inverse)[k] == s[k]
  {
    if off <= k < off + 4 * n {
      var g, r := (k - off) / 4, (k - off) % 4;
      assert k == off + 4 * g + r;
      RoundTripGroupByte(s, off, n, sq, table, inverse, g, r);
    } else {
      RoundTripOtherByte(s, off, n, sq, table, inverse, k);
    }
  }

  /** Rewriting n groups and then rewriting them back the other way restores the buffer. */
  lemma MungedUpToRoundTrip(s: seq<bv8>, off: nat, n: nat, sq: bv32, table: seq<bv8>, inverse: bool)
    requires |table| >= 16 && (n == 0 || off + 4 * n <= |s|)
    ensures MungedUpTo(MungedUpTo(s, off, n, sq, table, inverse), off, n, sq, table, !inverse) == s
  {
    var r := MungedUpTo(MungedUpTo(s, off, n, sq, table, inverse), off, n, sq, table, !inverse);
    forall k | 0 <= k < |s|
      ensures r[k] == s[k]
    {
      RoundTripByte(s, off, n, sq, table, inverse, k);
    }
  }

  /** The buffer-level munge is a bijection: Unmunged undoes Munged, and Munged undoes Unmunged. */
  lemma UnmungeRoundTrip(s: seq<bv8>, off: nat, len: Int32, sq: bv32, table: seq<bv8>)
    requires |table| >= 16 && (Groups(len) == 0 || off + 4 * Groups(len) <= |s|)
    ensures Unmunged(Munged(s, off, len, sq, table), off, len, sq, table) == s
    ensures Munged(Unmunged(s, off, len, sq, table), off, len, sq, table) == s
  {
    MungedUpToRoundTrip(s, off, Groups(len), sq, table, false);
    MungedUpToRoundTrip(s, off, Groups(len), sq, table, true);
  }

  /**
   * The buffer step of COM_MungeFile: the whole file is in buf, and
   * everything from byte 8 on is munged with mungify_table2, its length
   * being the file size minus 8.
   */
  method MungeFileBuffer(buf: array<bv8>, sequence: Int32)
    requires buf.Length < 0x8000_0000
    modifies buf
    ensures buf[..] == Munged(old(buf[..]), 8, buf.Length - 8, Bits(sequence), MungifyTable2)
    ensures forall k :: 0 <= k < 8 && k < buf.Length ==> buf[k] == old(buf[k])
  {
    ghost var s0 := buf[..];
    COM_Munge(buf, 8, buf.Length - 8, Bits(sequence), MungifyTable2);
    MungeOnlyGroups(s0, 8, buf.Length - 8, Bits(sequence), MungifyTable2);
    assert forall k :: 0 <= k < 8 && k < buf.Length ==> buf[k] == buf[..][k];
  }
}
