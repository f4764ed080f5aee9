/**
 * The NUL-terminated string helpers of Utils/InlineCode.h.
 *
 * A C pointer to a string is modelled as the sequence of code units that can
 * be read from it; the string itself is the part before the first NUL.
 */
module WideString {
  import opened Wrappers

  /** A Windows wchar_t: an unsigned 16-bit code unit. */
  type WChar = c: int | 0 <= c < 0x1_0000

  /** A char of MSVC, which is signed: -128..127. */
  type AChar = c: int | -0x80 <= c < 0x80

  const NUL := 0

  /** A pointer to s[0] reads a terminated string: some unit of s is NUL. */
  predicate IsCStr(s: seq<int>) {
    NUL in s
  }

  /** Index of the first NUL, the length of the string. */
  function Len(s: seq<int>): (n: nat)
    requires IsCStr(s)
    ensures n < |s| && s[n] == NUL
    ensures forall k :: 0 <= k < n ==> s[k] != NUL
  {
    if s[0] == NUL then 0 else 1 + Len(s[1..])
  }

  /** The code units of the string, without its terminator. */
  function Content(s: seq<int>): (c: seq<int>)
    requires IsCStr(s)
    ensures |c| < |s| && NUL !in c && s[|c|] == NUL
    ensures forall k :: 0 <= k < |c| ==> c[k] == s[k]
  {
    s[..Len(s)]
  }

  /**
   * Upper-casing as StrICompW does it: a unit in 'a'..'z' has bit 0x20 cleared,
   * every other unit is left as it is.
   */
  function Fold(c: int): (r: int)
    ensures 'a' as int <= c <= 'z' as int ==> r == c - 0x20 && 'A' as int <= r <= 'Z' as int
    ensures !('a' as int <= c <= 'z' as int) ==> r == c
    ensures r == NUL <==> c == NUL
  {
    if 'a' as int <= c <= 'z' as int then CaseBit(c); ((c as bv16) ^ 0x20) as int else c
  }

  /** Every unit in 'a'..'z' has bit 0x20 set, so XORing it out subtracts 0x20. */
  lemma CaseBit(c: int)
    requires 'a' as int <= c <= 'z' as int
    ensures ((c as bv16) ^ 0x20) as int == c - 0x20
  {
  }

  function FoldAll(s: seq<int>): (r: seq<int>)
    ensures |r| == |s| && forall k :: 0 <= k < |s| ==> r[k] == Fold(s[k])
  {
    seq(|s|, k requires 0 <= k < |s| => Fold(s[k]))
  }

  /** The two strings are equal once 'a'..'z' are folded to upper case. */
  predicate EqualsIgnoreCase(a: seq<int>, b: seq<int>)
    requires IsCStr(a) && IsCStr(b)
  {
    FoldAll(Content(a)) == FoldAll(Content(b))
  }

  /**
   * The position at which StrICompW's loop stops when started at k: the first
   * position from k on whose folded units differ or are NUL.
   */
  function StopIndex(a: seq<int>, b: seq<int>, k: nat): (r: nat)
    requires IsCStr(a) && IsCStr(b)
    requires k <= Len(a) && k <= Len(b)
    ensures k <= r <= Len(a) && r <= Len(b)
    ensures Fold(a[r]) != Fold(b[r]) || a[r] == NUL
    ensures forall j :: k <= j < r ==> Fold(a[j]) == Fold(b[j]) && a[j] != NUL
    decreases Len(a) - k
  {
    if Fold(a[k]) != Fold(b[k]) || Fold(a[k]) == NUL then k else StopIndex(a, b, k + 1)
  }

  /**
   * The value StrICompW returns: the difference of the folded units at the
   * first offset where they differ or the first string ends.
   */
  function ICompare(a: seq<int>, b: seq<int>): (r: int)
    requires IsCStr(a) && IsCStr(b)
    ensures exists k ::
      && 0 <= k <= Len(a) && k <= Len(b)
      && (Fold(a[k]) != Fold(b[k]) || a[k] == NUL)
      && (forall j :: 0 <= j < k ==> Fold(a[j]) == Fold(b[j]) && a[j] != NUL)
      && r == Fold(a[k]) - Fold(b[k])
  {
    var k := StopIndex(a, b, 0);
    Fold(a[k]) - Fold(b[k])
  }

  /** The comparison yields 0 exactly when the strings are equal ignoring ASCII case. */
  lemma ICompareZeroIff(a: seq<int>, b: seq<int>)
    requires IsCStr(a) && IsCStr(b)
    ensures ICompare(a, b) == 0 <==> EqualsIgnoreCase(a, b)
  {
    var k := StopIndex(a, b, 0);
    var ca, cb := Content(a), Content(b);
    if ICompare(a, b) == 0 {
      assert a[k] == NUL && b[k] == NUL;
      assert k == Len(a) == Len(b);
      assert FoldAll(ca) == FoldAll(cb);
    }
  }

  /** Swapping the arguments negates the result. */
  lemma ICompareAntisymmetric(a: seq<int>, b: seq<int>)
    requires IsCStr(a) && IsCStr(b)
    ensures ICompare(a, b) == -ICompare(b, a)
  {
  }

  /** A string compares equal to itself. */
  lemma ICompareReflexive(a: seq<int>)
    requires IsCStr(a)
    ensures ICompare(a, a) == 0
  {
    ICompareZeroIff(a, a);
  }

  /** Widening assigns a signed char to a wchar_t: the value is kept modulo 2^16, so negative units are sign-extended. */
  function Widen(c: AChar): (w: WChar)
    ensures 0 <= c ==> w == c
    ensures c < 0 ==> 0xFF80 <= w
    ensures (w - c) % 0x1_0000 == 0
    ensures w == NUL <==> c == NUL
  {
    if c < 0 then c + 0x1_0000 else c
  }

  function WidenAll(s: seq<AChar>): (r: seq<WChar>)
    ensures |r| == |s| && forall k :: 0 <= k < |s| ==> r[k] == Widen(s[k])
  {
    seq(|s|, k requires 0 <= k < |s| => Widen(s[k]))
  }

  /** Widening a string's units and appending the terminator gives a string with the widened content. */
  lemma WidenedContent(s: seq<AChar>)
    requires IsCStr(s)
    ensures var w := WidenAll(Content(s)) + [NUL];
      IsCStr(w) && Content(w) == WidenAll(Content(s))
  {
    var c := WidenAll(Content(s));
    var w := c + [NUL];
    assert w[|c|] == NUL;
    assert forall k :: 0 <= k < |c| ==> w[k] == c[k] != NUL;
    assert w[..|c|] == c;
  }

  /** ZeroMem: bytes [0, count) of the buffer become 0, nothing else changes. */
  method ZeroMem(addr: array<bv8>, count: int)
    requires count <= addr.Length
    modifies addr
    ensures forall k :: 0 <= k < addr.Length ==> addr[k] == if k < count then 0 else old(addr[k])
  {
    var i := 0;
    while i < count
      invariant 0 <= i && (i <= count || i == 0)
      invariant forall k :: 0 <= k < addr.Length ==> addr[k] == if k < i then 0 else old(addr[k])
    {
      addr[i] := 0;
      i := i + 1;
    }
  }

  /** StrICompW: case-insensitive comparison, 0 exactly on equality ignoring ASCII case. */
  method StrICompW(str1: seq<WChar>, str2: seq<WChar>) returns (r: int)
    requires IsCStr(str1) && IsCStr(str2)
    ensures r == ICompare(str1, str2)
    ensures r == 0 <==> EqualsIgnoreCase(str1, str2)
  {
    // p1 and p2 always point at the same offset of their strings
    var p := 0;
    while true
      invariant p <= Len(str1) && p <= Len(str2)
      invariant StopIndex(str1, str2, p) == StopIndex(str1, str2, 0)
      decreases Len(str1) - p
    {
      var c1 := Fold(str1[p]);
      var c2 := Fold(str2[p]);
      if c1 != c2 || c1 == NUL {
        ICompareZeroIff(str1, str2);
        return c1 - c2;
      }
      p := p + 1;
    }
  }

  /** needle occurs in haystack at offset i. */
  predicate OccursAt(haystack: seq<int>, needle: seq<int>, i: nat) {
    i + |needle| <= |haystack| && haystack[i..i + |needle|] == needle
  }

  /** A null pointer or one to an empty string. */
  predicate IsNullOrEmpty(s: Option<seq<WChar>>)
    requires s.Some? ==> IsCStr(s.value)
  {
    s.None? || s.value[0] == NUL
  }

  /**
   * StrPosW: the offset in str1 of the leftmost occurrence of str2 (compared
   * exactly), or null if there is none or either argument is null or empty.
   */
  method StrPosW(str1: Option<seq<WChar>>, str2: Option<seq<WChar>>) returns (r: Option<nat>)
    requires str1.Some? ==> IsCStr(str1.value)
    requires str2.Some? ==> IsCStr(str2.value)
    ensures IsNullOrEmpty(str1) || IsNullOrEmpty(str2) ==> r.None?
    ensures r.Some? ==>
      OccursAt(Content(str1.value), Content(str2.value), r.value) &&
      forall j :: 0 <= j < r.value ==> !OccursAt(Content(str1.value), Content(str2.value), j)
    ensures r.None? && !IsNullOrEmpty(str1) && !IsNullOrEmpty(str2) ==>
      forall j: nat :: !OccursAt(Content(str1.value), Content(str2.value), j)
  {
    if IsNullOrEmpty(str1) || IsNullOrEmpty(str2) {
      return None;
    }
    var s1, s2 := str1.value, str2.value;
    ghost var h, n := Content(s1), Content(s2);
    var matchStart := 0;
    while s1[matchStart] != NUL
      invariant matchStart <= Len(s1)
      invariant forall j :: 0 <= j < matchStart ==> !OccursAt(h, n, j)
      decreases Len(s1) - matchStart
    {
      if s1[matchStart] == s2[0] {
        var l := 1;  // lstr1 is matchStart + l, lstr2 is l
        while true
          invariant 1 <= l <= Len(s2) && matchStart + l <= Len(s1)
          invariant forall m :: 0 <= m < l ==> s1[matchStart + m] == s2[m]
          decreases Len(s2) - l
        {
          if s2[l] == NUL {
            assert h[matchStart..matchStart + |n|] == n;
            return Some(matchStart);
          }
          if s1[matchStart + l] != s2[l] || s1[matchStart + l] == NUL {
            assert matchStart + l < |h| ==> h[matchStart + l] != n[l];
            break;
          }
          l := l + 1;
        }
      }
      matchStart := matchStart + 1;
    }
    return None;
  }

  /** StrLenW: the number of units before the first NUL. */
  method StrLenW(str: seq<WChar>) returns (n: int)
    requires IsCStr(str)
    ensures n == Len(str)
  {
    var ps := 0;
    while str[ps] != NUL
      invariant ps <= Len(str)
      decreases Len(str) - ps
    {
      ps := ps + 1;
    }
    return ps;
  }

  /**
   * AnsiToWide: widens every unit of source up to its NUL into dest and then
   * writes the terminator; the rest of dest is left alone.
   */
  method AnsiToWide(dest: array<WChar>, source: seq<AChar>)
    requires IsCStr(source) && Len(source) < dest.Length
    modifies dest
    ensures forall k :: 0 <= k < dest.Length ==>
      dest[k] == if k <= Len(source) then Widen(source[k]) else old(dest[k])
    ensures IsCStr(dest[..]) && Content(dest[..]) == WidenAll(Content(source))
    ensures Len(dest[..]) == Len(source)
  {
    var d := 0;  // dest and source advance together
    while source[d] != NUL
      invariant d <= Len(source)
      invariant forall k :: 0 <= k < dest.Length ==>
        dest[k] == if k < d then Widen(source[k]) else old(dest[k])
      decreases Len(source) - d
    {
      dest[d] := Widen(source[d]);
      d := d + 1;
    }
    dest[d] := NUL;
    assert dest[..][d] == NUL;
    assert Len(dest[..]) == d by {
      assert forall k :: 0 <= k < d ==> dest[..][k] == Widen(source[k]) != NUL;
    }
  }
}
