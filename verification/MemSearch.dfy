/** The search for one byte string in another, which goes back after a partial match. */
module MemSearch {
  import opened Bytes

  predicate OccursAt(haystack: seq<Byte>, needle: seq<Byte>, i: nat) {
    i + |needle| <= |haystack| && haystack[i..i + |needle|] == needle
  }

  /**
   Zero if the needle occurs.  The needle is not empty: its first byte is read in any case.
   A haystack that is too short gives the difference of the sizes, cut to an `int`.
   */
  method MemSubstr(haystack: seq<Byte>, needle: seq<Byte>) returns (r: int)
    requires needle != []
    ensures |haystack| >= |needle| ==> (r == 0 <==> exists i: nat :: OccursAt(haystack, needle, i))
    ensures |haystack| >= |needle| ==> r == 0 || r == 1
    ensures |haystack| < |needle| ==> r == ToInt32(|haystack| - |needle|)
  {
    if |haystack| < |needle| {
      return ToInt32(|haystack| - |needle|);
    }
    var pos, match_ := 0, 0;
    while pos < |haystack|
      invariant 0 <= match_ <= pos <= |haystack| && match_ < |needle|
      invariant haystack[pos - match_..pos] == needle[..match_]
      invariant forall i: nat :: i < pos - match_ ==> !OccursAt(haystack, needle, i)
      decreases |haystack| - (pos - match_), |needle| - match_
    {
      if haystack[pos] == needle[match_] {
        MatchMore(haystack, needle, pos - match_, match_);
        match_ := match_ + 1;
        if match_ == |needle| {
          assert needle[..match_] == needle && OccursAt(haystack, needle, pos + 1 - match_);
          return 0;
        }
      } else {
        Mismatch(haystack, needle, pos - match_, match_);
        pos := pos - match_;
        match_ := 0;
      }
      pos := pos + 1;
    }
    r := 1;
  }

  lemma MatchMore(haystack: seq<Byte>, needle: seq<Byte>, start: nat, n: nat)
    requires n < |needle| && start + n < |haystack|
    requires haystack[start..start + n] == needle[..n] && haystack[start + n] == needle[n]
    ensures haystack[start..start + n + 1] == needle[..n + 1]
  {
    assert haystack[start..start + n + 1] == haystack[start..start + n] + [haystack[start + n]];
  }

  lemma Mismatch(haystack: seq<Byte>, needle: seq<Byte>, start: nat, n: nat)
    requires n < |needle| && start + n < |haystack| && haystack[start + n] != needle[n]
    ensures !OccursAt(haystack, needle, start)
  {
    assert start + |needle| <= |haystack| ==> haystack[start..start + |needle|][n] == haystack[start + n];
  }

  /** For a haystack that is too short, zero tells a lie just when the sizes differ by a multiple of 2^32. */
  lemma ShortHaystack(haystack: nat, needle: nat)
    requires haystack < needle
    ensures ToInt32(haystack - needle) == 0 <==> (needle - haystack) % 0x1_0000_0000 == 0
  {
    var d := haystack - needle;
    assert (d % 0x1_0000_0000 == 0) <==> (-d) % 0x1_0000_0000 == 0;
  }

  /** A lie: nothing is searched for 2^32 bytes, and they are said to occur. */
  lemma ShortHaystackLies()
    ensures ToInt32(0 - 0x1_0000_0000) == 0
  {
    ShortHaystack(0, 0x1_0000_0000);
  }
}
