/** `svn_utf__ucs4cmp` (svn_utf_private.h): three-way comparison of two
    arrays of UCS-4 code points. */
module Ucs4 {

  newtype int32 = x: int | -0x8000_0000 <= x < 0x8000_0000

  /** Compare `a` and `b` element by element; when one is a prefix of the
      other, the shorter one is the smaller.  The sign convention follows the
      header comment literally ("a negative value if BUFA is greater than
      BUFB"), which is the reverse of the usual `strcmp` convention; callers
      only test the result against zero, and the contract below commits to no
      more than that: zero exactly on equality, opposite signs for swapped
      arguments, and a consistent (transitive) order.  The values -1, 0 and 1
      are this model's choice: the header promises a sign, not a range. */
  function Ucs4Cmp(a: seq<int32>, b: seq<int32>): (r: int)
    ensures -1 <= r <= 1
    ensures r == 0 <==> a == b
    decreases |a|
  {
    if |a| == 0 || |b| == 0 then
      (if |a| == |b| then 0 else if |a| > |b| then -1 else 1)
    else if a[0] != b[0] then
      (if a[0] > b[0] then -1 else 1)
    else
      assert a == [a[0]] + a[1..] && b == [b[0]] + b[1..];
      Ucs4Cmp(a[1..], b[1..])
  }

  lemma {:induction false} Ucs4CmpAntisymmetric(a: seq<int32>, b: seq<int32>)
    ensures Ucs4Cmp(b, a) == -Ucs4Cmp(a, b)
    decreases |a|
  {
    if |a| > 0 && |b| > 0 && a[0] == b[0] {
      Ucs4CmpAntisymmetric(a[1..], b[1..]);
    }
  }

  lemma {:induction false} Ucs4CmpTransitive(a: seq<int32>, b: seq<int32>, c: seq<int32>)
    requires Ucs4Cmp(a, b) < 0 && Ucs4Cmp(b, c) < 0
    ensures Ucs4Cmp(a, c) < 0
    decreases |a|
  {
    if |a| > 0 && |b| > 0 && |c| > 0 && a[0] == b[0] && b[0] == c[0] {
      Ucs4CmpTransitive(a[1..], b[1..], c[1..]);
    }
  }
}
