/**
  Lexicographic comparison of integer sequences, the order Rust's `Ord for [u8]`
  (and hence `Ord for str`, which compares `as_bytes()`) uses: compare element by
  element; at the first difference the smaller element decides; if one sequence
  is a prefix of the other, the shorter one is smaller.
*/
module Lex {
  import opened Wrappers

  function Compare(a: seq<int>, b: seq<int>): (r: Ordering)
    ensures a == b ==> r == Equal
    ensures r == Equal ==> |a| == |b|
    decreases |a|
  {
    if a == [] && b == [] then Equal
    else if a == [] then Less
    else if b == [] then Greater
    else if a[0] < b[0] then Less
    else if a[0] > b[0] then Greater
    else Compare(a[1..], b[1..])
  }

  /** Reference definition of "a sorts strictly before b", independent of Compare. */
  ghost predicate LexLess(a: seq<int>, b: seq<int>) {
    || (|a| < |b| && a == b[..|a|])
    || exists k :: 0 <= k < |a| && k < |b| && a[..k] == b[..k] && a[k] < b[k]
  }

  lemma {:induction false} CompareEqualIff(a: seq<int>, b: seq<int>)
    ensures Compare(a, b) == Equal <==> a == b
    decreases |a|
  {
    if a != [] && b != [] && a[0] == b[0] {
      CompareEqualIff(a[1..], b[1..]);
      assert a == [a[0]] + a[1..] && b == [b[0]] + b[1..];
    }
  }

  lemma {:induction false} CompareReverse(a: seq<int>, b: seq<int>)
    ensures Compare(b, a) == Compare(a, b).Reverse()
    decreases |a|
  {
    if a != [] && b != [] && a[0] == b[0] {
      CompareReverse(a[1..], b[1..]);
    }
  }

  lemma {:induction false} CompareTransitive(a: seq<int>, b: seq<int>, c: seq<int>)
    requires Compare(a, b) == Less && Compare(b, c) == Less
    ensures Compare(a, c) == Less
    decreases |a|
  {
    if a != [] && b != [] && c != [] && a[0] == b[0] && b[0] == c[0] {
      CompareTransitive(a[1..], b[1..], c[1..]);
    }
  }

  /** A shared prefix does not influence the comparison. */
  lemma {:induction false} CompareCommonPrefix(p: seq<int>, x: seq<int>, y: seq<int>)
    ensures Compare(p + x, p + y) == Compare(x, y)
    decreases |p|
  {
    if p != [] {
      assert (p + x)[0] == p[0] == (p + y)[0];
      assert (p + x)[1..] == p[1..] + x;
      assert (p + y)[1..] == p[1..] + y;
      CompareCommonPrefix(p[1..], x, y);
    } else {
      assert p + x == x && p + y == y;
    }
  }

  /** A first difference at position k, with a[k] < b[k], decides the comparison. */
  lemma {:induction false} CompareDecidedAt(a: seq<int>, b: seq<int>, k: nat)
    requires k < |a| && k < |b| && a[..k] == b[..k] && a[k] < b[k]
    ensures Compare(a, b) == Less
    decreases k
  {
    if k > 0 {
      assert a[0] == a[..k][0] == b[..k][0] == b[0];
      assert a[1..][..k - 1] == a[1..k] == a[..k][1..];
      assert b[1..][..k - 1] == b[1..k] == b[..k][1..];
      CompareDecidedAt(a[1..], b[1..], k - 1);
    }
  }

  /** A proper prefix sorts first. */
  lemma {:induction false} CompareProperPrefix(a: seq<int>, b: seq<int>)
    requires |a| < |b| && a == b[..|a|]
    ensures Compare(a, b) == Less
    decreases |a|
  {
    if a != [] {
      assert a[1..] == b[1..][..|a| - 1];
      CompareProperPrefix(a[1..], b[1..]);
    }
  }

  /** When Compare says Less, LexLess holds: a witness is built from the recursion. */
  lemma {:induction false} CompareLessSound(a: seq<int>, b: seq<int>)
    requires Compare(a, b) == Less
    ensures LexLess(a, b)
    decreases |a|
  {
    if a == [] {
      assert a == b[..0];
    } else if a[0] < b[0] {
      assert a[..0] == b[..0];
    } else {
      CompareLessSound(a[1..], b[1..]);
      if |a| - 1 < |b| - 1 && a[1..] == b[1..][..|a| - 1] {
        assert a == [a[0]] + a[1..];
        assert b[..|a|] == [b[0]] + b[1..][..|a| - 1];
      } else {
        var k :| 0 <= k < |a| - 1 && k < |b| - 1 && a[1..][..k] == b[1..][..k] && a[1..][k] < b[1..][k];
        assert a[..k + 1] == [a[0]] + a[1..][..k];
        assert b[..k + 1] == [b[0]] + b[1..][..k];
        assert a[k + 1] < b[k + 1];
      }
    }
  }

  /** Compare says Less exactly when the reference definition LexLess holds. */
  lemma CompareLessIff(a: seq<int>, b: seq<int>)
    ensures Compare(a, b) == Less <==> LexLess(a, b)
  {
    if LexLess(a, b) {
      if |a| < |b| && a == b[..|a|] {
        CompareProperPrefix(a, b);
      } else {
        var k :| 0 <= k < |a| && k < |b| && a[..k] == b[..k] && a[k] < b[k];
        CompareDecidedAt(a, b, k);
      }
    }
    if Compare(a, b) == Less {
      CompareLessSound(a, b);
    }
  }
}
