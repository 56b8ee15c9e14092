/**
 Byte strings under the order of Node's `Buffer.compare`: the first differing byte decides,
 and a proper prefix comes first. The order is defined once, on sequences of integers, so
 that it also serves the code units of a text.
*/
module ByteStrings {

  type byte = x: int | 0 <= x < 256

  type Bytes = seq<byte>

  /** `Buffer.alloc(n, b)` */
  function Filled(n: nat, b: byte): (f: Bytes)
    ensures |f| == n
  {
    seq(n, _ => b)
  }

  predicate Less(a: seq<int>, b: seq<int>) {
    b != [] && (a == [] || a[0] < b[0] || (a[0] == b[0] && Less(a[1..], b[1..])))
  }

  predicate AtMost(a: seq<int>, b: seq<int>) {
    a == b || Less(a, b)
  }

  lemma {:induction false} LessIrreflexive(a: seq<int>)
    ensures !Less(a, a)
  {
    if a == [] {
    } else {
      LessIrreflexive(a[1..]);
    }
  }

  lemma {:induction false} LessTransitive(a: seq<int>, b: seq<int>, c: seq<int>)
    requires Less(a, b) && Less(b, c)
    ensures Less(a, c)
  {
    if a == [] || a[0] != b[0] || b[0] != c[0] {
    } else {
      LessTransitive(a[1..], b[1..], c[1..]);
    }
  }

  lemma {:induction false} LessTotal(a: seq<int>, b: seq<int>)
    ensures Less(a, b) || a == b || Less(b, a)
  {
    if a == [] || b == [] || a[0] != b[0] {
    } else {
      LessTotal(a[1..], b[1..]);
      assert a[1..] == b[1..] ==> [a[0]] + a[1..] == [b[0]] + b[1..];
    }
  }

  lemma LessAsymmetric(a: seq<int>, b: seq<int>)
    requires Less(a, b)
    ensures a != b && !Less(b, a)
  {
    LessIrreflexive(a);
    if Less(b, a) { LessTransitive(a, b, a); }
  }

  /** Less is the strict part of AtMost. */
  lemma NotAtMost(a: seq<int>, b: seq<int>)
    ensures AtMost(a, b) <==> !Less(b, a)
  {
    LessTotal(a, b);
    if Less(b, a) { LessAsymmetric(b, a); }
  }

  lemma AtMostTransitive(a: seq<int>, b: seq<int>, c: seq<int>)
    requires AtMost(a, b) && AtMost(b, c)
    ensures AtMost(a, c)
    ensures a != b || b != c ==> Less(a, b) || Less(b, c)
    ensures Less(a, b) || Less(b, c) ==> Less(a, c)
  {
    if Less(a, b) && Less(b, c) { LessTransitive(a, b, c); }
  }

  /** A common prefix does not affect the order. */
  lemma {:induction false} LessCommonPrefix(p: seq<int>, a: seq<int>, b: seq<int>)
    ensures Less(p + a, p + b) <==> Less(a, b)
  {
    if p == [] {
      assert p + a == a && p + b == b;
    } else {
      assert (p + a)[1..] == p[1..] + a && (p + b)[1..] == p[1..] + b;
      LessCommonPrefix(p[1..], a, b);
    }
  }

  /** A proper extension comes after the string it extends. */
  lemma {:induction false} PrefixIsLess(a: seq<int>, b: seq<int>)
    requires a < b
    ensures Less(a, b)
  {
    if a == [] {
    } else {
      PrefixIsLess(a[1..], b[1..]);
    }
  }

  /** Everything between two strings with a common prefix has that prefix too. */
  lemma {:induction false} BetweenKeepsPrefix(p: seq<int>, a: seq<int>, x: seq<int>, b: seq<int>)
    requires AtMost(p + a, x) && AtMost(x, p + b)
    ensures p <= x
  {
    if p == [] {
    } else {
      assert (p + a)[1..] == p[1..] + a && (p + b)[1..] == p[1..] + b;
      assert x != [] && x[0] == p[0];
      BetweenKeepsPrefix(p[1..], a, x[1..], b);
    }
  }

  /** The last string in which two strings agree: either one is a prefix, or a byte differs. */
  lemma {:induction false} FirstDifference(a: seq<int>, b: seq<int>) returns (i: nat)
    requires Less(a, b)
    ensures i <= |a| && i < |b| && a[..i] == b[..i]
    ensures i == |a| || a[i] < b[i]
  {
    if a == [] || a[0] < b[0] {
      i := 0;
    } else {
      var j := FirstDifference(a[1..], b[1..]);
      i := j + 1;
      assert a[..i] == [a[0]] + a[1..][..j] && b[..i] == [b[0]] + b[1..][..j];
    }
  }

  /** The converse of FirstDifference. */
  lemma DifferenceDecides(a: seq<int>, b: seq<int>, i: nat)
    requires i <= |a| && i < |b| && a[..i] == b[..i]
    requires i == |a| || a[i] < b[i]
    ensures Less(a, b)
  {
    assert a == a[..i] + a[i..] && b == a[..i] + b[i..];
    LessCommonPrefix(a[..i], a[i..], b[i..]);
  }
}
