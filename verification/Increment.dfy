/** `incrementOne`: the next byte string of the same length (src/utils/transaction.ts:22-36). */
module Increment {
  import opened ByteStrings
  import opened Sequences
  import BigEndian

  function Successor(b: Bytes): Option<Bytes> {
    if b == [] then None
    else
      var n := |b| - 1;
      if b[n] < 255 then Some(b[..n] + [b[n] + 1])
      else match Successor(b[..n])
        case None => None
        case Some(p) => Some(p + [0])
  }

  /** The byte at which the carry stops. */
  ghost predicate CarryStopsAt(b: Bytes, i: nat) {
    i < |b| && b[i] < 255 && forall k :: i < k < |b| ==> b[k] == 255
  }

  lemma {:induction false} IncrementAt(b: Bytes, i: nat)
    requires CarryStopsAt(b, i)
    ensures Successor(b) == Some(b[..i] + [b[i] + 1] + Filled(|b| - 1 - i, 0))
  {
    var n := |b| - 1;
    if i == n {
      assert b[..i] + [b[i] + 1] + Filled(0, 0) == b[..n] + [b[n] + 1];
    } else {
      IncrementAt(b[..n], i);
      assert b[..n][..i] == b[..i];
      assert b[..i] + [b[i] + 1] + Filled(n - 1 - i, 0) + [0] == b[..i] + [b[i] + 1] + Filled(n - i, 0);
    }
  }

  lemma {:induction false} IncrementFails(b: Bytes)
    ensures Successor(b) == None <==> forall k :: 0 <= k < |b| ==> b[k] == 255
  {
    if b == [] {
    } else {
      IncrementFails(b[..|b| - 1]);
    }
  }

  lemma {:induction false} CarryStops(b: Bytes) returns (i: nat)
    requires Successor(b).Some?
    ensures CarryStopsAt(b, i)
  {
    var n := |b| - 1;
    if b[n] < 255 {
      i := n;
    } else {
      i := CarryStops(b[..n]);
    }
  }

  /** The result is the successor in every sense: same length, value one larger, later in order. */
  lemma {:induction false} IncrementIsSuccessor(b: Bytes)
    requires Successor(b).Some?
    ensures |Successor(b).value| == |b|
    ensures BigEndian.Value(Successor(b).value) == BigEndian.Value(b) + 1
    ensures Less(b, Successor(b).value)
  {
    var n := |b| - 1;
    var c := Successor(b).value;
    if b[n] < 255 {
      assert c[..n] == b[..n];
    } else {
      IncrementIsSuccessor(b[..n]);
      assert c[..n] == Successor(b[..n]).value;
    }
    BigEndian.OrderIsNumeric(b, c);
  }

  /**
   What a scan that resumes at `Successor(k)` steps over: exactly the proper extensions of
   `k` and, when there was a carry, the proper prefixes of the result that come after `k`.
  */
  lemma GapBeforeSuccessor(k: Bytes, x: Bytes)
    requires Successor(k).Some?
    ensures Less(k, x) && Less(x, Successor(k).value)
      <==> k < x || (x < Successor(k).value && Less(k, x))
  {
    var next := Successor(k).value;
    var i := CarryStops(k);
    IncrementAt(k, i);
    if k < x {
      PrefixIsLess(k, x);
      assert x[..i] == k[..i] == next[..i];
      DifferenceDecides(x, next, i);
    }
    if x < next { PrefixIsLess(x, next); }
    if Less(k, x) && Less(x, next) && !(k < x) {
      var j := FirstDifference(k, x);
      assert j < |k|;
      assert j <= i;
      if j < i {
        assert next[..j] == k[..j] && next[j] == k[j];
        DifferenceDecides(next, x, j);
        LessAsymmetric(x, next);
      }
      var d := FirstDifference(x, next);
      assert forall e :: i < e < |next| ==> next[e] == 0;
      assert forall e :: 0 <= e < j ==> x[e] == x[..j][e] == k[..j][e] == next[e];
      assert d == |x|;
      assert x == x[..d] == next[..d];
    }
  }

  /** Without a carry only extensions are stepped over. */
  lemma GapWithoutCarry(k: Bytes, x: Bytes)
    requires k != [] && k[|k| - 1] < 255
    ensures Successor(k).Some?
    ensures Less(k, x) && Less(x, Successor(k).value) <==> k < x
  {
    GapBeforeSuccessor(k, x);
    var next := Successor(k).value;
    if x < next && Less(k, x) {
      PrefixIsLess(x, next);
      assert x <= next[..|k| - 1] == k[..|k| - 1];
      assert x < k;
      PrefixIsLess(x, k);
      LessAsymmetric(x, k);
    }
  }

  datatype Incremented = Next(buffer: array<byte>) | AlreadyMaximum

  /** The carry loop, on a copy of the input. */
  method IncrementOne(input: array<byte>) returns (r: Incremented)
    ensures r.Next? ==> fresh(r.buffer) && Successor(input[..]) == Some(r.buffer[..])
    ensures r.AlreadyMaximum? <==> Successor(input[..]) == None
    ensures input[..] == old(input[..])
  {
    var copied := new byte[input.Length];
    forall k | 0 <= k < input.Length { copied[k] := input[k]; }
    var i := copied.Length - 1;
    while i >= 0
      invariant -1 <= i < copied.Length
      invariant forall k :: 0 <= k <= i ==> copied[k] == input[k]
      invariant forall k :: i < k < copied.Length ==> input[k] == 255 && copied[k] == 0
    {
      var sum := 1 + copied[i] as int;
      copied[i] := sum % 256;
      if sum <= 255 {
        IncrementAt(input[..], i);
        assert copied[..] == input[..][..i] + [input[..][i] + 1] + Filled(input.Length - 1 - i, 0);
        return Next(copied);
      }
      i := i - 1;
    }
    IncrementFails(input[..]);
    return AlreadyMaximum;
  }
}
