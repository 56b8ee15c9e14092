/** Fixed-width big-endian numbers, as read and written by Node's `Buffer`. */
module BigEndian {
  import opened ByteStrings

  function Value(b: Bytes): nat {
    if b == [] then 0 else 256 * Value(b[..|b| - 1]) + b[|b| - 1]
  }

  function Power256(width: nat): (p: nat)
    ensures p >= 1
  {
    if width == 0 then 1 else 256 * Power256(width - 1)
  }

  function Digits(n: nat, width: nat): (b: Bytes)
    ensures |b| == width
  {
    if width == 0 then [] else Digits(n / 256, width - 1) + [n % 256]
  }

  lemma {:induction false} DigitsValue(n: nat, width: nat)
    requires n < Power256(width)
    ensures Value(Digits(n, width)) == n
  {
    if width == 0 {
    } else {
      DigitsValue(n / 256, width - 1);
      var b := Digits(n, width);
      assert b[..|b| - 1] == Digits(n / 256, width - 1);
    }
  }

  lemma {:induction false} ValueBound(b: Bytes)
    ensures Value(b) < Power256(|b|)
  {
    if b == [] {
    } else {
      ValueBound(b[..|b| - 1]);
    }
  }

  lemma {:induction false} LessSameLengthExtend(a: Bytes, b: Bytes, x: Bytes, y: Bytes)
    requires |a| == |b| && Less(a, b)
    ensures Less(a + x, b + y)
  {
    if a[0] != b[0] {
    } else {
      assert (a + x)[1..] == a[1..] + x && (b + y)[1..] == b[1..] + y;
      LessSameLengthExtend(a[1..], b[1..], x, y);
    }
  }

  /** Among byte strings of one length, byte order is numeric order. */
  lemma {:induction false} OrderIsNumeric(a: Bytes, b: Bytes)
    requires |a| == |b|
    ensures Less(a, b) <==> Value(a) < Value(b)
    ensures a == b <==> Value(a) == Value(b)
    decreases |a|
  {
    if a == [] {
    } else {
      var n := |a| - 1;
      var p, q := a[..n], b[..n];
      OrderIsNumeric(p, q);
      assert a == p + [a[n]] && b == q + [b[n]];
      if p == q {
        LessCommonPrefix(p, [a[n]], [b[n]]);
      } else if Less(p, q) {
        LessSameLengthExtend(p, q, [a[n]], [b[n]]);
      } else {
        LessTotal(p, q);
        LessSameLengthExtend(q, p, [b[n]], [a[n]]);
        LessAsymmetric(b, a);
        OrderIsNumeric(q, p);
      }
    }
  }

  /** `writeUIntBE`: fill a buffer from its last byte. */
  method WriteBigEndian(buf: array<byte>, num: nat)
    modifies buf
    ensures buf[..] == Digits(num, buf.Length)
  {
    var rest := num;
    var i := buf.Length;
    while i > 0
      invariant 0 <= i <= buf.Length
      invariant Digits(num, buf.Length) == Digits(rest, i) + buf[i..]
    {
      i := i - 1;
      buf[i] := rest % 256;
      assert Digits(rest, i + 1) == Digits(rest / 256, i) + [buf[i]];
      assert buf[i..] == [buf[i]] + buf[i + 1..];
      rest := rest / 256;
    }
  }
}
