/**
 How the migrator turns bytes into database keys and object keys (src/utils/transaction.ts,
 src/utils/number.ts, and the `toString('hex')` calls of src/assets).

 A database key is built by decoding bytes as Latin-1 text, putting an ASCII prefix in
 front and encoding the text as UTF-8 (section 3 of RFC 3629). Bytes from 0x80 up take two
 bytes in the key, so keys of equally long identifiers differ in length. UTF-8 and hex are
 both codes that replace each byte by a code word; one proof covers both.
*/
module KeyEncoding {
  import opened ByteStrings
  import opened Sequences
  import BigEndian

  // ----- Codes: one word per byte -----

  /** The first difference lies inside both words and puts `a` first. */
  predicate ComesFirst(a: Bytes, b: Bytes) {
    exists i :: 0 <= i < |a| && i < |b| && a[..i] == b[..i] && a[i] < b[i]
  }

  /** Words of different bytes differ inside both words, in the order of the bytes. */
  ghost predicate OrderedCode(code: byte -> Bytes) {
    && (forall x: byte :: code(x) != [])
    && (forall x: byte, y: byte :: x < y ==> ComesFirst(code(x), code(y)))
  }

  function Spell(code: byte -> Bytes, s: Bytes): Bytes {
    if s == [] then [] else code(s[0]) + Spell(code, s[1..])
  }

  lemma ComesFirstDecides(a: Bytes, b: Bytes, x: Bytes, y: Bytes)
    requires ComesFirst(a, b)
    ensures Less(a + x, b + y) && !(a + x <= b + y) && !(b + y <= a + x)
  {
    var i :| 0 <= i < |a| && i < |b| && a[..i] == b[..i] && a[i] < b[i];
    assert (a + x)[..i] == a[..i] && (b + y)[..i] == b[..i];
    assert (a + x)[i] == a[i] && (b + y)[i] == b[i];
    DifferenceDecides(a + x, b + y, i);
  }

  /** Spelling preserves and reflects both the order and the prefix relation. */
  lemma {:induction false} SpellOrder(code: byte -> Bytes, a: Bytes, b: Bytes)
    requires OrderedCode(code)
    ensures Less(Spell(code, a), Spell(code, b)) <==> Less(a, b)
    ensures Spell(code, a) <= Spell(code, b) <==> a <= b
  {
    if a == [] || b == [] {
    } else {
      var x, y := Spell(code, a[1..]), Spell(code, b[1..]);
      if a[0] == b[0] {
        SpellOrder(code, a[1..], b[1..]);
        LessCommonPrefix(code(a[0]), x, y);
        assert (code(a[0]) + x <= code(a[0]) + y) == (x <= y) by {
          if code(a[0]) + x <= code(a[0]) + y {
            assert x == (code(a[0]) + x)[|code(a[0])|..] <= (code(a[0]) + y)[|code(a[0])|..] == y;
          }
        }
        assert a == [a[0]] + a[1..] && b == [b[0]] + b[1..];
      } else if a[0] < b[0] {
        ComesFirstDecides(code(a[0]), code(b[0]), x, y);
      } else {
        ComesFirstDecides(code(b[0]), code(a[0]), y, x);
        LessAsymmetric(Spell(code, b), Spell(code, a));
      }
    }
  }

  lemma SpellInjective(code: byte -> Bytes, a: Bytes, b: Bytes)
    requires OrderedCode(code) && Spell(code, a) == Spell(code, b)
    ensures a == b
  {
    SpellOrder(code, a, b);
    SpellOrder(code, b, a);
  }

  lemma {:induction false} SpellAppend(code: byte -> Bytes, a: Bytes, b: Bytes)
    ensures Spell(code, a + b) == Spell(code, a) + Spell(code, b)
  {
    if a == [] {
      assert a + b == b;
    } else {
      assert (a + b)[1..] == a[1..] + b;
      SpellAppend(code, a[1..], b);
    }
  }

  // ----- Latin-1 text and UTF-8 -----

  type Latin1 = s: string | forall i :: 0 <= i < |s| ==> s[i] as int < 256

  /** The code units of a text. */
  function Units(s: Latin1): (u: Bytes)
    ensures |u| == |s|
  {
    seq(|s|, i requires 0 <= i < |s| => s[i] as int)
  }

  /** `keyString`: bytes read as Latin-1 text. */
  function KeyString(key: Bytes): (s: Latin1)
    ensures |s| == |key|
  {
    seq(|key|, i requires 0 <= i < |key| => key[i] as char)
  }

  lemma KeyStringUnits(key: Bytes)
    ensures Units(KeyString(key)) == key
  {
  }

  function Utf8Unit(u: byte): Bytes {
    if u < 0x80 then [u] else [0xC0 + u / 64, 0x80 + u % 64]
  }

  /** `Buffer.from(text)`, for the Latin-1 texts that keys are built from. */
  function BufferFrom(text: Latin1): Bytes {
    Spell(Utf8Unit, Units(text))
  }

  lemma Utf8IsOrderedCode()
    ensures OrderedCode(Utf8Unit)
  {
    forall x: byte, y: byte | x < y ensures ComesFirst(Utf8Unit(x), Utf8Unit(y)) {
      var a, b := Utf8Unit(x), Utf8Unit(y);
      assert a[..0] == b[..0];
      if x >= 0x80 && a[0] == b[0] {
        assert a[..1] == b[..1] && a[1] < b[1];
      }
    }
  }

  /**
   A strict decoder of UTF-8 for the code points up to U+00FF (section 3 of RFC 3629): 0xxxxxxx
   stands for itself, 1100001x 10xxxxxx for the eight bits marked; anything else is malformed.
  */
  function DecodeUtf8(b: Bytes): Option<Bytes> {
    if b == [] then Some([])
    else if b[0] <= 0x7F then WithUnit(b[0], DecodeUtf8(b[1..]))
    else if 0xC2 <= b[0] <= 0xC3 && |b| >= 2 && 0x80 <= b[1] <= 0xBF
    then WithUnit((b[0] - 0xC0) * 64 + (b[1] - 0x80), DecodeUtf8(b[2..]))
    else None
  }

  function WithUnit(unit: byte, rest: Option<Bytes>): Option<Bytes> {
    match rest case None => None case Some(units) => Some([unit] + units)
  }

  lemma {:induction false} Utf8Decodes(units: Bytes)
    ensures DecodeUtf8(Spell(Utf8Unit, units)) == Some(units)
  {
    if units == [] {
    } else {
      var w, rest := Utf8Unit(units[0]), Spell(Utf8Unit, units[1..]);
      Utf8Decodes(units[1..]);
      assert (w + rest)[|w|..] == rest;
      assert units == [units[0]] + units[1..];
    }
  }

  lemma {:induction false} Utf8Encodes(b: Bytes)
    requires DecodeUtf8(b).Some?
    ensures Spell(Utf8Unit, DecodeUtf8(b).value) == b
  {
    if b == [] {
    } else {
      var n := if b[0] <= 0x7F then 1 else 2;
      var units := DecodeUtf8(b).value;
      Utf8Encodes(b[n..]);
      assert units[1..] == DecodeUtf8(b[n..]).value;
      assert Utf8Unit(units[0]) == b[..n];
      assert b == b[..n] + b[n..];
    }
  }

  /** The encoding of a text is the one byte string that decodes to it. */
  lemma BufferFromIsUtf8(text: Latin1, b: Bytes)
    ensures b == BufferFrom(text) <==> DecodeUtf8(b) == Some(Units(text))
  {
    Utf8Decodes(Units(text));
    if DecodeUtf8(b).Some? { Utf8Encodes(b); }
  }

  /** Text below U+0080 is encoded as it stands. */
  lemma {:induction false} AsciiStands(units: Bytes)
    requires forall i :: 0 <= i < |units| ==> units[i] < 0x80
    ensures Spell(Utf8Unit, units) == units
  {
    if units == [] {
    } else {
      AsciiStands(units[1..]);
      assert units == [units[0]] + units[1..];
    }
  }

  /** UTF-8 of Latin-1 text has no byte above 0xC3. */
  lemma {:induction false} Utf8HasNoMaximalByte(s: Bytes, i: nat)
    requires i < |Spell(Utf8Unit, s)|
    ensures Spell(Utf8Unit, s)[i] <= 0xC3
  {
    var w := Utf8Unit(s[0]);
    if i < |w| {
    } else {
      Utf8HasNoMaximalByte(s[1..], i - |w|);
    }
  }

  /** The key under which `payload` is stored below `prefix`. */
  function DbKey(prefix: Latin1, payload: Bytes): Bytes {
    BufferFrom(prefix + ":" + KeyString(payload))
  }

  /** The encoded prefix, colon included. */
  function Head(prefix: Latin1): Bytes {
    BufferFrom(prefix + ":")
  }

  lemma DbKeyShape(prefix: Latin1, payload: Bytes)
    ensures DbKey(prefix, payload) == Head(prefix) + Spell(Utf8Unit, payload)
  {
    var p: Latin1 := prefix + ":";
    var k := KeyString(payload);
    KeyStringUnits(payload);
    assert Units(p + k) == Units(p) + Units(k);
    SpellAppend(Utf8Unit, Units(p), Units(k));
  }

  /** The key is UTF-8 and reads as the prefix, a colon and the payload. */
  predicate Reads(key: Bytes, prefix: Latin1, payload: Bytes) {
    DecodeUtf8(key) == Some(Units(prefix) + [0x3A] + payload)
  }

  /** Exactly the key built from prefix and payload reads as them. */
  lemma DbKeyReads(prefix: Latin1, payload: Bytes, key: Bytes)
    ensures key == DbKey(prefix, payload) <==> Reads(key, prefix, payload)
  {
    var text: Latin1 := prefix + ":" + KeyString(payload);
    KeyStringUnits(payload);
    assert Units(text) == Units(prefix) + [0x3A] + payload;
    BufferFromIsUtf8(text, key);
  }

  /** A prefix below U+0080 starts its keys as it stands. */
  lemma HeadStands(prefix: Latin1)
    requires forall i :: 0 <= i < |prefix| ==> prefix[i] as int < 0x80
    ensures Head(prefix) == Units(prefix) + [0x3A]
  {
    var text: Latin1 := prefix + ":";
    assert Units(text) == Units(prefix) + [0x3A];
    AsciiStands(Units(text));
  }

  /**
   Keys below one prefix: order preserving, injective, and a key extends another exactly
   when its payload does. Hence no key of a fixed-length payload extends another one.
  */
  lemma DbKeyOrder(prefix: Latin1, a: Bytes, b: Bytes)
    ensures Less(DbKey(prefix, a), DbKey(prefix, b)) <==> Less(a, b)
    ensures DbKey(prefix, a) == DbKey(prefix, b) <==> a == b
    ensures DbKey(prefix, a) <= DbKey(prefix, b) <==> a <= b
    ensures |a| == |b| && DbKey(prefix, a) <= DbKey(prefix, b) ==> a == b
  {
    Utf8IsOrderedCode();
    DbKeyShape(prefix, a);
    DbKeyShape(prefix, b);
    var h, x, y := Head(prefix), Spell(Utf8Unit, a), Spell(Utf8Unit, b);
    SpellOrder(Utf8Unit, a, b);
    LessCommonPrefix(h, x, y);
    if h + x <= h + y {
      assert x == (h + x)[|h|..] <= (h + y)[|h|..] == y;
    }
    if h + x == h + y {
      assert x == (h + x)[|h|..] == y;
      SpellInjective(Utf8Unit, a, b);
    }
  }

  /** Every key ends in a byte that can be incremented without a carry. */
  lemma DbKeyLastByte(prefix: Latin1, payload: Bytes)
    ensures DbKey(prefix, payload) != []
    ensures DbKey(prefix, payload)[|DbKey(prefix, payload)| - 1] <= 0xC3
  {
    var text: Latin1 := prefix + ":" + KeyString(payload);
    assert Units(text) != [];
    Utf8HasNoMaximalByte(Units(text), |DbKey(prefix, payload)| - 1);
  }

  /** A key begins with the first letter of its prefix. */
  lemma DbKeyFirstByte(prefix: Latin1, payload: Bytes)
    requires prefix != "" && prefix[0] as int < 0x80
    ensures DbKey(prefix, payload) != [] && DbKey(prefix, payload)[0] == prefix[0] as int
  {
    var text: Latin1 := prefix + ":" + KeyString(payload);
    assert Units(text)[0] == prefix[0] as int;
  }

  // ----- Hex -----

  function HexDigit(d: int): (c: byte)
    requires 0 <= d < 16
  {
    if d < 10 then 48 + d else 87 + d
  }

  function HexWord(b: byte): Bytes {
    [HexDigit(b / 16), HexDigit(b % 16)]
  }

  /** `bytes.toString('hex')` */
  function ToHex(b: Bytes): Latin1 {
    KeyString(Spell(HexWord, b))
  }

  function HexValue(c: char): (v: int)
    ensures -1 <= v < 16
  {
    if '0' <= c <= '9' then c as int - 48
    else if 'a' <= c <= 'f' then c as int - 87
    else if 'A' <= c <= 'F' then c as int - 55
    else -1
  }

  /** `Buffer.from(text, 'hex')`: decoding stops at the first pair that is not hex. */
  function FromHex(s: string): Bytes {
    if |s| < 2 || HexValue(s[0]) < 0 || HexValue(s[1]) < 0 then []
    else [16 * HexValue(s[0]) + HexValue(s[1])] + FromHex(s[2..])
  }

  const HEX_LETTERS := "0123456789abcdef"
  const HEX_CAPITALS := "0123456789ABCDEF"

  /** Hex text has two letters a byte, lower-case, the upper half of the byte first. */
  lemma {:induction false} HexLetters(b: Bytes)
    ensures |ToHex(b)| == 2 * |b|
    ensures forall i :: 0 <= i < |b| ==>
      ToHex(b)[2 * i] == HEX_LETTERS[b[i] / 16] && ToHex(b)[2 * i + 1] == HEX_LETTERS[b[i] % 16]
  {
    if b == [] {
    } else {
      HexLetters(b[1..]);
      assert Spell(HexWord, b) == HexWord(b[0]) + Spell(HexWord, b[1..]);
      assert ToHex(b)[2..] == ToHex(b[1..]);
      HexDigitIs(b[0] / 16);
      HexDigitIs(b[0] % 16);
      forall i | 1 <= i < |b|
        ensures ToHex(b)[2 * i] == HEX_LETTERS[b[i] / 16] && ToHex(b)[2 * i + 1] == HEX_LETTERS[b[i] % 16] {
        assert ToHex(b)[2 * i] == ToHex(b)[2..][2 * (i - 1)] && ToHex(b)[2 * i + 1] == ToHex(b)[2..][2 * (i - 1) + 1];
        assert b[1..][i - 1] == b[i];
      }
    }
  }

  lemma HexDigitIs(d: int)
    requires 0 <= d < 16
    ensures HexDigit(d) == HEX_LETTERS[d] as int
  {
  }

  /** The letter stands for the value, as a small letter or a capital. */
  predicate HexLetterFor(c: char, v: int) {
    0 <= v < 16 && (c == HEX_LETTERS[v] || c == HEX_CAPITALS[v])
  }

  lemma HexValueIs(c: char, v: int)
    ensures HexLetterFor(c, v) <==> HexValue(c) == v && v >= 0
  {
    if 0 <= v < 16 { HexDigitIs(v); }
  }

  /** Two letters that stand for the byte. */
  predicate HexPairFor(s: string, i: nat, b: int) {
    i + 1 < |s| && HexLetterFor(s[i], b / 16) && HexLetterFor(s[i + 1], b % 16)
  }

  lemma HexPairInTail(s: string, i: nat, b: int)
    requires |s| >= 2
    ensures HexPairFor(s[2..], i, b) <==> HexPairFor(s, i + 2, b)
  {
  }

  ghost predicate NoHexPairAt(s: string, i: nat) {
    forall x: byte :: !HexPairFor(s, i, x)
  }

  /** The bytes are the pairs of letters, of either case, up to the first that are not a pair. */
  ghost predicate HexReads(s: string, b: Bytes) {
    NoHexPairAt(s, 2 * |b|) && forall i :: 0 <= i < |b| ==> HexPairFor(s, 2 * i, b[i])
  }

  lemma HexReadsOn(s: string, first: byte, rest: Bytes)
    requires HexPairFor(s, 0, first) && HexReads(s[2..], rest)
    ensures HexReads(s, [first] + rest)
  {
    var b := [first] + rest;
    forall i | 1 <= i < |b| ensures HexPairFor(s, 2 * i, b[i]) {
      assert HexPairFor(s[2..], 2 * (i - 1), rest[i - 1]);
      HexPairInTail(s, 2 * (i - 1), rest[i - 1]);
    }
    forall x: byte ensures !HexPairFor(s, 2 * |b|, x) { HexPairInTail(s, 2 * |rest|, x); }
  }

  predicate StartsWithHexPair(s: string) {
    |s| >= 2 && HexValue(s[0]) >= 0 && HexValue(s[1]) >= 0
  }

  lemma HexPairIs(s: string)
    ensures if StartsWithHexPair(s) then HexPairFor(s, 0, 16 * HexValue(s[0]) + HexValue(s[1])) else NoHexPairAt(s, 0)
  {
    if |s| >= 2 {
      forall x: byte | HexPairFor(s, 0, x) ensures StartsWithHexPair(s) {
        HexValueIs(s[0], x / 16);
        HexValueIs(s[1], x % 16);
      }
      HexValueIs(s[0], HexValue(s[0]));
      HexValueIs(s[1], HexValue(s[1]));
    }
  }

  lemma FromHexUnfolds(s: string)
    ensures FromHex(s) ==
      if StartsWithHexPair(s) then [16 * HexValue(s[0]) + HexValue(s[1])] + FromHex(s[2..]) else []
  {
  }

  lemma {:induction false} FromHexReads(s: string)
    ensures HexReads(s, FromHex(s))
    decreases |s|
  {
    HexPairIs(s);
    FromHexUnfolds(s);
    if !StartsWithHexPair(s) {
    } else {
      FromHexReads(s[2..]);
      HexReadsOn(s, 16 * HexValue(s[0]) + HexValue(s[1]), FromHex(s[2..]));
    }
  }

  lemma HexIsOrderedCode()
    ensures OrderedCode(HexWord)
  {
    forall x: byte, y: byte | x < y ensures ComesFirst(HexWord(x), HexWord(y)) {
      var a, b := HexWord(x), HexWord(y);
      assert a[..0] == b[..0];
      if a[0] == b[0] {
        assert a[..1] == b[..1] && a[1] < b[1];
      }
    }
  }

  /** Hex text sorts as the bytes do, and different bytes have different texts. */
  lemma HexOrder(a: Bytes, b: Bytes)
    ensures Less(Units(ToHex(a)), Units(ToHex(b))) <==> Less(a, b)
    ensures ToHex(a) == ToHex(b) <==> a == b
  {
    HexIsOrderedCode();
    KeyStringUnits(Spell(HexWord, a));
    KeyStringUnits(Spell(HexWord, b));
    SpellOrder(HexWord, a, b);
    if ToHex(a) == ToHex(b) { SpellInjective(HexWord, a, b); }
  }

  lemma {:induction false} HexRoundTrip(b: Bytes)
    ensures FromHex(ToHex(b)) == b
  {
    if b == [] {
    } else {
      HexRoundTrip(b[1..]);
      var s := ToHex(b);
      assert Spell(HexWord, b) == HexWord(b[0]) + Spell(HexWord, b[1..]);
      assert s[2..] == ToHex(b[1..]);
      assert 16 * HexValue(s[0]) + HexValue(s[1]) == b[0];
    }
  }

  // ----- formatInt -----

  /** A JavaScript `number` or `bigint` with an integral value. */
  datatype Integer = Number(value: int) | BigInt(value: int)

  datatype FormatError = NegativeNumber | OutOfRange

  datatype Formatted = Text(text: Latin1) | Rejected(error: FormatError)

  function Width(num: Integer): nat {
    if num.BigInt? then 8 else 4
  }

  function Format(num: Integer): Formatted {
    if num.value < 0 then Rejected(NegativeNumber)
    else if num.value >= BigEndian.Power256(Width(num)) then Rejected(OutOfRange)
    else Text(KeyString(BigEndian.Digits(num.value, Width(num))))
  }

  /** `formatInt`: the range check is that of `writeUInt32BE` and `writeBigUInt64BE`. */
  method FormatInt(num: Integer) returns (r: Formatted)
    ensures r == Format(num)
  {
    if num.value < 0 {
      return Rejected(NegativeNumber);
    }
    var buf: array<byte>;
    if num.BigInt? {
      buf := new byte[8];
    } else {
      buf := new byte[4];
    }
    if num.value >= BigEndian.Power256(buf.Length) {
      return Rejected(OutOfRange);
    }
    BigEndian.WriteBigEndian(buf, num.value);
    return Text(KeyString(buf[..]));
  }

  lemma FormatRange(n: int)
    ensures Format(Number(n)).Text? <==> 0 <= n < 0x1_0000_0000
    ensures Format(BigInt(n)).Text? <==> 0 <= n < 0x1_0000_0000_0000_0000
  {
    assert BigEndian.Power256(4) == 0x1_0000_0000;
    assert BigEndian.Power256(8) == 256 * 256 * 256 * 256 * BigEndian.Power256(4);
  }

  /** The key built from a formatted number. */
  function NumberKey(prefix: Latin1, num: Integer): Bytes
    requires Format(num).Text?
  {
    BufferFrom(prefix + ":" + Format(num).text)
  }

  /** A number key reads as the prefix and the number in eight or four big-endian bytes. */
  lemma NumberKeyReads(prefix: Latin1, num: Integer, key: Bytes)
    requires Format(num).Text?
    ensures key == NumberKey(prefix, num) <==>
      exists d: Bytes :: Reads(key, prefix, d) && BigEndian.Value(d) == num.value && |d| == if num.BigInt? then 8 else 4
  {
    var digits := BigEndian.Digits(num.value, Width(num));
    BigEndian.DigitsValue(num.value, Width(num));
    DbKeyReads(prefix, digits, key);
    forall d: Bytes
      | Reads(key, prefix, d) && BigEndian.Value(d) == num.value && |d| == if num.BigInt? then 8 else 4
      ensures d == digits {
      BigEndian.OrderIsNumeric(d, digits);
    }
  }

  lemma NumberKeyHead(prefix: Latin1, num: Integer)
    requires Format(num).Text?
    ensures Head(prefix) <= NumberKey(prefix, num)
  {
    DbKeyShape(prefix, BigEndian.Digits(num.value, Width(num)));
  }

  /** Number keys of one kind sort as the numbers do, so they are also distinct. */
  lemma NumberKeyOrder(prefix: Latin1, m: Integer, n: Integer)
    requires m.BigInt? == n.BigInt?
    requires Format(m).Text? && Format(n).Text?
    ensures Less(NumberKey(prefix, m), NumberKey(prefix, n)) <==> m.value < n.value
    ensures NumberKey(prefix, m) == NumberKey(prefix, n) <==> m.value == n.value
  {
    var a, b := BigEndian.Digits(m.value, Width(m)), BigEndian.Digits(n.value, Width(n));
    DbKeyOrder(prefix, a, b);
    BigEndian.DigitsValue(m.value, Width(m));
    BigEndian.DigitsValue(n.value, Width(n));
    BigEndian.OrderIsNumeric(a, b);
  }

  lemma NumberKeyInjective(prefix: Latin1, m: int, n: int)
    requires Format(Number(m)).Text? && Format(Number(n)).Text?
    requires NumberKey(prefix, Number(m)) == NumberKey(prefix, Number(n))
    ensures m == n
  {
    NumberKeyOrder(prefix, Number(m), Number(n));
  }
}
