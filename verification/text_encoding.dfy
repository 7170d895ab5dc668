/** Text as bytes: what toLocal8Bit makes of a QString in a UTF-8 locale, and reading it back. */
module TextEncoding {

  newtype byte = x: int | 0 <= x < 256

  /** The UTF-8 form of one character (section 3 of RFC 3629). */
  function Utf8(c: char): (bytes: seq<byte>)
    ensures 1 <= |bytes| <= 4
  {
    var x := c as int;
    if x < 0x80 then [x as byte]
    else if x < 0x800 then [(0xC0 + x / 0x40) as byte, (0x80 + x % 0x40) as byte]
    else if x < 0x1_0000 then
      [(0xE0 + x / 0x1000) as byte, (0x80 + x / 0x40 % 0x40) as byte, (0x80 + x % 0x40) as byte]
    else
      [(0xF0 + x / 0x4_0000) as byte, (0x80 + x / 0x1000 % 0x40) as byte, (0x80 + x / 0x40 % 0x40) as byte,
       (0x80 + x % 0x40) as byte]
  }

  function Encoded(text: string): seq<byte> {
    if text == "" then [] else Utf8(text[0]) + Encoded(text[1..])
  }

  ghost predicate IsAscii(text: string) {
    forall i :: 0 <= i < |text| ==> text[i] as int < 0x80
  }

  /** ASCII text is its own bytes. */
  lemma {:induction false} AsciiIsItself(text: string)
    requires IsAscii(text)
    ensures |Encoded(text)| == |text|
    ensures forall i :: 0 <= i < |text| ==> Encoded(text)[i] as int == text[i] as int
  {
    if text != "" {
      AsciiIsItself(text[1..]);
      assert Utf8(text[0]) == [text[0] as byte];
    }
  }

  lemma {:induction false} EncodedAppend(a: string, b: string)
    ensures Encoded(a + b) == Encoded(a) + Encoded(b)
  {
    if a == "" {
      assert a + b == b;
    } else {
      assert (a + b)[1..] == a[1..] + b;
      EncodedAppend(a[1..], b);
      assert Utf8(a[0]) + (Encoded(a[1..]) + Encoded(b)) == Utf8(a[0]) + Encoded(a[1..]) + Encoded(b);
    }
  }

  /** How a QString is made of a file's bytes; only what it makes of encoded text matters. */
  type Reader = seq<byte> -> string

  /** Text without the characters that do not come back: reading stops at a NUL and drops a
      byte order mark. */
  ghost predicate Legible(text: string) {
    '\0' !in text && '\U{FEFF}' !in text
  }

  ghost predicate ReadsUtf8(read: Reader) {
    forall text: string :: Legible(text) ==> read(Encoded(text)) == text
  }

  lemma EncodedIsInjective(read: Reader, a: string, b: string)
    requires ReadsUtf8(read) && Legible(a) && Legible(b)
    ensures Encoded(a) == Encoded(b) <==> a == b
  {
    assert read(Encoded(a)) == a && read(Encoded(b)) == b;
  }

  // ------------------------------------------------------------- no two texts look the same

  function Width(first: byte): nat {
    if first < 0x80 then 1 else if first < 0xE0 then 2 else if first < 0xF0 then 3 else 4
  }

  lemma FirstByteTellsWidth(c: char)
    ensures |Utf8(c)| == Width(Utf8(c)[0])
  {
  }

  /** The number a character's bytes stand for. */
  function Value(bytes: seq<byte>): int
    requires 1 <= |bytes| <= 4
  {
    match |bytes|
    case 1 => bytes[0] as int
    case 2 => (bytes[0] as int - 0xC0) * 0x40 + bytes[1] as int - 0x80
    case 3 => (bytes[0] as int - 0xE0) * 0x1000 + (bytes[1] as int - 0x80) * 0x40 + bytes[2] as int - 0x80
    case _ =>
      (bytes[0] as int - 0xF0) * 0x4_0000 + (bytes[1] as int - 0x80) * 0x1000
      + (bytes[2] as int - 0x80) * 0x40 + bytes[3] as int - 0x80
  }

  lemma SixBits(x: nat)
    ensures x == x / 0x40 * 0x40 + x % 0x40
    ensures x / 0x40 == x / 0x1000 * 0x40 + x / 0x40 % 0x40
    ensures x / 0x1000 == x / 0x4_0000 * 0x40 + x / 0x1000 % 0x40
  {
  }

  lemma Utf8HasValue(c: char)
    ensures Value(Utf8(c)) == c as int
  {
    var x, bytes := c as int, Utf8(c);
    SixBits(x);
    assert x < 0x80 ==> bytes[0] as int == x;
    assert 0x80 <= x < 0x800 ==> bytes[0] as int == 0xC0 + x / 0x40 && bytes[1] as int == 0x80 + x % 0x40;
  }

  lemma {:induction false} SameBytesSameText(a: string, b: string)
    requires Encoded(a) == Encoded(b)
    ensures a == b
  {
    if a != "" && b != "" {
      var x, y := Utf8(a[0]), Utf8(b[0]);
      var s := Encoded(a);
      assert s[0] == x[0] == y[0];
      FirstByteTellsWidth(a[0]);
      FirstByteTellsWidth(b[0]);
      assert s[..|x|] == x && s[..|y|] == y && s[|x|..] == Encoded(a[1..]) && s[|y|..] == Encoded(b[1..]);
      Utf8HasValue(a[0]);
      Utf8HasValue(b[0]);
      SameBytesSameText(a[1..], b[1..]);
      assert a == [a[0]] + a[1..] && b == [b[0]] + b[1..];
    }
  }

  ghost function TextOf(bytes: seq<byte>): string {
    if exists text: string :: Encoded(text) == bytes then
      var text: string :| Encoded(text) == bytes;
      text
    else ""
  }

  /** Text can be read back from its bytes. */
  lemma ReaderExists()
    ensures exists read :: ReadsUtf8(read)
  {
    var read := (bytes: seq<byte>) => TextOf(bytes);
    forall text: string | Legible(text) ensures read(Encoded(text)) == text {
      SameBytesSameText(read(Encoded(text)), text);
    }
    assert ReadsUtf8(read);
  }
}
