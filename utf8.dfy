/**
 * Strict UTF-8 decoding, as Python's `bytes.decode('utf-8')` and a text-mode
 * `open(..., encoding='utf-8')` perform it: only the well-formed byte
 * sequences of Table 3-7 of the Unicode Standard (chapter 3, section 3.9)
 * decode; overlong forms, encoded surrogates and values above U+10FFFF are
 * errors. The encoder is the decoder's partner: decoding is injective.
 */
module Utf8 {
  import opened Wrappers

  type byte = x: int | 0 <= x < 256
  type Bytes = seq<byte>

  predicate IsScalar(cp: int)
  {
    0 <= cp < 0xD800 || 0xE000 <= cp < 0x11_0000
  }

  predicate InRange(b: byte, lo: int, hi: int)
  {
    lo <= b <= hi
  }

  /**
   * The scalar value and length of the well-formed sequence that starts `b`,
   * or None when `b` does not start with one.
   */
  function DecodeFirst(b: Bytes): (r: Option<(int, nat)>)
    requires b != []
    ensures r.Some? ==> IsScalar(r.value.0) && 1 <= r.value.1 <= 4 && r.value.1 <= |b|
  {
    var b0: int := b[0];
    if b0 < 0x80 then Some((b0, 1))
    else if 0xC2 <= b0 <= 0xDF then
      if |b| >= 2 && InRange(b[1], 0x80, 0xBF)
      then Some((Cont2(b0 - 0xC0, b[1]), 2))
      else None
    else if 0xE0 <= b0 <= 0xEF then
      var lo := if b0 == 0xE0 then 0xA0 else 0x80;
      var hi := if b0 == 0xED then 0x9F else 0xBF;
      if |b| >= 3 && InRange(b[1], lo, hi) && InRange(b[2], 0x80, 0xBF)
      then Some((Cont3(b0 - 0xE0, b[1], b[2]), 3))
      else None
    else if 0xF0 <= b0 <= 0xF4 then
      var lo := if b0 == 0xF0 then 0x90 else 0x80;
      var hi := if b0 == 0xF4 then 0x8F else 0xBF;
      if |b| >= 4 && InRange(b[1], lo, hi) && InRange(b[2], 0x80, 0xBF) && InRange(b[3], 0x80, 0xBF)
      then Some((Cont4(b0 - 0xF0, b[1], b[2], b[3]), 4))
      else None
    else None
  }

  /** The leading bits `lead` followed by the six payload bits of each continuation byte. */
  function Cont2(lead: int, c1: byte): int
  {
    lead * 64 + (c1 - 0x80)
  }

  function Cont3(lead: int, c1: byte, c2: byte): int
  {
    Cont2(Cont2(lead, c1), c2)
  }

  function Cont4(lead: int, c1: byte, c2: byte, c3: byte): int
  {
    Cont2(Cont3(lead, c1, c2), c3)
  }

  /** The text `b` decodes to, or None on a decoding error. */
  function Decode(b: Bytes): Option<string>
    decreases |b|
  {
    if b == [] then Some([])
    else match DecodeFirst(b)
      case None => None
      case Some((cp, n)) =>
        match Decode(b[n..])
        case None => None
        case Some(rest) => Some([cp as char] + rest)
  }

  /** The UTF-8 bytes of one character. */
  function EncodeChar(c: char): (r: Bytes)
  {
    var cp := c as int;
    if cp < 0x80 then [cp]
    else if cp < 0x800 then [0xC0 + cp / 64, 0x80 + cp % 64]
    else if cp < 0x1_0000 then [0xE0 + cp / 4096, 0x80 + (cp / 64) % 64, 0x80 + cp % 64]
    else [0xF0 + cp / 262144, 0x80 + (cp / 4096) % 64, 0x80 + (cp / 64) % 64, 0x80 + cp % 64]
  }

  /** The UTF-8 bytes of a text. */
  function Encode(s: string): Bytes
  {
    if s == [] then [] else EncodeChar(s[0]) + Encode(s[1..])
  }

  lemma DivMod64(x: int, y: int)
    requires 0 <= y < 64
    ensures (x * 64 + y) / 64 == x && (x * 64 + y) % 64 == y
  {
  }

  /** Splitting off the last continuation byte's payload. */
  lemma Cont2Split(lead: int, c: byte)
    requires 0x80 <= c <= 0xBF
    ensures Cont2(lead, c) / 64 == lead && Cont2(lead, c) % 64 == c - 0x80
  {
    DivMod64(lead, c - 0x80);
  }

  lemma DivDiv64(x: int)
    requires x >= 0
    ensures x / 4096 == (x / 64) / 64 && x / 262144 == (x / 4096) / 64
  {
  }

  lemma Encodes2(b: Bytes)
    requires |b| >= 2 && 0xC2 <= b[0] <= 0xDF && InRange(b[1], 0x80, 0xBF)
    ensures var cp := Cont2(b[0] - 0xC0, b[1]);
            IsScalar(cp) && EncodeChar(cp as char) == b[..2]
  {
    Cont2Split(b[0] - 0xC0, b[1]);
  }

  lemma Encodes3(b: Bytes)
    requires |b| >= 3 && DecodeFirst(b).Some? && DecodeFirst(b).value.1 == 3
    ensures var cp := Cont3(b[0] - 0xE0, b[1], b[2]);
            IsScalar(cp) && EncodeChar(cp as char) == b[..3]
  {
    var top := Cont2(b[0] - 0xE0, b[1]);
    var cp := Cont2(top, b[2]);
    Cont2Split(top, b[2]);
    Cont2Split(b[0] - 0xE0, b[1]);
    DivDiv64(cp);
  }

  lemma Encodes4(b: Bytes)
    requires |b| >= 4 && DecodeFirst(b).Some? && DecodeFirst(b).value.1 == 4
    ensures var cp := Cont4(b[0] - 0xF0, b[1], b[2], b[3]);
            IsScalar(cp) && EncodeChar(cp as char) == b[..4]
  {
    var top := Cont2(b[0] - 0xF0, b[1]);
    var mid := Cont2(top, b[2]);
    var cp := Cont2(mid, b[3]);
    Cont2Split(mid, b[3]);
    Cont2Split(top, b[2]);
    Cont2Split(b[0] - 0xF0, b[1]);
    DivDiv64(cp);
  }

  /** Encoding the scalar value that starts `b` gives back the bytes it was read from. */
  lemma DecodeFirstEncodes(b: Bytes)
    requires b != [] && DecodeFirst(b).Some?
    ensures EncodeChar(DecodeFirst(b).value.0 as char) == b[..DecodeFirst(b).value.1]
  {
    var n := DecodeFirst(b).value.1;
    if n == 2 {
      Encodes2(b);
    } else if n == 3 {
      Encodes3(b);
    } else if n == 4 {
      Encodes4(b);
    }
  }

  /** One step of decoding: the first character, then the decoding of what follows it. */
  lemma DecodeStep(b: Bytes)
    requires b != [] && Decode(b).Some?
    ensures DecodeFirst(b).Some?
    ensures var n := DecodeFirst(b).value.1;
            Decode(b[n..]).Some? && Decode(b).value == [DecodeFirst(b).value.0 as char] + Decode(b[n..]).value
  {
  }

  /** One step of encoding. */
  lemma EncodeStep(c: char, rest: string)
    ensures Encode([c] + rest) == EncodeChar(c) + Encode(rest)
  {
    assert ([c] + rest)[1..] == rest;
  }

  /** Whatever decodes, re-encodes to exactly the bytes it came from. */
  lemma {:induction false} EncodeDecode(b: Bytes)
    requires Decode(b).Some?
    ensures Encode(Decode(b).value) == b
    decreases |b|
  {
    if b != [] {
      DecodeStep(b);
      var first := DecodeFirst(b).value;
      var rest := b[first.1..];
      EncodeDecode(rest);
      DecodeFirstEncodes(b);
      EncodeStep(first.0 as char, Decode(rest).value);
      assert b == b[..first.1] + rest;
    }
  }

  /** Two byte strings that decode to the same text are the same bytes. */
  lemma DecodeInjective(a: Bytes, b: Bytes)
    requires Decode(a).Some? && Decode(b).Some?
    ensures Decode(a) == Decode(b) <==> a == b
  {
    if Decode(a) == Decode(b) {
      EncodeDecode(a);
      EncodeDecode(b);
    }
  }
}
