/** The bytes written for a numeric reference, read by the rules of section 3 of RFC 3629. */
module XmlUtf8 {
  import opened XmlText

  /** How many bytes the first one announces; zero for a byte that cannot come first. */
  function Announced(lead: char): nat {
    var b := lead as int;
    if b < 0x80 then 1
    else if 0xC0 <= b < 0xE0 then 2
    else if 0xE0 <= b < 0xF0 then 3
    else if 0xF0 <= b < 0xF8 then 4
    else 0
  }

  predicate IsContinuation(c: char) {
    0x80 <= c as int < 0xC0
  }

  /** The code in the bits that are left when the marks of the bytes are taken away. */
  function Decoded(bytes: Text): int
    requires bytes != [] && Announced(bytes[0]) == |bytes|
    requires forall i :: 1 <= i < |bytes| ==> IsContinuation(bytes[i])
  {
    if |bytes| == 1 then bytes[0] as nat
    else if |bytes| == 2 then (bytes[0] as nat - 0xC0) * 0x40 + (bytes[1] as nat - 0x80)
    else if |bytes| == 3 then
      (bytes[0] as nat - 0xE0) * 0x1000 + (bytes[1] as nat - 0x80) * 0x40 + (bytes[2] as nat - 0x80)
    else
      (bytes[0] as nat - 0xF0) * 0x4_0000 + (bytes[1] as nat - 0x80) * 0x1000 + (bytes[2] as nat - 0x80) * 0x40
      + (bytes[3] as nat - 0x80)
  }

  predicate InRange(c: char, lo: nat, hi: nat) {
    lo <= c as int <= hi
  }

  /** UTF8-octet sequences as section 4 of RFC 3629 lists them: no form longer than necessary, no
      surrogates, nothing above 0x10FFFF. */
  predicate Rfc3629(bytes: Text) {
    if |bytes| == 1 then InRange(bytes[0], 0x00, 0x7F)
    else if |bytes| == 2 then InRange(bytes[0], 0xC2, 0xDF) && IsContinuation(bytes[1])
    else if |bytes| == 3 then
      && IsContinuation(bytes[2])
      && (|| (InRange(bytes[0], 0xE0, 0xE0) && InRange(bytes[1], 0xA0, 0xBF))
          || (InRange(bytes[0], 0xE1, 0xEC) && IsContinuation(bytes[1]))
          || (InRange(bytes[0], 0xED, 0xED) && InRange(bytes[1], 0x80, 0x9F))
          || (InRange(bytes[0], 0xEE, 0xEF) && IsContinuation(bytes[1])))
    else if |bytes| == 4 then
      && IsContinuation(bytes[2]) && IsContinuation(bytes[3])
      && (|| (InRange(bytes[0], 0xF0, 0xF0) && InRange(bytes[1], 0x90, 0xBF))
          || (InRange(bytes[0], 0xF1, 0xF3) && IsContinuation(bytes[1]))
          || (InRange(bytes[0], 0xF4, 0xF4) && InRange(bytes[1], 0x80, 0x8F)))
    else false
  }

  predicate IsSurrogate(code: nat) {
    0xD800 <= code <= 0xDFFF
  }

  /** The parser writes UTF-8 exactly for the codes that are not surrogates: it does not check for
      those, and section 3 of RFC 3629 forbids them. */
  lemma Utf8Exactly(code: nat)
    requires code < UNICODE_LIMIT
    ensures Rfc3629(Utf8(code)) <==> !IsSurrogate(code)
  {
    Utf8RoundTrip(code);
  }

  /** For every code up to 0x10FFFF, surrogates included: one leading byte that announces the length,
      continuation bytes behind it, no form longer than necessary, and the code read back. */
  lemma Utf8RoundTrip(code: nat)
    requires code < UNICODE_LIMIT
    ensures var bytes := Utf8(code);
            && Announced(bytes[0]) == |bytes|
            && (forall i :: 1 <= i < |bytes| ==> IsContinuation(bytes[i]))
            && Decoded(bytes) == code
            && (|bytes| == 2 ==> code >= 0x80) && (|bytes| == 3 ==> code >= 0x800) && (|bytes| == 4 ==> code >= 0x1_0000)
  {
    if code < 0x80 {
    } else if code < 0x800 {
      TwoBytes(code);
    } else if code < 0x1_0000 {
      ThreeBytes(code);
    } else {
      FourBytes(code);
    }
  }

  lemma TwoBytes(code: nat)
    requires 0x80 <= code < 0x800
    ensures var bytes := Utf8(code);
            && |bytes| == 2 && Announced(bytes[0]) == 2 && IsContinuation(bytes[1]) && Decoded(bytes) == code
  {
  }

  lemma ThreeBytes(code: nat)
    requires 0x800 <= code < 0x1_0000
    ensures var bytes := Utf8(code);
            && |bytes| == 3 && Announced(bytes[0]) == 3 && IsContinuation(bytes[1]) && IsContinuation(bytes[2])
            && Decoded(bytes) == code
  {
    assert code / 0x1000 == code / 0x40 / 0x40;
  }

  lemma FourBytes(code: nat)
    requires 0x1_0000 <= code < UNICODE_LIMIT
    ensures var bytes := Utf8(code);
            && |bytes| == 4 && Announced(bytes[0]) == 4
            && IsContinuation(bytes[1]) && IsContinuation(bytes[2]) && IsContinuation(bytes[3])
            && Decoded(bytes) == code
  {
    assert code / 0x1000 == code / 0x40 / 0x40;
    assert code / 0x4_0000 == code / 0x1000 / 0x40;
  }

  /** No two codes share a form. */
  lemma Utf8Injective(a: nat, b: nat)
    requires a < UNICODE_LIMIT && b < UNICODE_LIMIT && Utf8(a) == Utf8(b)
    ensures a == b
  {
    hide Utf8;
    Utf8RoundTrip(a);
    Utf8RoundTrip(b);
  }

  /** The operations of insert_coded_character on the code, for each length, and the arithmetic they
      amount to: the last byte is taken from the code itself, the ones before it from the code shifted
      right by six each time. */
  lemma MasksAreArithmetic(code: bv32)
    ensures (code | 0x80) & 0xBF == 0x80 + code % 0x40
    ensures ((code >> 6) | 0x80) & 0xBF == 0x80 + code / 0x40 % 0x40
    ensures ((code >> 12) | 0x80) & 0xBF == 0x80 + code / 0x1000 % 0x40
    ensures code < 0x800 ==> (code >> 6) | 0xC0 == 0xC0 + code / 0x40
    ensures code < 0x1_0000 ==> (code >> 12) | 0xE0 == 0xE0 + code / 0x1000
    ensures code < 0x11_0000 ==> (code >> 18) | 0xF0 == 0xF0 + code / 0x4_0000
  {
  }
}
