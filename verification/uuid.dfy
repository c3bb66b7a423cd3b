/**
 Identifier generation (`generateUUID`): four 32-bit random words are masked,
 shifted and printed into the canonical 8-4-4-4-12 layout of a version-4 UUID
 (section 4.4 of RFC 4122). The random words are parameters: the hardware
 random source is not part of the model.
 */
module Uuid {
  import opened Hex

  /** One value drawn from the hardware random source, an unsigned 32-bit word. */
  type Word = w: nat | w < 0x1_0000_0000

  /** `generateUUID` formats into a `char[37]`: 36 characters and the terminating NUL. */
  const BufferSize: nat := 37

  /** Length of the canonical text form of a UUID. */
  const UuidLength: nat := 36

  /** `snprintf(buf, size, ...)` keeps at most `size - 1` characters of the formatted text. */
  function Snprintf(text: string, size: nat): (r: string)
    requires size >= 1
    ensures r <= text
    ensures |r| == if |text| < size then |text| else size - 1
  {
    if |text| < size then text else text[..size - 1]
  }

  /*
   The six printf arguments of generateUUID, named after the RFC 4122 fields they
   fill. The bit operations of the source are written arithmetically on unsigned
   words: `x & (2^k - 1)` is `x % 2^k`, `x >> k` is `x / 2^k`, and an `|` whose
   operands have no bit in common (a masked value below 2^12 or 2^14 and a single
   higher bit) is `+`.
   */

  /** `part1`, printed whole. */
  function TimeLow(p1: Word): (n: nat)
    ensures n < 0x1_0000_0000
  {
    p1
  }

  /** `x & 0xFFFF`: `time_mid` from `part2`, and the low half of the node group from `part4`. */
  function LowHalf(x: Word): (n: nat)
    ensures n < 0x10000
  {
    x % 0x10000
  }

  /** `((part2 >> 16) & 0x0FFF) | 0x4000`: bits 16..27 of the word under the version nibble 4. */
  function TimeHighAndVersion(p2: Word): (n: nat)
    ensures 0x4000 <= n < 0x5000
  {
    (p2 / 0x10000) % 0x1000 + 0x4000
  }

  /** `(part3 & 0x3FFF) | 0x8000`: the low 14 bits of the word under the variant bits `10`. */
  function ClockSeqAndVariant(p3: Word): (n: nat)
    ensures 0x8000 <= n < 0xC000
  {
    p3 % 0x4000 + 0x8000
  }

  /** `part3 >> 16`, the high half of the third word. */
  function NodeHigh(p3: Word): (n: nat)
    ensures n < 0x10000
  {
    p3 / 0x10000
  }

  /** The hyphen-separated 8-4-4-4-12 layout; the node group is passed whole. */
  function Layout(timeLow: string, timeMid: string, timeHigh: string, clockSeq: string, node: string): string
  {
    timeLow + "-" + timeMid + "-" + timeHigh + "-" + clockSeq + "-" + node
  }

  predicate IsHyphenPosition(i: int) {
    i == 8 || i == 13 || i == 18 || i == 23
  }

  /** The canonical text shape: 36 characters, hyphens at 8, 13, 18, 23, upper-case hex elsewhere. */
  predicate IsCanonical(u: string) {
    && |u| == UuidLength
    && forall i :: 0 <= i < |u| ==> if IsHyphenPosition(i) then u[i] == '-' else IsUpperHex(u[i])
  }

  /** Canonical text holds no NUL, so storing it as a C string keeps all of it. */
  lemma CanonicalHasNoNul(u: string)
    requires IsCanonical(u)
    ensures u != "" && '\0' !in u
  {
    forall i | 0 <= i < |u|
      ensures u[i] != '\0'
    {
      assert IsHyphenPosition(i) || IsUpperHex(u[i]);
    }
  }

  /** Version 4 in the version nibble and variant bits `10` in the next group. */
  predicate IsVersion4(u: string)
    requires IsCanonical(u)
  {
    u[14] == '4' && u[19] in "89AB"
  }

  /** The five numeric groups of a UUID's text form. */
  datatype Groups = Groups(timeLow: nat, timeMid: nat, timeHigh: nat, clockSeq: nat, node: nat)

  /** Groups that fit their canonical widths, with version 4 and variant `10` in place. */
  predicate IsVersion4Groups(g: Groups) {
    && g.timeLow < 0x1_0000_0000 && g.timeMid < 0x10000
    && 0x4000 <= g.timeHigh < 0x5000 && 0x8000 <= g.clockSeq < 0xC000
    && g.node < 0x1_0000_0000_0000
  }

  /** The canonical text of five in-range groups, each printed at exactly its width. */
  function Render(g: Groups): string
  {
    Layout(FixedHex(g.timeLow, 8), FixedHex(g.timeMid, 4), FixedHex(g.timeHigh, 4),
           FixedHex(g.clockSeq, 4), FixedHex(g.node, 12))
  }

  /** Reads the five groups back from canonical text. */
  function Decode(u: string): Groups
    requires IsCanonical(u)
  {
    assert forall i :: 0 <= i < 8 ==> !IsHyphenPosition(i);
    Groups(HexValue(u[0..8]), HexValue(u[9..13]), HexValue(u[14..18]),
           HexValue(u[19..23]), HexValue(u[24..36]))
  }

  /** Rendering in-range groups gives canonical version-4 text that decodes to the same groups. */
  lemma RenderDecode(g: Groups)
    requires IsVersion4Groups(g)
    ensures IsCanonical(Render(g)) && IsVersion4(Render(g))
    ensures Decode(Render(g)) == g
  {
    Pow16Values();
    var a, b, c, d, e := FixedHex(g.timeLow, 8), FixedHex(g.timeMid, 4), FixedHex(g.timeHigh, 4),
      FixedHex(g.clockSeq, 4), FixedHex(g.node, 12);
    LayoutShape(a, b, c, d, e);
    VersionDigits(g.timeHigh, g.clockSeq);
    FixedHexReadBack(g.timeLow, 8);
    FixedHexReadBack(g.timeMid, 4);
    FixedHexReadBack(g.timeHigh, 4);
    FixedHexReadBack(g.clockSeq, 4);
    FixedHexReadBack(g.node, 12);
  }

  /** The groups `generateUUID` prints: the node group is `part3 >> 16` followed by `part4 & 0xFFFF`. */
  function Fields(p1: Word, p2: Word, p3: Word, p4: Word): (g: Groups)
    ensures IsVersion4Groups(g)
  {
    Groups(TimeLow(p1), LowHalf(p2), TimeHighAndVersion(p2), ClockSeqAndVariant(p3),
           NodeHigh(p3) * 0x10000 + LowHalf(p4))
  }

  /** The text `generateUUID` formats, before it is copied into the buffer. */
  function Formatted(p1: Word, p2: Word, p3: Word, p4: Word): string
  {
    Layout(FormatHex(TimeLow(p1), 8), FormatHex(LowHalf(p2), 4),
           FormatHex(TimeHighAndVersion(p2), 4), FormatHex(ClockSeqAndVariant(p3), 4),
           FormatHex(NodeHigh(p3), 8) + FormatHex(LowHalf(p4), 4))
  }

  /**
   `generateUUID` as written: the formatted text cut to the buffer. The result is
   canonical version-4 text carrying the printed fields, and its node group always
   starts with four zeros because the 16-bit `part3 >> 16` is printed eight digits wide.
   */
  function GenerateUuid(p1: Word, p2: Word, p3: Word, p4: Word): (u: string)
    ensures u == Render(Fields(p1, p2, p3, p4))
    ensures IsCanonical(u) && IsVersion4(u)
    ensures Decode(u) == Fields(p1, p2, p3, p4)
    ensures u[24..28] == "0000"
  {
    FormattedIsRendered(p1, p2, p3, p4);
    NodeGroupZeros(p1, p2, p3, p4);
    RenderDecode(Fields(p1, p2, p3, p4));
    Snprintf(Formatted(p1, p2, p3, p4), BufferSize)
  }

  /** The as-written text is the rendering of its fields. */
  lemma FormattedIsRendered(p1: Word, p2: Word, p3: Word, p4: Word)
    ensures Formatted(p1, p2, p3, p4) == Render(Fields(p1, p2, p3, p4))
  {
    FieldsFit(p1, p2, p3, p4);
    var g := Fields(p1, p2, p3, p4);
    var high, low := FixedHex(NodeHigh(p3), 8), FixedHex(LowHalf(p4), 4);
    assert Formatted(p1, p2, p3, p4)
        == Layout(FixedHex(g.timeLow, 8), FixedHex(g.timeMid, 4), FixedHex(g.timeHigh, 4), FixedHex(g.clockSeq, 4), high + low);
    Pow16Values();
    NodeText(NodeHigh(p3), LowHalf(p4), 8, 4, g.node);
    RenderSplit(g, high, low);
  }

  /** The rendering with its node group given as two parts. */
  lemma RenderSplit(g: Groups, high: string, low: string)
    requires high + low == FixedHex(g.node, 12)
    ensures Render(g)
         == Layout(FixedHex(g.timeLow, 8), FixedHex(g.timeMid, 4), FixedHex(g.timeHigh, 4), FixedHex(g.clockSeq, 4), high + low)
  {
  }

  /** Every printed field is within the width printf gives it, so each is printed exactly that wide. */
  lemma FieldsFit(p1: Word, p2: Word, p3: Word, p4: Word)
    ensures FormatHex(TimeLow(p1), 8) == FixedHex(TimeLow(p1), 8)
    ensures FormatHex(LowHalf(p2), 4) == FixedHex(LowHalf(p2), 4)
    ensures FormatHex(TimeHighAndVersion(p2), 4) == FixedHex(TimeHighAndVersion(p2), 4)
    ensures FormatHex(ClockSeqAndVariant(p3), 4) == FixedHex(ClockSeqAndVariant(p3), 4)
    ensures FormatHex(NodeHigh(p3), 8) == FixedHex(NodeHigh(p3), 8)
    ensures FormatHex(NodeHigh(p3), 4) == FixedHex(NodeHigh(p3), 4)
    ensures FormatHex(LowHalf(p4), 4) == FixedHex(LowHalf(p4), 4)
    ensures FormatHex(p4, 8) == FixedHex(p4, 8)
  {
    Pow16Values();
    FormatHexFits(TimeLow(p1), 8);
    FormatHexFits(LowHalf(p2), 4);
    FormatHexFits(TimeHighAndVersion(p2), 4);
    FormatHexFits(ClockSeqAndVariant(p3), 4);
    FormatHexFits(NodeHigh(p3), 8);
    FormatHexFits(NodeHigh(p3), 4);
    FormatHexFits(LowHalf(p4), 4);
    FormatHexFits(p4, 8);
  }

  /** The as-written node fields, side by side, are the twelve-digit node group of their combined value. */
  lemma AsWrittenNode(high: nat, low: nat)
    requires low < 0x10000
    ensures FixedHex(high, 8) + FixedHex(low, 4) == FixedHex(high * 0x10000 + low, 12)
  {
    Pow16Values();
    NodeText(high, low, 8, 4, high * 0x10000 + low);
  }

  /** The as-written node group starts with four zeros: `part3 >> 16` is printed eight digits wide. */
  lemma NodeGroupZeros(p1: Word, p2: Word, p3: Word, p4: Word)
    ensures Render(Fields(p1, p2, p3, p4))[24..28] == "0000"
  {
    var g := Fields(p1, p2, p3, p4);
    var high, low := NodeHigh(p3), LowHalf(p4);
    var u, node := Render(g), FixedHex(g.node, 12);
    RenderNode(g);
    assert u[24..28] == node[..4];
    assert g.node == high * 0x10000 + low;
    AsWrittenNode(high, low);
    var front := FixedHex(high, 8);
    assert node == front + FixedHex(low, 4);
    assert node[..4] == front[..4];
    LeadingZeros(high);
  }

  /** The node group occupies the last twelve characters of the rendering. */
  lemma RenderNode(g: Groups)
    ensures |Render(g)| == UuidLength && Render(g)[24..36] == FixedHex(g.node, 12)
  {
    var prefix := FixedHex(g.timeLow, 8) + "-" + FixedHex(g.timeMid, 4) + "-" + FixedHex(g.timeHigh, 4)
      + "-" + FixedHex(g.clockSeq, 4) + "-";
    assert Render(g) == prefix + FixedHex(g.node, 12);
  }

  /** Two node fields printed side by side give the twelve-digit node group of their combined value. */
  lemma NodeText(high: nat, low: nat, highWidth: nat, lowWidth: nat, node: nat)
    requires (highWidth == 8 && lowWidth == 4) || (highWidth == 4 && lowWidth == 8)
    requires low < Pow16(lowWidth)
    requires node == high * Pow16(lowWidth) + low
    ensures FixedHex(high, highWidth) + FixedHex(low, lowWidth) == FixedHex(node, 12)
  {
    FixedHexConcat(high, low, highWidth, lowWidth);
    Pow16Values();
    ShiftValues(high);
  }

  lemma ShiftValues(a: nat)
    ensures Shift(a, 4) == a * 0x10000 && Shift(a, 8) == a * 0x1_0000_0000
  {
    assert Shift(a, 1) == 16 * a;
    assert Shift(a, 2) == 16 * Shift(a, 1);
    assert Shift(a, 3) == 16 * Shift(a, 2);
    assert Shift(a, 4) == 16 * Shift(a, 3);
    assert Shift(a, 5) == 16 * Shift(a, 4);
    assert Shift(a, 6) == 16 * Shift(a, 5);
    assert Shift(a, 7) == 16 * Shift(a, 6);
    assert Shift(a, 8) == 16 * Shift(a, 7);
  }

  /** The text before truncation is exactly 36 characters, so the buffer never cuts it. */
  lemma NoTruncation(p1: Word, p2: Word, p3: Word, p4: Word)
    ensures |Formatted(p1, p2, p3, p4)| == UuidLength < BufferSize
    ensures GenerateUuid(p1, p2, p3, p4) == Formatted(p1, p2, p3, p4)
  {
    FormattedIsRendered(p1, p2, p3, p4);
    RenderDecode(Fields(p1, p2, p3, p4));
  }

  /**
   The random bits `generateUUID` prints: all of `part1`, bits 0..27 of `part2`,
   bits 0..13 and 16..31 of `part3`, and bits 0..15 of `part4`.
   */
  predicate SamePrintedBits(p1: Word, p2: Word, p3: Word, p4: Word, q1: Word, q2: Word, q3: Word, q4: Word) {
    && p1 == q1
    && p2 % 0x1000_0000 == q2 % 0x1000_0000
    && p3 % 0x4000 == q3 % 0x4000 && p3 / 0x10000 == q3 / 0x10000
    && p4 % 0x10000 == q4 % 0x10000
  }

  /** The printed fields agree exactly when the printed bits do. */
  lemma FieldsBits(p1: Word, p2: Word, p3: Word, p4: Word, q1: Word, q2: Word, q3: Word, q4: Word)
    ensures Fields(p1, p2, p3, p4) == Fields(q1, q2, q3, q4)
        <==> SamePrintedBits(p1, p2, p3, p4, q1, q2, q3, q4)
  {
    SecondWordFields(p2, q2);
    var pn, qn := NodeHigh(p3) * 0x10000 + LowHalf(p4), NodeHigh(q3) * 0x10000 + LowHalf(q4);
    DivModUnique(pn, 0x10000, NodeHigh(p3), LowHalf(p4));
    DivModUnique(qn, 0x10000, NodeHigh(q3), LowHalf(q4));
  }

  /**
   Two draws give the same identifier exactly when they agree on the printed bits:
   bits 28..31 of `part2`, bits 14..15 of `part3` and bits 16..31 of `part4` never
   reach the output, and every other bit does.
   */
  lemma GenerateUuidBits(p1: Word, p2: Word, p3: Word, p4: Word, q1: Word, q2: Word, q3: Word, q4: Word)
    ensures GenerateUuid(p1, p2, p3, p4) == GenerateUuid(q1, q2, q3, q4)
        <==> SamePrintedBits(p1, p2, p3, p4, q1, q2, q3, q4)
  {
    FieldsBits(p1, p2, p3, p4, q1, q2, q3, q4);
  }

  /** The groups of the intended format: the node group is `part3 >> 16` followed by all of `part4`. */
  function IntendedFields(p1: Word, p2: Word, p3: Word, p4: Word): (g: Groups)
    ensures IsVersion4Groups(g)
  {
    Groups(TimeLow(p1), LowHalf(p2), TimeHighAndVersion(p2), ClockSeqAndVariant(p3),
           NodeHigh(p3) * 0x1_0000_0000 + p4)
  }

  /**
   The evidently intended format `"%08X-%04X-%04X-%04X-%04X%08X"` with arguments
   `part3 >> 16` and `part4` for the node group: twelve digits that all come from
   the random words, as section 4.4 of RFC 4122 asks.
   */
  function IntendedFormatted(p1: Word, p2: Word, p3: Word, p4: Word): string
  {
    Layout(FormatHex(TimeLow(p1), 8), FormatHex(LowHalf(p2), 4),
           FormatHex(TimeHighAndVersion(p2), 4), FormatHex(ClockSeqAndVariant(p3), 4),
           FormatHex(NodeHigh(p3), 4) + FormatHex(p4, 8))
  }

  /** The corrected generator: canonical version-4 text carrying every random bit but the six fixed ones. */
  function GenerateUuidV4(p1: Word, p2: Word, p3: Word, p4: Word): (u: string)
    ensures u == Render(IntendedFields(p1, p2, p3, p4))
    ensures IsCanonical(u) && IsVersion4(u)
    ensures Decode(u) == IntendedFields(p1, p2, p3, p4)
  {
    IntendedIsRendered(p1, p2, p3, p4);
    RenderDecode(IntendedFields(p1, p2, p3, p4));
    Snprintf(IntendedFormatted(p1, p2, p3, p4), BufferSize)
  }

  lemma IntendedIsRendered(p1: Word, p2: Word, p3: Word, p4: Word)
    ensures IntendedFormatted(p1, p2, p3, p4) == Render(IntendedFields(p1, p2, p3, p4))
  {
    FieldsFit(p1, p2, p3, p4);
    var g := IntendedFields(p1, p2, p3, p4);
    var high, low := FixedHex(NodeHigh(p3), 4), FixedHex(p4, 8);
    assert IntendedFormatted(p1, p2, p3, p4)
        == Layout(FixedHex(g.timeLow, 8), FixedHex(g.timeMid, 4), FixedHex(g.timeHigh, 4), FixedHex(g.clockSeq, 4), high + low);
    Pow16Values();
    NodeText(NodeHigh(p3), p4, 4, 8, g.node);
    RenderSplit(g, high, low);
  }

  /** The corrected generator gives the same identifier exactly when the 122 random bits agree. */
  lemma GenerateUuidV4Bits(p1: Word, p2: Word, p3: Word, p4: Word, q1: Word, q2: Word, q3: Word, q4: Word)
    ensures GenerateUuidV4(p1, p2, p3, p4) == GenerateUuidV4(q1, q2, q3, q4)
        <==> SameRandomBits(p1, p2, p3, p4, q1, q2, q3, q4)
  {
    IntendedFieldsBits(p1, p2, p3, p4, q1, q2, q3, q4);
  }

  /** The 122 random bits of a version-4 UUID: everything but bits 28..31 of `part2` and 14..15 of `part3`. */
  predicate SameRandomBits(p1: Word, p2: Word, p3: Word, p4: Word, q1: Word, q2: Word, q3: Word, q4: Word) {
    && p1 == q1
    && p2 % 0x1000_0000 == q2 % 0x1000_0000
    && p3 % 0x4000 == q3 % 0x4000 && p3 / 0x10000 == q3 / 0x10000
    && p4 == q4
  }

  lemma IntendedFieldsBits(p1: Word, p2: Word, p3: Word, p4: Word, q1: Word, q2: Word, q3: Word, q4: Word)
    ensures IntendedFields(p1, p2, p3, p4) == IntendedFields(q1, q2, q3, q4)
        <==> SameRandomBits(p1, p2, p3, p4, q1, q2, q3, q4)
  {
    SecondWordFields(p2, q2);
    var pn, qn := NodeHigh(p3) * 0x1_0000_0000 + p4, NodeHigh(q3) * 0x1_0000_0000 + q4;
    DivModUnique(pn, 0x1_0000_0000, NodeHigh(p3), p4);
    DivModUnique(qn, 0x1_0000_0000, NodeHigh(q3), q4);
  }

  lemma Pow16Values()
    ensures Pow16(3) == 0x1000 && Pow16(4) == 0x10000 && Pow16(8) == 0x1_0000_0000
    ensures Pow16(12) == 0x1_0000_0000_0000
  {
    assert Pow16(4) == 0x10000;
    assert Pow16(8) == 0x1_0000_0000;
    assert Pow16(12) == 0x1_0000_0000_0000;
  }

  /** Where the five groups of the layout land when they have their canonical widths. */
  lemma LayoutShape(a: string, b: string, c: string, d: string, e: string)
    requires |a| == 8 && |b| == 4 && |c| == 4 && |d| == 4 && |e| == 12
    requires AllUpperHex(a) && AllUpperHex(b) && AllUpperHex(c) && AllUpperHex(d) && AllUpperHex(e)
    ensures IsCanonical(Layout(a, b, c, d, e))
    ensures Layout(a, b, c, d, e)[0..8] == a
    ensures Layout(a, b, c, d, e)[9..13] == b
    ensures Layout(a, b, c, d, e)[14..18] == c
    ensures Layout(a, b, c, d, e)[19..23] == d
    ensures Layout(a, b, c, d, e)[24..36] == e
  {
    var u := Layout(a, b, c, d, e);
    var prefix := a + "-" + b + "-" + c + "-" + d + "-";
    assert u == prefix + e && |prefix| == 24;
    assert u[24..36] == e;
    forall i | 0 <= i < |u|
      ensures if IsHyphenPosition(i) then u[i] == '-' else IsUpperHex(u[i])
    {
      if i < 8 { assert u[i] == a[i]; }
      else if 9 <= i < 13 { assert u[i] == b[i - 9]; }
      else if 14 <= i < 18 { assert u[i] == c[i - 14]; }
      else if 19 <= i < 23 { assert u[i] == d[i - 19]; }
      else if 24 <= i { assert u[i] == e[i - 24]; }
    }
  }

  /** The first digit of the version group is 4; that of the variant group is 8, 9, A or B. */
  lemma VersionDigits(version: nat, variant: nat)
    requires 0x4000 <= version < 0x5000
    requires 0x8000 <= variant < 0xC000
    ensures FixedHex(version, 4)[0] == '4'
    ensures FixedHex(variant, 4)[0] in "89AB"
  {
    FirstDigit(version);
    FirstDigit(variant);
    var k := variant / 0x1000;
    DivModUnique(variant, 0x1000, k, variant % 0x1000);
    assert 8 <= k < 12;
    assert HexDigit(k) == "89AB"[k - 8];
  }

  /** The first of four digits is the value's top nibble. */
  lemma FirstDigit(v: nat)
    requires v < 0x10000
    ensures v / 0x1000 < 16
    ensures FixedHex(v, 4)[0] == HexDigit(v / 0x1000)
  {
    Pow16Values();
    FixedHexDigit(v, 4, 0);
    DivModUnique(v / 0x1000, 16, 0, v / 0x1000);
  }

  /** A value below 2^16 printed eight digits wide starts with four zeros. */
  lemma LeadingZeros(v: nat)
    requires v < 0x10000
    ensures FixedHex(v, 8)[..4] == "0000"
  {
    Pow16Values();
    FixedHexConcat(0, v, 4, 4);
    ShiftZero(4);
    assert FixedHex(0, 4) == "0000";
  }

  lemma {:induction false} ShiftZero(n: nat)
    ensures Shift(0, n) == 0
  {
    if n > 0 {
      ShiftZero(n - 1);
    }
  }

  /** A field that fits its width reads back as itself. */
  lemma FixedHexReadBack(v: nat, width: nat)
    requires v < Pow16(width)
    ensures HexValue(FixedHex(v, width)) == v
  {
    FixedHexValue(v, width);
    DivModUnique(v, Pow16(width), 0, v);
  }

  /** The low 28 bits of the second word are exactly what its two printed fields carry. */
  lemma SecondWordFields(p2: Word, q2: Word)
    ensures p2 % 0x1000_0000 == q2 % 0x1000_0000
        <==> LowHalf(p2) == LowHalf(q2) && TimeHighAndVersion(p2) == TimeHighAndVersion(q2)
  {
    LowBitsSplit(p2);
    LowBitsSplit(q2);
  }

  /** `x % 2^28` splits into bits 16..27 and bits 0..15, and both can be read back from it. */
  lemma LowBitsSplit(x: nat)
    ensures x % 0x1000_0000 == (x / 0x10000 % 0x1000) * 0x10000 + x % 0x10000
    ensures (x % 0x1000_0000) % 0x10000 == x % 0x10000
    ensures (x % 0x1000_0000) / 0x10000 == x / 0x10000 % 0x1000
  {
    var hi, lo := x / 0x10000 % 0x1000, x % 0x10000;
    var q := x / 0x10000;
    assert x == 0x10000 * q + lo;
    assert q == 0x1000 * (q / 0x1000) + hi;
    assert x == 0x1000_0000 * (q / 0x1000) + (hi * 0x10000 + lo);
    DivModUnique(x, 0x1000_0000, q / 0x1000, hi * 0x10000 + lo);
    DivModUnique(hi * 0x10000 + lo, 0x10000, hi, lo);
  }
}
