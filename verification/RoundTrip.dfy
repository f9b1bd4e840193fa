/** Printing and parsing undo each other: for every 64-bit value and all flags, exactly when the
    32-character buffer has room for sign and prefix. */
module RoundTrip {
  import opened Strtol
  import opened PrintInteger

  // ---- scanning a printed text -------------------------------------------------------------

  lemma {:induction false} RepeatAt(c: char, n: nat, k: nat)
    requires k < n
    ensures Repeat(c, n)[k] == c
  {
    if k > 0 { RepeatAt(c, n - 1, k - 1); }
  }

  /** Leading zeros do not change a number. */
  lemma {:induction false} LeadingZeros(z: nat, t: string, base: nat)
    requires AllDigits(t, base) && base >= 1
    ensures AllDigits(Repeat('0', z) + t, base) && NumberOf(Repeat('0', z) + t, base) == NumberOf(t, base)
    decreases |t|, z
  {
    forall k | 0 <= k < z ensures Repeat('0', z)[k] == '0' { RepeatAt('0', z, k); }
    var u := Repeat('0', z) + t;
    if t != "" {
      LeadingZeros(z, t[..|t| - 1], base);
      assert u[..|u| - 1] == Repeat('0', z) + t[..|t| - 1];
    } else if z > 0 {
      LeadingZeros(z - 1, "", base);
      RepeatMore('0', z - 1);
      assert u[..|u| - 1] == Repeat('0', z - 1) + "";
    } else {
      assert u == t;
    }
  }

  /** The parts of a printed text: spaces, sign, prefix, digits, spaces. */
  datatype Parts = Parts(lead: nat, sign: string, prefix: string, core: string, trail: nat)

  function Text(p: Parts): string
  {
    Repeat(' ', p.lead) + p.sign + p.prefix + p.core + Repeat(' ', p.trail)
  }

  predicate WellFormed(p: Parts, base: nat)
  {
    && (p.sign == "" || p.sign == "-" || p.sign == "+")
    && AllDigits(p.core, base) && p.core != "" && PrintBase(base)
    && (p.prefix == "" || (base != BASE_HEX && p.prefix == "0")
        || (base == BASE_HEX && (p.prefix == "0x" || p.prefix == "0X" || p.prefix == "x" || p.prefix == "X")))
  }

  /** Character by character: the parts end at `a`, `b`, `c` and `d`. */
  lemma TextChars(p: Parts, t: string, a: nat, b: nat, c: nat, d: nat)
    requires t == Text(p) && a == p.lead && b == a + |p.sign| && c == b + |p.prefix| && d == c + |p.core|
    ensures |t| == d + p.trail
    ensures forall k {:trigger t[k]} :: 0 <= k < a ==> t[k] == ' '
    ensures forall k {:trigger t[k]} :: a <= k < b ==> t[k] == p.sign[k - a]
    ensures forall k {:trigger t[k]} :: b <= k < c ==> t[k] == p.prefix[k - b]
    ensures forall k {:trigger t[k]} :: c <= k < d ==> t[k] == p.core[k - c]
    ensures forall k {:trigger t[k]} :: d <= k < |t| ==> t[k] == ' '
  {
    forall k | 0 <= k < p.lead ensures Repeat(' ', p.lead)[k] == ' ' { RepeatAt(' ', p.lead, k); }
    forall k | 0 <= k < p.trail ensures Repeat(' ', p.trail)[k] == ' ' { RepeatAt(' ', p.trail, k); }
  }

  /** Whatever is printed behind the leading spaces is no space. */
  lemma AfterSpaces(p: Parts, t: string, base: nat)
    requires WellFormed(p, base) && t == Text(p)
    ensures SkipSpaces(t, 0) == p.lead
    ensures At(t, p.lead) == '-' <==> p.sign == "-"
    ensures At(t, p.lead) == '+' <==> p.sign == "+"
  {
    var a := p.lead;
    TextChars(p, t, a, a + |p.sign|, a + |p.sign| + |p.prefix|, a + |p.sign| + |p.prefix| + |p.core|);
    SpacesEnd(t, 0, a);
  }

  /** The hexadecimal prefix is recognised if it is whole; digits are not mistaken for it. */
  lemma PrefixSeen(p: Parts, t: string, base: nat, b: nat)
    requires WellFormed(p, base) && t == Text(p) && b == p.lead + |p.sign|
    ensures base == BASE_HEX ==>
              (At(t, b) == '0' && (At(t, b + 1) == 'x' || At(t, b + 1) == 'X') <==> p.prefix == "0x" || p.prefix == "0X")
  {
    TextChars(p, t, p.lead, b, b + |p.prefix|, b + |p.prefix| + |p.core|);
    if base == BASE_HEX && p.prefix == "" {
      assert At(t, b) == p.core[0];
      assert |p.core| > 1 ==> At(t, b + 1) == p.core[1];
    }
  }

  lemma HeaderOfText(p: Parts, base: nat)
    requires WellFormed(p, base)
    ensures HeaderOf(Text(p), base)
            == Header(p.sign == "-", base, p.lead + |p.sign| + if p.prefix == "0x" || p.prefix == "0X" then 2 else 0)
  {
    AfterSpaces(p, Text(p), base);
    PrefixSeen(p, Text(p), base, p.lead + |p.sign|);
  }

  /** The digits that are read: those printed, with the zero of an octal prefix; none if the
      hexadecimal prefix has lost its zero. */
  lemma DigitsRead(p: Parts, t: string, base: nat, b: nat, c: nat, d: nat)
    requires WellFormed(p, base) && t == Text(p)
    requires b == p.lead + |p.sign| && c == b + |p.prefix| && d == c + |p.core|
    ensures d <= |t| && RunEnd(t, c, base) == d && t[c..d] == p.core
    ensures p.prefix == "0" ==> RunEnd(t, b, base) == d && t[b..d] == Repeat('0', 1) + p.core
    ensures p.prefix == "x" || p.prefix == "X" ==> RunEnd(t, b, base) == b
  {
    TextChars(p, t, p.lead, b, c, d);
    DigitsEnd(t, c, d, base);
    if p.prefix == "0" {
      DigitsEnd(t, b, d, base);
      assert Repeat('0', 1) == "0";
      assert t[b..d] == p.prefix + p.core;
    }
    if p.prefix == "x" || p.prefix == "X" { DigitsEnd(t, b, b, base); }
  }

  function ReadPart(p: Parts): string
  {
    if p.prefix == "x" || p.prefix == "X" then "" else if p.prefix == "0" then Repeat('0', 1) + p.core else p.core
  }

  lemma DigitsOfText(p: Parts, t: string, base: nat, h: Header)
    requires WellFormed(p, base) && t == Text(p) && h.base == base
    requires h.start == p.lead + |p.sign| + if p.prefix == "0x" || p.prefix == "0X" then 2 else 0
    ensures DigitsOf(t, h) == ReadPart(p)
  {
    var b := p.lead + |p.sign|;
    DigitsRead(p, t, base, b, b + |p.prefix|, b + |p.prefix| + |p.core|);
  }

  lemma ReadPartValue(p: Parts, base: nat)
    requires WellFormed(p, base)
    ensures AllDigits(ReadPart(p), base)
    ensures NumberOf(ReadPart(p), base) == if p.prefix == "x" || p.prefix == "X" then 0 else NumberOf(p.core, base)
  {
    LeadingZeros(1, p.core, base);
  }

  /** What parsing makes of a printed text. Without its zero, the hexadecimal prefix hides the
      digits. */
  lemma ParsedText(p: Parts, base: nat)
    requires WellFormed(p, base)
    ensures Negative(Text(p), base) == (p.sign == "-")
    ensures ValueOf(Text(p), base) == if p.prefix == "x" || p.prefix == "X" then 0 else NumberOf(p.core, base)
  {
    HeaderOfText(p, base);
    DigitsOfText(p, Text(p), base, HeaderOf(Text(p), base));
    ReadPartValue(p, base);
  }

  // ---- a printed zero ----------------------------------------------------------------------

  /** No character is a digit other than 0. */
  predicate OnlyZeros(t: string)
  {
    forall k :: 0 <= k < |t| ==> t[k] == '0' || !IsDigit(t[k], BASE_HEX)
  }

  lemma {:induction false} ZeroNumber(t: string, base: nat)
    requires AllDigits(t, base) && base <= BASE_HEX && OnlyZeros(t)
    ensures NumberOf(t, base) == 0
  {
    if t != "" { ZeroNumber(t[..|t| - 1], base); }
  }

  lemma {:induction false} RepeatOnlyZeros(c: char, n: nat)
    requires c == '0' || c == ' '
    ensures OnlyZeros(Repeat(c, n))
  {
    if n > 0 { RepeatOnlyZeros(c, n - 1); }
  }

  lemma ConcatOnlyZeros(a: string, b: string)
    requires OnlyZeros(a) && OnlyZeros(b)
    ensures OnlyZeros(a + b)
  {
  }

  lemma ZeroPrefixed(body: string, base: nat, precision: nat, field: nat, flags: Flags)
    requires |body| <= INTEGER_BUFFER_SIZE && OnlyZeros(body)
    ensures OnlyZeros(Prefixed(body, base, precision, field, flags))
  {
    var n := PaddedLength(|body|, precision, field, flags);
    var k := KeptLength(|body|, n, precision, field, base, flags);
    RepeatOnlyZeros('0', k - |body|);
    ConcatOnlyZeros(Repeat('0', k - |body|), body);
    ConcatOnlyZeros(if Alternate(|body|, n, base, flags) then Prefix(k, base, flags) else "", Repeat('0',
                    k - |body|) + body);
  }

  lemma ZeroField(text: string, field: nat, flags: Flags)
    requires OnlyZeros(text)
    ensures OnlyZeros(Field(text, field, flags))
  {
    RepeatOnlyZeros(' ', if |text| < field then field - |text| else 0);
  }

  lemma ZeroText(value: nat, negative: bool, base: nat, precision: nat, width: nat, flags: Flags)
    requires value == 0 && PrintBase(base)
    ensures OnlyZeros(Printed(value, negative, base, precision, width, flags))
  {
    BodyFits(value, base, flags);
    var f, body := BodyFlags(value, base, flags), Body(value, base, flags);
    var field := FieldWidth(width, negative, f);
    var prefixed := Prefixed(body, base, precision, field, f);
    ZeroPrefixed(body, base, precision, field, f);
    ConcatOnlyZeros(Sign(|prefixed|, negative, f), prefixed);
    ZeroField(Signed(body, negative, base, precision, width, f), field, f);
  }

  lemma ZeroParses(negative: bool, base: nat, precision: nat, width: nat, flags: Flags)
    requires PrintBase(base)
    ensures ValueOf(Printed(0, negative, base, precision, width, flags), base) == 0
  {
    ZeroText(0, negative, base, precision, width, flags);
    var t := Printed(0, negative, base, precision, width, flags);
    var h := HeaderOf(t, base);
    ZeroNumber(DigitsOf(t, h), h.base);
  }

  // ---- the round trip ----------------------------------------------------------------------

  /** The buffer has room for the whole prefix and the minus sign. */
  predicate Room(value: nat, negative: bool, base: nat, precision: nat, width: nat, flags: Flags)
    requires value <= ULONG_MAX && PrintBase(base)
  {
    BodyFits(value, base, flags);
    var f, body := BodyFlags(value, base, flags), Body(value, base, flags);
    var field := FieldWidth(width, negative, f);
    var n := PaddedLength(|body|, precision, field, f);
    var k := KeptLength(|body|, n, precision, field, base, f);
    && !(Alternate(|body|, n, base, f) && base == BASE_HEX && k + 1 == INTEGER_BUFFER_SIZE)
    && !(negative && |Prefixed(body, base, precision, field, f)| >= INTEGER_BUFFER_SIZE)
  }

  /** There is room whenever width (with zero padding) and precision stay below 30. */
  lemma RoomBelowThirty(value: nat, negative: bool, base: nat, precision: nat, width: nat, flags: Flags)
    requires value <= ULONG_MAX && PrintBase(base) && precision < 30 && (flags.zeroPad && !flags.left ==> width < 30)
    ensures Room(value, negative, base, precision, width, flags)
  {
    BodyFits(value, base, flags);
  }

  lemma Regroup(lead: string, sign: string, prefix: string, core: string, trail: string)
    ensures lead + sign + prefix + core + trail == lead + (sign + (prefix + core)) + trail
  {
    assert sign + (prefix + core) == (sign + prefix) + core;
    assert lead + ((sign + prefix) + core) == ((lead + sign) + prefix) + core;
  }

  lemma FieldForm(text: string, field: nat, flags: Flags) returns (lead: nat, trail: nat)
    ensures Field(text, field, flags) == Repeat(' ', lead) + text + Repeat(' ', trail)
  {
    var gap := if |text| < field then field - |text| else 0;
    lead, trail := if !flags.left && !flags.zeroPad then gap else 0, if flags.left then gap else 0;
  }

  /** A space in the place of the sign is one more leading space. */
  lemma SpaceSign(lead: nat, prefix: string, core: string, trail: string)
    ensures Repeat(' ', lead) + (" " + (prefix + core)) + trail == Repeat(' ', lead + 1) + "" + prefix + core + trail
  {
    RepeatMore(' ', lead);
    Regroup(Repeat(' ', lead), " ", prefix, core, trail);
    assert Repeat(' ', lead) + " " == Repeat(' ', lead + 1) == Repeat(' ', lead + 1) + "";
  }

  lemma FieldParts(sign: string, prefix: string, core: string, field: nat, flags: Flags, base: nat) returns (p: Parts)
    requires WellFormed(Parts(0, if sign == " " then "" else sign, prefix, core, 0), base)
    ensures WellFormed(p, base) && Text(p) == Field(sign + (prefix + core), field, flags)
    ensures p.prefix == prefix && p.core == core && p.sign == if sign == " " then "" else sign
  {
    var lead, trail := FieldForm(sign + (prefix + core), field, flags);
    p := if sign == " " then Parts(lead + 1, "", prefix, core, trail) else Parts(lead, sign, prefix, core, trail);
    TextOfParts(lead, sign, prefix, core, trail, p);
    PaddingFree(Parts(0, p.sign, prefix, core, 0), p, base);
  }

  lemma TextOfParts(lead: nat, sign: string, prefix: string, core: string, trail: nat, p: Parts)
    requires p == if sign == " " then Parts(lead + 1, "", prefix, core, trail) else Parts(lead, sign, prefix, core, trail)
    ensures Text(p) == Repeat(' ', lead) + (sign + (prefix + core)) + Repeat(' ', trail)
  {
    if sign == " " {
      SpaceSign(lead, prefix, core, Repeat(' ', trail));
    } else {
      Regroup(Repeat(' ', lead), sign, prefix, core, Repeat(' ', trail));
    }
  }

  lemma PaddingFree(p: Parts, q: Parts, base: nat)
    requires WellFormed(p, base) && q.sign == p.sign && q.prefix == p.prefix && q.core == p.core
    ensures WellFormed(q, base)
  {
  }

  /** Zeros and digits read as the value. */
  lemma CoreParses(value: nat, base: nat, uppercase: bool, zeros: nat)
    requires value > 0 && PrintBase(base)
    ensures AllDigits(Repeat('0', zeros) + Digits(value, base, uppercase), base)
    ensures Repeat('0', zeros) + Digits(value, base, uppercase) != ""
    ensures NumberOf(Repeat('0', zeros) + Digits(value, base, uppercase), base) == value
  {
    DigitsParse(value, base, uppercase);
    LeadingZeros(zeros, Digits(value, base, uppercase), base);
  }

  /** The prefix that is printed. */
  function PrefixPart(body: string, base: nat, precision: nat, field: nat, flags: Flags): string
    requires |body| <= INTEGER_BUFFER_SIZE
  {
    var n := PaddedLength(|body|, precision, field, flags);
    if Alternate(|body|, n, base, flags) then Prefix(KeptLength(|body|, n, precision, field, base, flags), base, flags) else ""
  }

  function CorePart(body: string, base: nat, precision: nat, field: nat, flags: Flags): string
    requires |body| <= INTEGER_BUFFER_SIZE
  {
    var n := PaddedLength(|body|, precision, field, flags);
    Repeat('0', KeptLength(|body|, n, precision, field, base, flags) - |body|) + body
  }

  /** There is room exactly when prefix and minus sign come out whole. */
  lemma RoomIsWhole(value: nat, negative: bool, base: nat, precision: nat, width: nat, flags: Flags, body: string,
                    f: Flags, field: nat)
    requires value <= ULONG_MAX && PrintBase(base) && |body| <= INTEGER_BUFFER_SIZE
    requires f == BodyFlags(value, base, flags) && body == Body(value, base, flags) && field == FieldWidth(width, negative, f)
    ensures Room(value, negative, base, precision, width, flags) <==>
            var prefix := PrefixPart(body, base, precision, field, f);
            && prefix != "x" && prefix != "X"
            && (negative ==> Sign(|prefix + CorePart(body, base, precision, field, f)|, negative, f) == "-")
  {
  }

  lemma SignedParts(body: string, negative: bool, base: nat, precision: nat, width: nat, f: Flags,
                    field: nat) returns (p: Parts)
    requires PrintBase(base) && |body| <= INTEGER_BUFFER_SIZE && field == FieldWidth(width, negative, f)
    requires AllDigits(CorePart(body, base, precision, field, f), base) && CorePart(body, base, precision, field, f) != ""
    ensures WellFormed(p, base) && Text(p) == Field(Signed(body, negative, base, precision, width, f), field, f)
    ensures p.core == CorePart(body, base, precision, field, f) && p.prefix == PrefixPart(body, base, precision, field, f)
    ensures p.sign == "-" <==> Sign(|p.prefix + p.core|, negative, f) == "-"
  {
    var prefix, core := PrefixPart(body, base, precision, field, f), CorePart(body, base, precision, field, f);
    assert prefix + core == Prefixed(body, base, precision, field, f);
    p := FieldParts(Sign(|prefix + core|, negative, f), prefix, core, field, f, base);
  }

  lemma CorePartParses(value: nat, base: nat, flags: Flags, precision: nat, field: nat, f: Flags, body: string)
    requires value > 0 && PrintBase(base) && body == Body(value, base, flags) && |body| <= INTEGER_BUFFER_SIZE
    ensures var core := CorePart(body, base, precision, field, f);
            AllDigits(core, base) && core != "" && NumberOf(core, base) == value
  {
    CoreParses(value, base, flags.uppercase, |CorePart(body, base, precision, field, f)| - |body|);
  }

  /** The parts of a printed value. */
  lemma PrintedParts(value: nat, negative: bool, base: nat, precision: nat, width: nat, flags: Flags) returns (p: Parts)
    requires 0 < value <= ULONG_MAX && PrintBase(base)
    ensures WellFormed(p, base) && Text(p) == Printed(value, negative, base, precision, width, flags)
    ensures NumberOf(p.core, base) == value
    ensures Room(value, negative, base, precision, width, flags) <==>
            p.prefix != "x" && p.prefix != "X" && (negative ==> p.sign == "-")
    ensures !negative ==> p.sign != "-"
  {
    BodyFits(value, base, flags);
    var f, body := BodyFlags(value, base, flags), Body(value, base, flags);
    var field := FieldWidth(width, negative, f);
    CorePartParses(value, base, flags, precision, field, f, body);
    p := SignedParts(body, negative, base, precision, width, f, field);
    RoomIsWhole(value, negative, base, precision, width, flags, body, f, field);
  }

  function Signed64(negative: bool, value: nat): int { if negative then 0 - value else value }

  /** Parsing what was printed gives sign and value back exactly when there was room. */
  lemma PrintedParses(value: nat, negative: bool, base: nat, precision: nat, width: nat, flags: Flags)
    requires value <= ULONG_MAX && PrintBase(base)
    ensures var t := Printed(value, negative, base, precision, width, flags);
            && (Signed64(Negative(t, base), ValueOf(t, base)) == Signed64(negative, value)
                <==> value == 0 || Room(value, negative, base, precision, width, flags))
            && (value > 0 && !Room(value, negative, base, precision, width, flags) ==>
                  ValueOf(t, base) == 0 || (negative && !Negative(t, base) && ValueOf(t, base) == value))
            && (!negative && value > 0 ==> !Negative(t, base)) && ValueOf(t, base) <= value
  {
    if value == 0 {
      ZeroParses(negative, base, precision, width, flags);
    } else {
      var p := PrintedParts(value, negative, base, precision, width, flags);
      ParsedText(p, base);
    }
  }

  /** strtol undoes the printing of a long, LONG_MIN included, exactly when there was room. */
  lemma LongRoundTrip(value: nat, negative: bool, base: nat, precision: nat, width: nat, flags: Flags)
    requires PrintBase(base) && value <= if negative then 0 - LONG_MIN else LONG_MAX
    ensures var t := Printed(value, negative, base, precision, width, flags);
            ClampLong(Negative(t, base), ValueOf(t, base)) == Signed64(negative, value)
            <==> value == 0 || Room(value, negative, base, precision, width, flags)
  {
    PrintedParses(value, negative, base, precision, width, flags);
  }

  /** strtoul undoes the printing of an unsigned long exactly when there was room. */
  lemma UnsignedRoundTrip(value: nat, base: nat, precision: nat, width: nat, flags: Flags)
    requires PrintBase(base) && value <= ULONG_MAX
    ensures var t := Printed(value, false, base, precision, width, flags);
            ClampUnsigned(Negative(t, base), ValueOf(t, base)) == value
            <==> value == 0 || Room(value, false, base, precision, width, flags)
  {
    PrintedParses(value, false, base, precision, width, flags);
  }

  /** Without room a value is lost: a precision of 31 leaves no place for the zero of `0x`, so that
      strtol reads 0, ... */
  lemma PrefixLost()
    ensures var t := Printed(255, false, BASE_HEX, 31, 0, Flags(false, false, false, false, true, false, true, false));
            ClampLong(Negative(t, BASE_HEX), ValueOf(t, BASE_HEX)) == 0
  {
    var flags := Flags(false, false, false, false, true, false, true, false);
    BodyFits(255, BASE_HEX, flags);
    assert !Room(255, false, BASE_HEX, 31, 0, flags);
    PrintedParses(255, false, BASE_HEX, 31, 0, flags);
  }

  /** ... and one of 32 none for the minus sign, so that it reads 1 for -1. */
  lemma SignLost()
    ensures var t := Printed(1, true, BASE_DECIMAL, 32, 0, Flags(false, false, false, false, false, false, true, false));
            ClampLong(Negative(t, BASE_DECIMAL), ValueOf(t, BASE_DECIMAL)) == 1
  {
    var flags := Flags(false, false, false, false, false, false, true, false);
    BodyFits(1, BASE_DECIMAL, flags);
    assert !Room(1, true, BASE_DECIMAL, 32, 0, flags);
    var p := PrintedParts(1, true, BASE_DECIMAL, 32, 0, flags);
    ParsedText(p, BASE_DECIMAL);
  }

  // ---- width and precision -----------------------------------------------------------------

  /** Zeros that are taken back come back as the prefix: with zero padding, digits and prefix fill
      the field as far as the buffer goes, ... */
  lemma PrefixedFills(body: string, base: nat, precision: nat, field: nat, flags: Flags)
    requires |body| <= INTEGER_BUFFER_SIZE && flags.zeroPad && !flags.left
    ensures |Prefixed(body, base, precision, field, flags)| >= Min(field, INTEGER_BUFFER_SIZE)
  {
    var n := PaddedLength(|body|, precision, field, flags);
    var k := KeptLength(|body|, n, precision, field, base, flags);
    assert n >= Min(field, INTEGER_BUFFER_SIZE);
  }

  /** ... and the sign takes the place that was kept for it. */
  lemma SignedFills(body: string, negative: bool, base: nat, precision: nat, width: nat, flags: Flags)
    requires |body| <= INTEGER_BUFFER_SIZE && flags.zeroPad && !flags.left
    ensures |Signed(body, negative, base, precision, width, flags)| >= Min(width, INTEGER_BUFFER_SIZE)
  {
    PrefixedFills(body, base, precision, FieldWidth(width, negative, flags), flags);
  }

  /** A printed text is at least as wide as asked for; zero padding stops at 32 characters. */
  lemma PrintedWidth(value: nat, negative: bool, base: nat, precision: nat, width: nat, flags: Flags)
    requires value <= ULONG_MAX && PrintBase(base)
    ensures var t := Printed(value, negative, base, precision, width, flags);
            |t| >= if flags.zeroPad && !flags.left then Min(width, INTEGER_BUFFER_SIZE) else width
  {
    BodyFits(value, base, flags);
    if flags.zeroPad && !flags.left {
      SignedFills(Body(value, base, flags), negative, base, precision, width, BodyFlags(value, base, flags));
    }
  }

  lemma BodyDigits(value: nat, base: nat, flags: Flags, zeros: nat)
    requires PrintBase(base)
    ensures AllDigits(Repeat('0', zeros) + Body(value, base, flags), base)
  {
    DigitsParse(value, base, flags.uppercase);
    LeadingZeros(zeros, Body(value, base, flags), base);
  }

  lemma CorePartDigits(value: nat, base: nat, flags: Flags, precision: nat, field: nat, f: Flags, body: string)
    requires PrintBase(base) && body == Body(value, base, flags) && |body| <= INTEGER_BUFFER_SIZE
    ensures AllDigits(CorePart(body, base, precision, field, f), base)
  {
    BodyDigits(value, base, flags, |CorePart(body, base, precision, field, f)| - |body|);
  }

  lemma CorePartLength(body: string, base: nat, precision: nat, field: nat, f: Flags)
    requires |body| <= INTEGER_BUFFER_SIZE && f.precision
    ensures |CorePart(body, base, precision, field, f)| >= Min(precision, INTEGER_BUFFER_SIZE)
  {
  }

  /** With a precision, the parser finds at least that many digits in the text. */
  lemma PrintedPrecision(value: nat, negative: bool, base: nat, precision: nat, width: nat, flags: Flags)
    requires value <= ULONG_MAX && PrintBase(base) && flags.precision && precision <= INTEGER_BUFFER_SIZE
    requires Room(value, negative, base, precision, width, flags)
    ensures var t := Printed(value, negative, base, precision, width, flags); |DigitsOf(t, HeaderOf(t, base))| >= precision
  {
    BodyFits(value, base, flags);
    var f, body := BodyFlags(value, base, flags), Body(value, base, flags);
    var field := FieldWidth(width, negative, f);
    CorePartDigits(value, base, flags, precision, field, f, body);
    CorePartLength(body, base, precision, field, f);
    if precision > 0 {
      var p := SignedParts(body, negative, base, precision, width, f, field);
      RoomIsWhole(value, negative, base, precision, width, flags, body, f, field);
      HeaderOfText(p, base);
      DigitsOfText(p, Text(p), base, HeaderOf(Text(p), base));
    }
  }
}
