/** What a printed integer looks like, character by character: padding, sign, prefix, zeros, digits. */
module PrintShape {
  import opened Strtol
  import opened PrintInteger
  import opened RoundTrip

  // ---- digits ------------------------------------------------------------------------------

  /** Letters are upper case if that is asked for and lower case otherwise. */
  ghost predicate CaseIs(t: string, uppercase: bool)
  {
    forall k :: 0 <= k < |t| ==>
                  ('a' <= t[k] <= 'z' ==> !uppercase) && ('A' <= t[k] <= 'Z' ==> uppercase)
  }

  lemma {:induction false} DigitsCase(v: nat, base: nat, uppercase: bool)
    requires 2 <= base <= 16
    ensures CaseIs(Digits(v, base, uppercase), uppercase)
  {
    if v > 0 {
      Quotient(v, base, v / base, v % base);
      DigitsCase(v / base, base, uppercase);
    }
  }

  /** A number is not printed with leading zeros of its own. */
  lemma {:induction false} FirstDigit(v: nat, base: nat, uppercase: bool)
    requires 2 <= base <= 16 && v > 0
    ensures Digits(v, base, uppercase) != "" && Digits(v, base, uppercase)[0] != '0'
  {
    Quotient(v, base, v / base, v % base);
    if v / base > 0 {
      FirstDigit(v / base, base, uppercase);
    } else {
      assert Digits(0, base, uppercase) == "";
    }
  }

  lemma BodyIs(value: nat, base: nat, flags: Flags, digits: string)
    requires value <= ULONG_MAX && PrintBase(base) && digits == Body(value, base, flags)
    ensures |digits| <= 22
    ensures value == 0 ==> digits == if flags.precision then "" else "0"
    ensures value > 0 ==> digits != "" && digits[0] != '0' && AllDigits(digits, base) && NumberOf(digits, base) == value
    ensures CaseIs(digits, flags.uppercase)
  {
    BodyFits(value, base, flags);
    if value > 0 {
      DigitsCase(value, base, flags.uppercase);
      DigitsParse(value, base, flags.uppercase);
      FirstDigit(value, base, flags.uppercase);
    }
  }

  lemma {:induction false} RepeatIs(c: char, n: nat)
    ensures forall k :: 0 <= k < n ==> Repeat(c, n)[k] == c
  {
    forall k | 0 <= k < n ensures Repeat(c, n)[k] == c { RepeatAt(c, n, k); }
  }

  // ---- the whole text ----------------------------------------------------------------------

  /** Digits with their zeros, and the prefix. `padded` counts the digits after padding, `kept` those
      left when zeros have been taken back for the prefix. */
  lemma CoreShape(value: nat, base: nat, precision: nat, field: nat, flags: Flags, f: Flags, digits: string)
    returns (prefix: string, zeros: string)
    requires PrintBase(base) && |digits| <= 22 && f == BodyFlags(value, base, flags)
    ensures Prefixed(digits, base, precision, field, f) == prefix + zeros + digits
    ensures forall k :: 0 <= k < |zeros| ==> zeros[k] == '0'
    ensures var goal := if flags.zeroPad && !flags.left && field > precision then field else precision;
            var padded := if goal <= |digits| then |digits| else if goal <= 32 then goal else 32;
            var alternate := flags.pointer || (flags.hash && (value > 0 || (flags.precision && base != 16))
                                               && !(base == 8 && padded > |digits|));
            var back := padded - (if base == 16 && padded > 1 then 2 else 1);
            var kept := if alternate && !flags.precision && padded > 0 && (padded == precision || padded == field)
                        then (if back < |digits| then |digits| else back) else padded;
            && |zeros| + |digits| == kept
            && prefix == if !alternate || kept >= 32 then "" else if base != 16 then "0"
                         else (if kept == 31 then "" else "0") + (if flags.uppercase then "X" else "x")
  {
    var n := PaddedLength(|digits|, precision, field, f);
    var k := KeptLength(|digits|, n, precision, field, base, f);
    KeptIs(value, base, precision, field, flags, f, |digits|, n, k);
    prefix := if Alternate(|digits|, n, base, f) then Prefix(k, base, f) else "";
    zeros := Repeat('0', k - |digits|);
    RepeatIs('0', k - |digits|);
    assert prefix + (zeros + digits) == prefix + zeros + digits;
  }

  lemma KeptIs(value: nat, base: nat, precision: nat, field: nat, flags: Flags, f: Flags, d: nat, n: nat, k: nat)
    requires PrintBase(base) && d <= 22 && f == BodyFlags(value, base, flags)
    requires n == PaddedLength(d, precision, field, f) && k == KeptLength(d, n, precision, field, base, f)
    ensures var goal := if flags.zeroPad && !flags.left && field > precision then field else precision;
            var padded := if goal <= d then d else if goal <= 32 then goal else 32;
            var alternate := flags.pointer || (flags.hash && (value > 0 || (flags.precision && base != 16))
                                               && !(base == 8 && padded > d));
            var back := padded - (if base == 16 && padded > 1 then 2 else 1);
            && n == padded && Alternate(d, n, base, f) == alternate
            && k == if alternate && !flags.precision && padded > 0 && (padded == precision || padded == field)
                    then (if back < d then d else back) else padded
  {
  }

  /** The text in full: every part of it, for all flags, also where the buffer of 32 characters cuts
      padding zeros, prefix or sign off. */
  lemma PrintedShape(value: nat, negative: bool, base: nat, precision: nat, width: nat, flags: Flags)
    returns (lead: string, sign: string, prefix: string, zeros: string, digits: string, trail: string)
    requires value <= ULONG_MAX && PrintBase(base)
    ensures Printed(value, negative, base, precision, width, flags) == lead + sign + prefix + zeros + digits + trail
    ensures forall k :: 0 <= k < |lead| ==> lead[k] == ' '
    ensures forall k :: 0 <= k < |trail| ==> trail[k] == ' '
    ensures forall k :: 0 <= k < |zeros| ==> zeros[k] == '0'
    ensures value == 0 ==> digits == if flags.precision then "" else "0"
    ensures value > 0 ==> digits != "" && digits[0] != '0' && AllDigits(digits, base) && NumberOf(digits, base) == value
    ensures CaseIs(digits, flags.uppercase) && |digits| <= 22
    ensures var signed := negative || flags.plus || flags.space;
            var field := if flags.zeroPad && !flags.left && width > 0 && signed then width - 1 else width;
            var goal := if flags.zeroPad && !flags.left && field > precision then field else precision;
            var padded := if goal <= |digits| then |digits| else if goal <= 32 then goal else 32;
            var alternate := flags.pointer || (flags.hash && (value > 0 || (flags.precision && base != 16))
                                               && !(base == 8 && padded > |digits|));
            var back := padded - (if base == 16 && padded > 1 then 2 else 1);
            var kept := if alternate && !flags.precision && padded > 0 && (padded == precision || padded == field)
                        then (if back < |digits| then |digits| else back) else padded;
            && |zeros| + |digits| == kept
            && prefix == if !alternate || kept >= 32 then "" else if base != 16 then "0"
                         else (if kept == 31 then "" else "0") + (if flags.uppercase then "X" else "x")
    ensures sign == if |prefix| + |zeros| + |digits| >= 32 then ""
                    else if negative then "-" else if flags.plus then "+" else if flags.space then " " else ""
    ensures var length := |sign| + |prefix| + |zeros| + |digits|;
            && |lead| == (if !flags.left && !flags.zeroPad && length < width then width - length else 0)
            && |trail| == (if flags.left && length < width then width - length else 0)
  {
    digits := Body(value, base, flags);
    BodyIs(value, base, flags, digits);
    prefix, zeros := CoreOf(value, negative, base, precision, width, flags, digits);
    lead, sign, trail := Outside(value, negative, base, precision, width, flags, prefix, zeros, digits);
  }

  /** The same core, for the field that the sign leaves. */
  lemma CoreOf(value: nat, negative: bool, base: nat, precision: nat, width: nat, flags: Flags, digits: string)
    returns (prefix: string, zeros: string)
    requires PrintBase(base) && |digits| <= 22
    ensures var f := BodyFlags(value, base, flags);
            Prefixed(digits, base, precision, FieldWidth(width, negative, f), f) == prefix + zeros + digits
    ensures forall k :: 0 <= k < |zeros| ==> zeros[k] == '0'
    ensures var signed := negative || flags.plus || flags.space;
            var field := if flags.zeroPad && !flags.left && width > 0 && signed then width - 1 else width;
            var goal := if flags.zeroPad && !flags.left && field > precision then field else precision;
            var padded := if goal <= |digits| then |digits| else if goal <= 32 then goal else 32;
            var alternate := flags.pointer || (flags.hash && (value > 0 || (flags.precision && base != 16))
                                               && !(base == 8 && padded > |digits|));
            var back := padded - (if base == 16 && padded > 1 then 2 else 1);
            var kept := if alternate && !flags.precision && padded > 0 && (padded == precision || padded == field)
                        then (if back < |digits| then |digits| else back) else padded;
            && |zeros| + |digits| == kept
            && prefix == if !alternate || kept >= 32 then "" else if base != 16 then "0"
                         else (if kept == 31 then "" else "0") + (if flags.uppercase then "X" else "x")
  {
    var f := BodyFlags(value, base, flags);
    prefix, zeros := CoreShape(value, base, precision, FieldWidth(width, negative, f), flags, f, digits);
  }

  /** Sign and spaces around the core. */
  lemma Outside(value: nat, negative: bool, base: nat, precision: nat, width: nat, flags: Flags, prefix: string,
                zeros: string, digits: string)
    returns (lead: string, sign: string, trail: string)
    requires value <= ULONG_MAX && PrintBase(base) && digits == Body(value, base, flags) && |digits| <= 22
    requires var f := BodyFlags(value, base, flags);
             Prefixed(digits, base, precision, FieldWidth(width, negative, f), f) == prefix + zeros + digits
    ensures Printed(value, negative, base, precision, width, flags) == lead + sign + prefix + zeros + digits + trail
    ensures forall k :: 0 <= k < |lead| ==> lead[k] == ' '
    ensures forall k :: 0 <= k < |trail| ==> trail[k] == ' '
    ensures sign == if |prefix| + |zeros| + |digits| >= 32 then ""
                    else if negative then "-" else if flags.plus then "+" else if flags.space then " " else ""
    ensures var length := |sign| + |prefix| + |zeros| + |digits|;
            && |lead| == (if !flags.left && !flags.zeroPad && length < width then width - length else 0)
            && |trail| == (if flags.left && length < width then width - length else 0)
  {
    var f := BodyFlags(value, base, flags);
    var field := FieldWidth(width, negative, f);
    var core := prefix + zeros + digits;
    sign := Sign(|core|, negative, f);
    lead, trail := SpacesAround(sign + core, field, f);
    Flatten(lead, sign, prefix, zeros, digits, trail);
  }

  lemma SpacesAround(text: string, field: nat, f: Flags) returns (lead: string, trail: string)
    ensures Field(text, field, f) == lead + text + trail
    ensures forall k :: 0 <= k < |lead| ==> lead[k] == ' '
    ensures forall k :: 0 <= k < |trail| ==> trail[k] == ' '
    ensures |lead| == if !f.left && !f.zeroPad && |text| < field then field - |text| else 0
    ensures |trail| == if f.left && |text| < field then field - |text| else 0
  {
    var gap := if |text| < field then field - |text| else 0;
    RepeatIs(' ', gap);
    lead, trail := if !f.left && !f.zeroPad then Repeat(' ', gap) else "", if f.left then Repeat(' ', gap) else "";
  }

  lemma Flatten(lead: string, sign: string, prefix: string, zeros: string, digits: string, trail: string)
    ensures lead + (sign + (prefix + zeros + digits)) + trail == lead + sign + prefix + zeros + digits + trail
  {
  }

  // ---- what that means ---------------------------------------------------------------------

  lemma CaseOfParts(lead: string, sign: string, prefix: string, zeros: string, digits: string, trail: string, uppercase: bool)
    requires CaseIs(lead, uppercase) && CaseIs(sign, uppercase) && CaseIs(prefix, uppercase) && CaseIs(zeros, uppercase)
    requires CaseIs(digits, uppercase) && CaseIs(trail, uppercase)
    ensures CaseIs(lead + sign + prefix + zeros + digits + trail, uppercase)
  {
  }

  /** Every letter of the text, that of the prefix included, has the case asked for. */
  lemma PrintedCase(value: nat, negative: bool, base: nat, precision: nat, width: nat, flags: Flags)
    requires value <= ULONG_MAX && PrintBase(base)
    ensures var t := Printed(value, negative, base, precision, width, flags);
            forall k :: 0 <= k < |t| ==>
                          ('a' <= t[k] <= 'z' ==> !flags.uppercase) && ('A' <= t[k] <= 'Z' ==> flags.uppercase)
  {
    var lead, sign, prefix, zeros, digits, trail := PrintedShape(value, negative, base, precision, width, flags);
    CaseOfParts(lead, sign, prefix, zeros, digits, trail, flags.uppercase);
  }

  /** With room in the buffer: the sign asked for, the prefix of base 16 in full and a leading zero
      for base 8 in the alternate form, and as many zeros as precision and zero padding ask for. */
  lemma PlainShape(value: nat, negative: bool, base: nat, precision: nat, width: nat, flags: Flags)
    returns (lead: string, sign: string, prefix: string, zeros: string, digits: string, trail: string)
    requires value <= ULONG_MAX && PrintBase(base) && precision < 30 && (flags.zeroPad && !flags.left ==> width < 30)
    ensures Printed(value, negative, base, precision, width, flags) == lead + sign + prefix + zeros + digits + trail
    ensures value == 0 ==> digits == if flags.precision then "" else "0"
    ensures value > 0 ==> digits != "" && digits[0] != '0' && AllDigits(digits, base) && NumberOf(digits, base) == value
    ensures sign == if negative then "-" else if flags.plus then "+" else if flags.space then " " else ""
    ensures flags.hash && base == 16 && value > 0 ==> prefix == if flags.uppercase then "0X" else "0x"
    ensures flags.hash && base == 8 ==> prefix + zeros + digits != "" && (prefix + zeros + digits)[0] == '0'
    ensures !flags.hash && !flags.pointer ==> prefix == ""
    ensures flags.precision && !(flags.zeroPad && !flags.left) ==>
              |zeros| == if |digits| < precision then precision - |digits| else 0
    ensures !flags.precision && precision == 0 ==>
              var bare := |sign| + |prefix| + |digits|;
              |zeros| == if flags.zeroPad && !flags.left && bare < width then width - bare else 0
    ensures var length := |sign| + |prefix| + |zeros| + |digits|;
            && |lead| == (if !flags.left && !flags.zeroPad && length < width then width - length else 0)
            && |trail| == (if flags.left && length < width then width - length else 0)
            && (flags.zeroPad && !flags.left ==> length >= width)
  {
    lead, sign, prefix, zeros, digits, trail := PrintedShape(value, negative, base, precision, width, flags);
    if flags.hash && base == 8 { LeadingZero(prefix, zeros, digits); }
  }

  lemma LeadingZero(prefix: string, zeros: string, digits: string)
    requires forall k :: 0 <= k < |zeros| ==> zeros[k] == '0'
    ensures prefix == "0" || (prefix == "" && zeros != "") || (prefix == "" && zeros == "" && digits == "0") ==>
              prefix + zeros + digits != "" && (prefix + zeros + digits)[0] == '0'
  {
    if prefix == "" { assert prefix + zeros + digits == zeros + digits; }
  }

  /** So the text is as long as its parts or as the field, whichever is longer. */
  lemma PrintedLength(value: nat, negative: bool, base: nat, width: nat, flags: Flags)
    returns (sign: string, prefix: string, digits: string)
    requires value <= ULONG_MAX && PrintBase(base) && !flags.precision && (flags.zeroPad && !flags.left ==> width < 30)
    ensures sign == if negative then "-" else if flags.plus then "+" else if flags.space then " " else ""
    ensures !flags.hash && !flags.pointer ==> prefix == ""
    ensures value == 0 ==> digits == "0"
    ensures value > 0 ==> digits != "" && digits[0] != '0' && AllDigits(digits, base) && NumberOf(digits, base) == value
    ensures var bare := |sign| + |prefix| + |digits|;
            |Printed(value, negative, base, 0, width, flags)| == if bare < width then width else bare
  {
    var lead, zeros, trail;
    lead, sign, prefix, zeros, digits, trail := PlainShape(value, negative, base, 0, width, flags);
  }

  /** `%05d` of -42 and `%#X` of 255. */
  lemma Examples()
    ensures Printed(42, true, 10, 0, 5, Flags(true, false, false, false, false, false, false, false)) == "-0042"
    ensures Printed(255, false, 16, 0, 0, Flags(false, false, false, false, true, true, false, false)) == "0XFF"
  {
    assert Digits(0, 10, false) == "" && Digits(4, 10, false) == "4" && Digits(42, 10, false) == "42";
    assert Repeat('0', 1) == "0" && Repeat('0', 2) == "00";
    assert Digits(0, 16, true) == "" && Digits(15, 16, true) == "F" && Digits(255, 16, true) == "FF";
  }
}
