/** strtol and strtoul: scanning a number in a given base, with saturation at the 64-bit bounds. */
module Strtol {
  import opened Powers

  const LONG_MAX: nat := 0x7fff_ffff_ffff_ffff
  const LONG_MIN: int := -0x8000_0000_0000_0000
  const ULONG_MAX: nat := 0xffff_ffff_ffff_ffff

  // ---- characters --------------------------------------------------------------------------

  /** A C string: behind its last character comes the terminator. */
  function At(s: string, i: nat): char
  {
    if i < |s| then s[i] else '\0'
  }

  predicate IsSpace(c: char) { c == ' ' || '\t' <= c <= '\r' }

  /** The value of a digit or letter; -1 for any other character. */
  function DigitOf(c: char): (d: int)
    ensures -1 <= d < 36
  {
    if '0' <= c <= '9' then c as int - '0' as int
    else if 'A' <= c <= 'Z' then c as int - 'A' as int + 10
    else if 'a' <= c <= 'z' then c as int - 'a' as int + 10
    else -1
  }

  predicate IsDigit(c: char, base: nat) { 0 <= DigitOf(c) < base }

  // ---- the number a string stands for ------------------------------------------------------

  /** First position from `i` on that holds no white space. */
  function SkipSpaces(s: string, i: nat): (j: nat)
    ensures j >= i && !IsSpace(At(s, j))
    decreases if i < |s| then |s| - i else 0
  {
    if IsSpace(At(s, i)) then SkipSpaces(s, i + 1) else i
  }

  /** End of the run of digits that begins at `i`. */
  function RunEnd(s: string, i: nat, base: nat): (j: nat)
    ensures j >= i && (i <= |s| ==> j <= |s|)
    decreases if i < |s| then |s| - i else 0
  {
    if IsDigit(At(s, i), base) then RunEnd(s, i + 1, base) else i
  }

  predicate AllDigits(t: string, base: nat)
  {
    forall k :: 0 <= k < |t| ==> IsDigit(t[k], base)
  }

  /** The number with the given digits, the most significant first. */
  function NumberOf(t: string, base: nat): nat
    requires AllDigits(t, base)
  {
    if t == [] then 0 else NumberOf(t[..|t| - 1], base) * base + DigitOf(t[|t| - 1])
  }

  /** Sign, base and first digit position. */
  datatype Header = Header(negative: bool, base: nat, start: nat)

  /** White space, a sign, and for base 16 (or a base to be found out) the prefix 0x. */
  function HeaderOf(s: string, base: nat): (h: Header)
    requires base == 0 || 2 <= base <= 36
    ensures 2 <= h.base <= 36
  {
    var i := SkipSpaces(s, 0);
    var signed := At(s, i) == '-' || At(s, i) == '+';
    var at := if signed then i + 1 else i;
    var hex := (base == 0 || base == 16) && At(s, at) == '0' && (At(s, at + 1) == 'x' || At(s, at + 1) == 'X');
    Header(At(s, i) == '-',
           if hex then 16 else if base != 0 then base else if At(s, at) == '0' then 8 else 10,
           if hex then at + 2 else at)
  }

  /** The digits of the number. Reading stops at the first character that is none. */
  function DigitsOf(s: string, h: Header): (t: string)
    ensures AllDigits(t, h.base)
  {
    if h.start > |s| then [] else RunIsDigits(s, h.start, h.base); s[h.start..RunEnd(s, h.start, h.base)]
  }

  lemma {:induction false} RunIsDigits(s: string, i: nat, base: nat)
    requires i <= |s|
    ensures AllDigits(s[i..RunEnd(s, i, base)], base)
    decreases |s| - i
  {
    if IsDigit(At(s, i), base) {
      RunIsDigits(s, i + 1, base);
      assert s[i..RunEnd(s, i, base)] == [s[i]] + s[i + 1..RunEnd(s, i + 1, base)];
    }
  }

  function ValueOf(s: string, base: nat): nat
    requires base == 0 || 2 <= base <= 36
  {
    NumberOf(DigitsOf(s, HeaderOf(s, base)), HeaderOf(s, base).base)
  }

  predicate Negative(s: string, base: nat)
    requires base == 0 || 2 <= base <= 36
  {
    HeaderOf(s, base).negative
  }

  // ---- which strings read as what ----------------------------------------------------------

  /** Digits and letters of either case count from 0 to 35, and nothing else is a digit. */
  lemma DigitValue(c: char)
    ensures DigitOf(c) >= 0 <==> '0' <= c <= '9' || 'A' <= c <= 'Z' || 'a' <= c <= 'z'
    ensures DigitOf(c) >= 0 ==> c == "0123456789abcdefghijklmnopqrstuvwxyz"[DigitOf(c)]
                                || c == "0123456789ABCDEFGHIJKLMNOPQRSTUVWXYZ"[DigitOf(c)]
  {
  }

  /** A string taken apart: white space, a sign, the prefix of base 16, the longest run of digits, and
      the rest. A base to be found out is 16 behind a prefix, 8 behind a zero, and 10 otherwise. */
  ghost predicate TakenApart(spaces: string, sign: string, prefix: string, digits: string, rest: string, base: nat, b: nat)
  {
    && (forall k :: 0 <= k < |spaces| ==> spaces[k] as int == 32 || 9 <= spaces[k] as int <= 13)
    && (sign == "" || sign == "+" || sign == "-")
    && (prefix == "" || ((prefix == "0x" || prefix == "0X") && (base == 0 || base == 16)))
    && b == (if prefix != "" then 16 else if base != 0 then base else if |digits + rest| > 0 && (digits + rest)[0] == '0' then 8 else 10)
    && AllDigits(digits, b) && (rest != "" ==> !IsDigit(rest[0], b))
    && (prefix == "" && (base == 0 || base == 16) ==>
          !(|digits + rest| > 1 && (digits + rest)[0] == '0' && ((digits + rest)[1] == 'x' || (digits + rest)[1] == 'X')))
    && (sign == "" && prefix == "" && digits == "" && rest != "" ==>
          rest[0] != '+' && rest[0] != '-' && rest[0] as int != 32 && !(9 <= rest[0] as int <= 13))
  }

  lemma {:induction false} SpacesEnd(s: string, i: nat, n: nat)
    requires i <= n <= |s| && (forall k :: i <= k < n ==> IsSpace(s[k])) && !IsSpace(At(s, n))
    ensures SkipSpaces(s, i) == n
    decreases n - i
  {
    if i < n { SpacesEnd(s, i + 1, n); }
  }

  lemma {:induction false} DigitsEnd(s: string, i: nat, end: nat, base: nat)
    requires i <= end <= |s| && (forall k :: i <= k < end ==> IsDigit(s[k], base)) && !IsDigit(At(s, end), base)
    ensures RunEnd(s, i, base) == end
    decreases end - i
  {
    if i < end { DigitsEnd(s, i + 1, end, base); }
  }

  /** Where the parts end in the string. */
  lemma Segments(s: string, spaces: string, sign: string, prefix: string, tail: string, i: nat, at: nat, start: nat)
    requires s == spaces + sign + prefix + tail && i == |spaces| && at == i + |sign| && start == at + |prefix|
    ensures |s| == start + |tail|
    ensures forall k :: 0 <= k < i ==> s[k] == spaces[k]
    ensures forall k :: i <= k < at ==> s[k] == sign[k - i]
    ensures forall k :: at <= k < start ==> s[k] == prefix[k - at]
    ensures forall k :: start <= k < |s| ==> s[k] == tail[k - start]
  {
  }

  lemma SpacesRead(s: string, spaces: string, sign: string, prefix: string, digits: string, rest: string, base: nat,
                   b: nat, i: nat)
    requires TakenApart(spaces, sign, prefix, digits, rest, base, b)
    requires s == spaces + sign + prefix + (digits + rest) && i == |spaces|
    ensures SkipSpaces(s, 0) == i
    ensures At(s, i) == '-' <==> sign == "-"
    ensures At(s, i) == '+' <==> sign == "+"
  {
    Segments(s, spaces, sign, prefix, digits + rest, i, i + |sign|, i + |sign| + |prefix|);
    assert sign == "" && prefix == "" && digits != "" ==> (digits + rest)[0] == digits[0];
    SpacesEnd(s, 0, i);
  }

  lemma PrefixRead(s: string, spaces: string, sign: string, prefix: string, digits: string, rest: string, base: nat,
                   b: nat, at: nat)
    requires TakenApart(spaces, sign, prefix, digits, rest, base, b)
    requires s == spaces + sign + prefix + (digits + rest) && at == |spaces| + |sign|
    ensures (base == 0 || base == 16) ==>
              (At(s, at) == '0' && (At(s, at + 1) == 'x' || At(s, at + 1) == 'X') <==> prefix != "")
    ensures if prefix != "" then (base == 0 || base == 16) && b == 16 else if base != 0 then b == base
            else b == if At(s, at) == '0' then 8 else 10
    ensures |prefix| == if prefix != "" then 2 else 0
  {
    Segments(s, spaces, sign, prefix, digits + rest, |spaces|, at, at + |prefix|);
    if prefix == "" {
      assert |digits + rest| > 0 ==> s[at] == (digits + rest)[0];
      assert |digits + rest| > 1 ==> s[at + 1] == (digits + rest)[1];
    }
  }

  lemma DigitsFound(s: string, spaces: string, sign: string, prefix: string, digits: string, rest: string, base: nat,
                   b: nat, start: nat)
    requires TakenApart(spaces, sign, prefix, digits, rest, base, b)
    requires s == spaces + sign + prefix + (digits + rest) && start == |spaces| + |sign| + |prefix|
    ensures start + |digits| <= |s| && s[start..start + |digits|] == digits && RunEnd(s, start, b) == start + |digits|
  {
    Segments(s, spaces, sign, prefix, digits + rest, |spaces|, |spaces| + |sign|, start);
    DigitsEnd(s, start, start + |digits|, b);
  }

  /** Its header and its digits are those parts. */
  lemma Reads(s: string, spaces: string, sign: string, prefix: string, digits: string, rest: string, base: nat, b: nat)
    requires base == 0 || 2 <= base <= 36
    requires TakenApart(spaces, sign, prefix, digits, rest, base, b) && s == spaces + sign + prefix + (digits + rest)
    ensures var start := |spaces| + |sign| + |prefix|;
            && HeaderOf(s, base) == Header(sign == "-", b, start)
            && DigitsOf(s, HeaderOf(s, base)) == digits && RunEnd(s, start, b) == start + |digits|
  {
    HeaderReads(s, spaces, sign, prefix, digits, rest, base, b);
    DigitsFound(s, spaces, sign, prefix, digits, rest, base, b, |spaces| + |sign| + |prefix|);
    DigitsOfSlice(s, HeaderOf(s, base), |spaces| + |sign| + |prefix| + |digits|);
  }

  lemma HeaderReads(s: string, spaces: string, sign: string, prefix: string, digits: string, rest: string, base: nat, b: nat)
    requires base == 0 || 2 <= base <= 36
    requires TakenApart(spaces, sign, prefix, digits, rest, base, b) && s == spaces + sign + prefix + (digits + rest)
    ensures HeaderOf(s, base) == Header(sign == "-", b, |spaces| + |sign| + |prefix|)
  {
    var at := |spaces| + |sign|;
    SpacesRead(s, spaces, sign, prefix, digits, rest, base, b, |spaces|);
    PrefixRead(s, spaces, sign, prefix, digits, rest, base, b, at);
    HeaderIs(s, base, |spaces|, sign, at, prefix != "", b);
  }

  lemma DigitsOfSlice(s: string, h: Header, end: nat)
    requires h.start <= |s| && RunEnd(s, h.start, h.base) == end
    ensures end <= |s| && h.start <= end && DigitsOf(s, h) == s[h.start..end]
  {
  }

  lemma HeaderIs(s: string, base: nat, i: nat, sign: string, at: nat, hex: bool, b: nat)
    requires base == 0 || 2 <= base <= 36
    requires SkipSpaces(s, 0) == i && (At(s, i) == '-' <==> sign == "-") && (At(s, i) == '+' <==> sign == "+")
    requires (sign == "" || sign == "+" || sign == "-") && at == i + |sign|
    requires (base == 0 || base == 16) ==> (At(s, at) == '0' && (At(s, at + 1) == 'x' || At(s, at + 1) == 'X') <==> hex)
    requires if hex then (base == 0 || base == 16) && b == 16 else if base != 0 then b == base
             else b == if At(s, at) == '0' then 8 else 10
    ensures HeaderOf(s, base) == Header(sign == "-", b, if hex then at + 2 else at)
  {
  }

  lemma {:induction false} OnlySpaces(s: string, i: nat)
    requires i <= |s|
    ensures SkipSpaces(s, i) <= |s| && forall k :: i <= k < SkipSpaces(s, i) ==> IsSpace(s[k])
    decreases |s| - i
  {
    if i < |s| && IsSpace(s[i]) { OnlySpaces(s, i + 1); }
  }

  lemma {:induction false} RunStops(s: string, i: nat, base: nat)
    requires i <= |s| && base <= 36
    ensures i <= RunEnd(s, i, base) <= |s| && (RunEnd(s, i, base) < |s| ==> !IsDigit(s[RunEnd(s, i, base)], base))
    decreases |s| - i
  {
    if IsDigit(At(s, i), base) { RunStops(s, i + 1, base); }
  }

  lemma Slice1(s: string, i: nat)
    requires i < |s|
    ensures s[i..i + 1] == [s[i]]
  {
  }

  lemma Slice2(s: string, i: nat)
    requires i + 1 < |s|
    ensures s[i..i + 2] == [s[i], s[i + 1]]
  {
  }

  /** White space, sign and prefix, and what can follow them. */
  lemma HeadApart(s: string, base: nat) returns (spaces: string, sign: string, prefix: string, start: nat, b: nat)
    requires base == 0 || 2 <= base <= 36
    ensures start <= |s| && s[..start] == spaces + sign + prefix && b <= 36
    ensures forall k :: 0 <= k < |spaces| ==> spaces[k] as int == 32 || 9 <= spaces[k] as int <= 13
    ensures sign == "" || sign == "+" || sign == "-"
    ensures prefix == "" || ((prefix == "0x" || prefix == "0X") && (base == 0 || base == 16))
    ensures b == if prefix != "" then 16 else if base != 0 then base else if At(s, start) == '0' then 8 else 10
    ensures prefix == "" && (base == 0 || base == 16) ==>
              !(At(s, start) == '0' && (At(s, start + 1) == 'x' || At(s, start + 1) == 'X'))
    ensures sign == "" && prefix == "" ==> At(s, start) != '+' && At(s, start) != '-' && !IsSpace(At(s, start))
  {
    OnlySpaces(s, 0);
    var i, h := SkipSpaces(s, 0), HeaderOf(s, base);
    var at := if At(s, i) == '-' || At(s, i) == '+' then i + 1 else i;
    start, b := h.start, h.base;
    spaces, sign, prefix := s[..i], s[i..at], s[at..start];
    if at < start { Slice2(s, at); }
    if i < at { Slice1(s, i); }
    assert s[..start] == s[..i] + s[i..at] + s[at..start];
  }

  /** Every string can be taken apart, so that the parts say how each one reads. */
  lemma AllRead(s: string, base: nat)
    returns (spaces: string, sign: string, prefix: string, digits: string, rest: string, b: nat)
    requires base == 0 || 2 <= base <= 36
    ensures TakenApart(spaces, sign, prefix, digits, rest, base, b) && s == spaces + sign + prefix + (digits + rest)
  {
    var start;
    spaces, sign, prefix, start, b := HeadApart(s, base);
    digits, rest := DigitsApart(s, start, b);
    TailChars(s, start, digits, rest);
    assert s == s[..start] + s[start..];
  }

  lemma DigitsApart(s: string, start: nat, b: nat) returns (digits: string, rest: string)
    requires start <= |s| && b <= 36
    ensures AllDigits(digits, b) && (rest != "" ==> !IsDigit(rest[0], b)) && digits + rest == s[start..]
  {
    RunIsDigits(s, start, b);
    RunStops(s, start, b);
    digits, rest := s[start..RunEnd(s, start, b)], s[RunEnd(s, start, b)..];
  }

  lemma TailChars(s: string, start: nat, digits: string, rest: string)
    requires start <= |s| && digits + rest == s[start..]
    ensures |digits + rest| > 0 <==> start < |s|
    ensures |digits + rest| > 0 ==> (digits + rest)[0] == s[start]
    ensures |digits + rest| > 1 ==> (digits + rest)[1] == s[start + 1]
    ensures digits == "" && rest != "" ==> rest[0] == s[start]
  {
  }

  // ---- the scanning loop -------------------------------------------------------------------

  /** The test before another digit is taken in, by quotient and remainder of the limit. */
  lemma CutoffTest(acc: nat, c: nat, base: nat, limit: nat)
    requires base > 0 && c < base
    ensures acc > limit / base || (acc == limit / base && c > limit % base) <==> acc * base + c > limit
  {
    var q, r := limit / base, limit % base;
    assert limit == base * q + r;
    if acc > q {
      assert acc * base == base * q + base * (acc - q);
      assert base * (acc - q) >= base by { Product(base, acc - q); }
    } else if acc < q {
      assert base * q == acc * base + base * (q - acc);
      assert base * (q - acc) >= base by { Product(base, q - acc); }
    }
  }

  lemma Product(a: nat, b: nat)
    requires b >= 1
    ensures a * b >= a
  {
    assert a * b == a + a * (b - 1);
    assert a * (b - 1) >= 0;
  }

  /** Once above the limit, a number stays there. */
  lemma AddDigit(t: string, c: char, base: nat)
    requires AllDigits(t, base) && IsDigit(c, base) && base >= 1
    ensures AllDigits(t + [c], base)
    ensures NumberOf(t + [c], base) == NumberOf(t, base) * base + DigitOf(c)
    ensures NumberOf(t + [c], base) >= NumberOf(t, base)
  {
    var u := t + [c];
    assert u[..|u| - 1] == t;
    Product(NumberOf(t, base), base);
  }

  /** What the loop has taken in so far: nothing, the exact number, or too large a one. */
  ghost predicate Scanned(taken: string, base: nat, limit: nat, any: int, acc: nat)
    requires AllDigits(taken, base)
  {
    && -1 <= any <= 1 && (any == 0 <==> taken == [])
    && (any >= 0 ==> acc == NumberOf(taken, base) <= limit)
    && (any == -1 ==> NumberOf(taken, base) > limit)
  }

  lemma QuotientOf(limit: nat, base: nat, cutoff: nat, cutlim: nat)
    requires limit == base * cutoff + cutlim && cutlim < base
    ensures limit / base == cutoff && limit % base == cutlim
  {
    DivUnique(limit, base, cutoff, cutlim);
  }

  /** The largest number that can take one more digit, and the largest digit it can take. */
  method Cutoff(limit: nat, base: nat) returns (cutoff: nat, cutlim: nat)
    requires base >= 2
    ensures limit == base * cutoff + cutlim && cutlim < base
  {
    ghost var q, r := DivParts(limit, base);
    cutlim := limit % base;
    cutoff := limit / base;
  }

  /** Takes one more digit in, or notes that the number has become too large. */
  method TakeDigit(c: char, base: nat, ghost limit: nat, cutoff: nat, cutlim: nat, acc: nat, any: int, ghost taken: string)
    returns (acc': nat, any': int)
    requires 2 <= base <= 36 && IsDigit(c, base) && limit == base * cutoff + cutlim && cutlim < base
    requires AllDigits(taken, base) && Scanned(taken, base, limit, any, acc)
    ensures AllDigits(taken + [c], base) && Scanned(taken + [c], base, limit, any', acc')
  {
    var d := DigitOf(c);
    AddDigit(taken, c, base);
    QuotientOf(limit, base, cutoff, cutlim);
    CutoffTest(acc, d, base, limit);
    if any < 0 || acc > cutoff || (acc == cutoff && d > cutlim) {
      acc', any' := acc, -1;
    } else {
      acc', any' := acc * base + d, 1;
    }
  }

  /** The digit loop both parsers share: it stops at the first character that is no digit of the
      base, and tells whether there was a digit at all and whether the number is within the limit. */
  method ScanDigits(s: string, start: nat, base: nat, limit: nat) returns (acc: nat, any: int, end: nat)
    requires 2 <= base <= 36
    ensures end == RunEnd(s, start, base)
    ensures var h := Header(false, base, start); Scanned(DigitsOf(s, h), base, limit, any, acc)
  {
    var cutoff, cutlim := Cutoff(limit, base);
    acc, any, end := 0, 0, start;
    ghost var taken := "";
    while IsDigit(At(s, end), base)
      invariant start <= end && RunEnd(s, end, base) == RunEnd(s, start, base)
      invariant end == start || end <= |s|
      invariant AllDigits(taken, base) && Scanned(taken, base, limit, any, acc)
      invariant if start > |s| then taken == "" && end == start else taken == s[start..end]
      decreases if end < |s| then |s| - end else 0
    {
      acc, any := TakeDigit(At(s, end), base, limit, cutoff, cutlim, acc, any, taken);
      taken := taken + [At(s, end)];
      end := end + 1;
    }
  }

  /** The scan up to the first digit. */
  method ScanHeader(s: string, base: nat) returns (negative: bool, b: nat, start: nat)
    requires base == 0 || 2 <= base <= 36
    ensures Header(negative, b, start) == HeaderOf(s, base)
  {
    var i := 0;
    while IsSpace(At(s, i))
      invariant SkipSpaces(s, i) == SkipSpaces(s, 0)
      decreases if i < |s| then |s| - i else 0
    {
      i := i + 1;
    }
    negative, b, start := false, base, i;
    if At(s, start) == '-' {
      negative := true;
      start := start + 1;
    } else if At(s, start) == '+' {
      start := start + 1;
    }
    if (b == 0 || b == 16) && At(s, start) == '0' && (At(s, start + 1) == 'x' || At(s, start + 1) == 'X') {
      start := start + 2;
      b := 16;
    }
    if b == 0 {
      b := if At(s, start) == '0' then 8 else 10;
    }
  }

  // ---- the two parsers ---------------------------------------------------------------------

  /** A number brought into the range of long. */
  function ClampLong(negative: bool, v: nat): int
  {
    if negative then (if 0 - v < LONG_MIN then LONG_MIN else 0 - v) else (if v > LONG_MAX then LONG_MAX else v)
  }

  /** For every string: the signed value, saturated at the bounds of long, and the end of the digits
      (or the start of the string if there are none). */
  method Strtol(s: string, base: nat) returns (r: int, end: nat)
    requires base == 0 || 2 <= base <= 36
    ensures r == ClampLong(Negative(s, base), ValueOf(s, base))
    ensures var exact := if Negative(s, base) then 0 - ValueOf(s, base) else ValueOf(s, base);
            && (exact < -0x8000_0000_0000_0000 ==> r == -0x8000_0000_0000_0000)
            && (exact > 0x7fff_ffff_ffff_ffff ==> r == 0x7fff_ffff_ffff_ffff)
            && (-0x8000_0000_0000_0000 <= exact <= 0x7fff_ffff_ffff_ffff ==> r == exact)
    ensures end == if DigitsOf(s, HeaderOf(s, base)) == "" then 0 else RunEnd(s, HeaderOf(s, base).start, HeaderOf(s, base).base)
  {
    var negative, b, start := ScanHeader(s, base);
    var limit: nat := if negative then 0 - LONG_MIN else LONG_MAX;
    var acc, any, stop := ScanDigits(s, start, b, limit);
    assert DigitsOf(s, Header(false, b, start)) == DigitsOf(s, HeaderOf(s, base));
    if any < 0 {
      r := if negative then LONG_MIN else LONG_MAX;
    } else if negative {
      r := -(acc as int);
    } else {
      r := acc;
    }
    end := if any != 0 then stop else 0;
  }

  function ClampUnsigned(negative: bool, v: nat): int
  {
    if v > ULONG_MAX then ULONG_MAX else if negative && v > 0 then ULONG_MAX + 1 - v else v
  }

  /** The unsigned parser saturates at ULONG_MAX; a minus sign negates modulo 2^64. */
  method Strtoul(s: string, base: nat) returns (r: int, end: nat)
    requires base == 0 || 2 <= base <= 36
    ensures r == ClampUnsigned(Negative(s, base), ValueOf(s, base))
    ensures 0 <= r <= 0xffff_ffff_ffff_ffff && (ValueOf(s, base) > 0xffff_ffff_ffff_ffff ==> r == 0xffff_ffff_ffff_ffff)
    ensures ValueOf(s, base) <= 0xffff_ffff_ffff_ffff ==>
              if Negative(s, base) then (r + ValueOf(s, base)) % 0x1_0000_0000_0000_0000 == 0 else r == ValueOf(s, base)
    ensures end == if DigitsOf(s, HeaderOf(s, base)) == "" then 0 else RunEnd(s, HeaderOf(s, base).start, HeaderOf(s, base).base)
  {
    var negative, b, start := ScanHeader(s, base);
    var acc, any, stop := ScanDigits(s, start, b, ULONG_MAX);
    assert DigitsOf(s, Header(false, b, start)) == DigitsOf(s, HeaderOf(s, base));
    if any < 0 {
      r := ULONG_MAX;
    } else if negative {
      r := if acc == 0 then 0 else ULONG_MAX + 1 - acc;
    } else {
      r := acc;
    }
    end := if any != 0 then stop else 0;
  }
}
