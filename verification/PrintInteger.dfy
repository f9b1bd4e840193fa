/** Printing an integer: digits into a buffer of 32 characters, last digit first, padding, prefix and
    sign behind them, and the buffer reversed into the output. */
module PrintInteger {
  import opened Powers
  import opened BitMath
  import opened Strtol

  const INTEGER_BUFFER_SIZE: nat := 32
  const BASE_OCTAL: nat := 8
  const BASE_DECIMAL: nat := 10
  const BASE_HEX: nat := 16

  datatype Flags = Flags(zeroPad: bool, left: bool, plus: bool, space: bool, hash: bool, uppercase: bool,
                         precision: bool, pointer: bool)

  predicate PrintBase(base: nat) { base == BASE_OCTAL || base == BASE_DECIMAL || base == BASE_HEX }

  // ---- digits ------------------------------------------------------------------------------

  function DigitChar(d: nat, uppercase: bool): (c: char)
    requires d < 16
    ensures DigitOf(c) == d && '0' <= c <= 'f'
  {
    if d < 10 then '0' + d as char else if uppercase then 'A' + (d - 10) as char else 'a' + (d - 10) as char
  }

  /** The digits of a number, the most significant first; none for 0. */
  function Digits(v: nat, base: nat, uppercase: bool): string
    requires 2 <= base <= 16
  {
    if v == 0 then "" else Digits(v / base, base, uppercase) + [DigitChar(v % base, uppercase)]
  }

  /** A number of at most 3k bits has at most k digits to a base of at least 8. */
  lemma {:induction false} DigitsLength(v: nat, base: nat, uppercase: bool, k: nat)
    requires 8 <= base <= 16 && v < Pow2(3 * k)
    ensures |Digits(v, base, uppercase)| <= k
    decreases k
  {
    if v > 0 {
      var q := ThreeBitsLess(v, base, k);
      DigitsLength(q, base, uppercase, k - 1);
    }
  }

  lemma ThreeBitsLess(v: nat, base: nat, k: nat) returns (q: nat)
    requires base >= 8 && 0 < v < Pow2(3 * k)
    ensures q == v / base && k > 0 && q < Pow2(3 * (k - 1))
  {
    var r;
    q, r := DivParts(v, base);
    assert k > 0;
    var p := Pow2(3 * (k - 1));
    Pow2Eight(k - 1);
    if q >= p { Product8(base, q, p); }
  }

  lemma Pow2Eight(k: nat)
    ensures Pow2(3 * (k + 1)) == 8 * Pow2(3 * k)
  {
    var e := 3 * k;
    assert Pow2(e + 3) == 2 * Pow2(e + 2) && Pow2(e + 2) == 2 * Pow2(e + 1) && Pow2(e + 1) == 2 * Pow2(e);
  }

  lemma Product8(base: nat, q: nat, p: nat)
    requires base >= 8 && q >= p
    ensures base * q >= 8 * p
  {
    assert base * q == 8 * q + (base - 8) * q;
    NonNegative(base - 8, q);
  }

  lemma Quotient(v: nat, base: nat, q: nat, r: nat)
    requires base >= 2 && q == v / base && r == v % base && v > 0
    ensures q < v && r < base && q * base + r == v
  {
    if q >= v { Product(v, base); NonNegative(q - v, base); Distribute(base, q, v); }
  }

  lemma LastDigit(v: nat, base: nat, uppercase: bool, q: nat, r: nat)
    requires 2 <= base <= 16 && q == v / base && r == v % base && v > 0
    ensures r < base && Digits(v, base, uppercase) == Digits(q, base, uppercase) + [DigitChar(r, uppercase)]
  {
  }

  /** Reading the digits of a number back gives the number. */
  lemma {:induction false} DigitsParse(v: nat, base: nat, uppercase: bool)
    requires 2 <= base <= 16
    ensures AllDigits(Digits(v, base, uppercase), base)
    ensures NumberOf(Digits(v, base, uppercase), base) == v
  {
    if v > 0 {
      DigitsParse(v / base, base, uppercase);
      Quotient(v, base, v / base, v % base);
      DigitsParseStep(v, base, uppercase, v / base, v % base);
    }
  }

  lemma DigitsParseStep(v: nat, base: nat, uppercase: bool, q: nat, r: nat)
    requires 2 <= base <= 16 && q == v / base && r == v % base && v > 0 && r < base && q * base + r == v
    requires AllDigits(Digits(q, base, uppercase), base) && NumberOf(Digits(q, base, uppercase), base) == q
    ensures AllDigits(Digits(v, base, uppercase), base) && NumberOf(Digits(v, base, uppercase), base) == v
  {
    LastDigit(v, base, uppercase, q, r);
    AddDigit(Digits(q, base, uppercase), DigitChar(r, uppercase), base);
  }

  // ---- the buffer --------------------------------------------------------------------------

  function Reversed(s: string): (r: string)
    ensures |r| == |s|
  {
    if s == "" then "" else Reversed(s[1..]) + [s[0]]
  }

  lemma {:induction false} ReversedPush(s: string, c: char)
    ensures Reversed(s + [c]) == [c] + Reversed(s)
  {
    if s == "" {
      assert s + [c] == [c];
    } else {
      assert (s + [c])[1..] == s[1..] + [c];
      ReversedPush(s[1..], c);
    }
  }

  /** The first `len` characters of the buffer are the text so far, reversed. */
  ghost predicate Shows(buffer: array<char>, len: nat, text: string)
    reads buffer
  {
    buffer.Length == INTEGER_BUFFER_SIZE && len <= INTEGER_BUFFER_SIZE && text == Reversed(buffer[..len])
  }

  method Push(buffer: array<char>, len: nat, c: char, ghost text: string) returns (more: nat)
    requires Shows(buffer, len, text) && len < INTEGER_BUFFER_SIZE
    modifies buffer
    ensures more == len + 1 && Shows(buffer, more, [c] + text)
  {
    ReversedPush(buffer[..len], c);
    buffer[len] := c;
    more := len + 1;
    assert buffer[..more] == buffer[..len] + [c];
  }

  /** Taking a character back drops the first one of the text. */
  lemma Pop(buffer: array<char>, len: nat, text: string)
    requires Shows(buffer, len, text) && len > 0
    ensures Shows(buffer, len - 1, text[1..])
  {
    assert buffer[..len] == buffer[..len - 1] + [buffer[len - 1]];
    ReversedPush(buffer[..len - 1], buffer[len - 1]);
  }

  function Repeat(c: char, n: nat): (s: string)
    ensures |s| == n
  {
    if n == 0 then "" else [c] + Repeat(c, n - 1)
  }

  // ---- the layout of the text --------------------------------------------------------------

  function Min(a: nat, b: nat): nat { if a < b then a else b }

  function Max(a: nat, b: nat): nat { if a > b then a else b }

  /** Digits of the value; a zero is printed as one unless a precision is given. */
  function Body(value: nat, base: nat, flags: Flags): string
    requires 2 <= base <= 16
  {
    if value == 0 then (if flags.precision then "" else "0") else Digits(value, base, flags.uppercase)
  }

  /** Zero takes no prefix, except for an octal zero of precision 0. */
  function BodyFlags(value: nat, base: nat, flags: Flags): Flags
  {
    if value == 0 && (!flags.precision || base == BASE_HEX) then flags.(hash := false) else flags
  }

  /** The field width, less one place for a sign that goes in front of padding zeros. */
  function FieldWidth(width: nat, negative: bool, flags: Flags): nat
  {
    if !flags.left && width > 0 && flags.zeroPad && (negative || flags.plus || flags.space) then width - 1 else width
  }

  /** Digits including padding zeros: up to the field width with zero padding, up to the precision,
      and never more than the buffer holds. */
  function PaddedLength(d: nat, precision: nat, field: nat, flags: Flags): (n: nat)
    requires d <= INTEGER_BUFFER_SIZE
    ensures d <= n <= INTEGER_BUFFER_SIZE
  {
    var a := if !flags.left && flags.zeroPad then Max(d, Min(field, INTEGER_BUFFER_SIZE)) else d;
    Max(a, Min(precision, INTEGER_BUFFER_SIZE))
  }

  /** Padding zeros stand in for the prefix of an octal number. */
  predicate Alternate(d: nat, n: nat, base: nat, flags: Flags)
  {
    (flags.hash && !(base == BASE_OCTAL && n > d)) || flags.pointer
  }

  /** What is left of the padding zeros once the prefix has been given room. */
  function KeptLength(d: nat, n: nat, precision: nat, field: nat, base: nat, flags: Flags): (k: nat)
    requires d <= n
    ensures d <= k <= n
  {
    if Alternate(d, n, base, flags) && !flags.precision && n > 0 && (n == precision || n == field)
    then Max(d, n - (if base == BASE_HEX && n > 1 then 2 else 1))
    else n
  }

  /** The prefix, as far as the buffer has room for it: `0x` may lose its zero. */
  function Prefix(k: nat, base: nat, flags: Flags): string
  {
    if base == BASE_HEX then
      var x := if flags.uppercase then "X" else "x";
      if k + 1 < INTEGER_BUFFER_SIZE then "0" + x else if k < INTEGER_BUFFER_SIZE then x else ""
    else if k < INTEGER_BUFFER_SIZE then "0" else ""
  }

  function Sign(length: nat, negative: bool, flags: Flags): string
  {
    if length >= INTEGER_BUFFER_SIZE then ""
    else if negative then "-" else if flags.plus then "+" else if flags.space then " " else ""
  }

  /** The field: padded with spaces on the right, or, without padding zeros, on the left. */
  function Field(text: string, field: nat, flags: Flags): string
  {
    var gap := if |text| < field then field - |text| else 0;
    (if !flags.left && !flags.zeroPad then Repeat(' ', gap) else "") + text + (if flags.left then Repeat(' ', gap) else "")
  }

  // ---- the methods -------------------------------------------------------------------------

  class Stream {
    var written: string

    constructor ()
      ensures written == ""
    {
      written := "";
    }

    method PutC(c: char)
      modifies this
      ensures written == old(written) + [c]
    {
      written := written + [c];
    }

    /** Writes padding spaces until `count` of them are there. */
    method PutSpaces(count: nat)
      modifies this
      ensures written == old(written) + Repeat(' ', count)
    {
      var i := 0;
      while i < count
        invariant i <= count && written == old(written) + Repeat(' ', i)
      {
        RepeatMore(' ', i);
        PutC(' ');
        i := i + 1;
      }
    }

    /** Writes the buffer from its end. */
    method WriteReversed(buffer: array<char>, length: nat, ghost text: string)
      requires Shows(buffer, length, text)
      modifies this
      ensures written == old(written) + text
    {
      var len: nat := length;
      ghost var todo := text;
      while len > 0
        invariant len <= length && Shows(buffer, len, todo) && written + todo == old(written) + text
      {
        Pop(buffer, len, todo);
        ReversedFirst(buffer[..len]);
        len := len - 1;
        PutC(buffer[len]);
        assert [todo[0]] + todo[1..] == todo;
        todo := todo[1..];
      }
      assert todo == "";
    }

    method OutputReverse(buffer: array<char>, length: nat, width: nat, flags: Flags, ghost text: string)
      requires Shows(buffer, length, text)
      modifies this
      ensures written == old(written) + Field(text, width, flags)
    {
      var startPos := |written|;
      ghost var before, gap := written, if length < width then width - length else 0;
      ghost var lead := if !flags.left && !flags.zeroPad then Repeat(' ', gap) else "";
      if !flags.left && !flags.zeroPad {
        PutSpaces(if length < width then width - length else 0);
      }
      assert written == before + lead;
      WriteReversed(buffer, length, text);
      ghost var trail := if flags.left then Repeat(' ', gap) else "";
      if flags.left {
        var position := |written| - startPos;
        PutSpaces(if position < width then width - position else 0);
      }
      FieldAppended(before, lead, text, trail, width, flags, written);
    }
  }

  lemma FieldAppended(before: string, lead: string, text: string, trail: string, width: nat, flags: Flags, after: string)
    requires after == before + lead + text + trail
    requires var gap := if |text| < width then width - |text| else 0;
             && lead == (if !flags.left && !flags.zeroPad then Repeat(' ', gap) else "")
             && trail == (if flags.left then Repeat(' ', gap) else "")
    ensures after == before + Field(text, width, flags)
  {
    assert before + lead + text + trail == before + (lead + text + trail);
  }

  lemma RepeatFirst(c: char, n: nat, text: string)
    ensures [c] + (Repeat(c, n) + text) == Repeat(c, n + 1) + text
  {
  }

  lemma {:induction false} RepeatMore(c: char, n: nat)
    ensures Repeat(c, n) + [c] == Repeat(c, n + 1)
  {
    if n > 0 { RepeatMore(c, n - 1); }
  }

  lemma {:induction false} ReversedFirst(s: string)
    requires s != ""
    ensures Reversed(s)[0] == s[|s| - 1]
  {
    if |s| > 1 { ReversedFirst(s[1..]); }
  }

  /** Takes the last digit off a number. */
  method SplitDigit(v: nat, base: nat, ghost uppercase: bool) returns (q: nat, r: nat)
    requires 2 <= base <= 16 && v > 0
    ensures q < v && r < base && q * base + r == v
    ensures Digits(v, base, uppercase) == Digits(q, base, uppercase) + [DigitChar(r, uppercase)]
  {
    r := v % base;
    q := v / base;
    Quotient(v, base, q, r);
    LastDigit(v, base, uppercase, q, r);
  }

  /** Writes the digits of a nonzero value. The buffer has room for those of every 64-bit value. */
  method WriteDigits(buffer: array<char>, value: nat, base: nat, uppercase: bool) returns (len: nat)
    requires buffer.Length == INTEGER_BUFFER_SIZE && 8 <= base <= 16 && 0 < value <= ULONG_MAX
    modifies buffer
    ensures Shows(buffer, len, Digits(value, base, uppercase)) && len <= 22
  {
    DigitsFit(value, base, uppercase);
    len := 0;
    var v: nat := value;
    ghost var text := "";
    assert buffer[..0] == "";
    var first := true;
    while first || (v != 0 && len < INTEGER_BUFFER_SIZE)
      invariant Shows(buffer, len, text) && Digits(v, base, uppercase) + text == Digits(value, base, uppercase)
      invariant first ==> v == value && len == 0
      invariant v == 0 ==> !first
      decreases v
    {
      var q, r := SplitDigit(v, base, uppercase);
      var digit := DigitChar(r, uppercase);
      len := Push(buffer, len, digit, text);
      text := [digit] + text;
      v := q;
      first := false;
    }
  }

  lemma DigitsFit(value: nat, base: nat, uppercase: bool)
    requires value <= ULONG_MAX && 8 <= base <= 16
    ensures |Digits(value, base, uppercase)| <= 22
  {
    SixtySixBits(value);
    DigitsLength(value, base, uppercase, 22);
  }

  lemma SixtySixBits(v: nat)
    requires v <= ULONG_MAX
    ensures v < Pow2(3 * 22)
  {
    LimitIsPow2();
    assert Pow2(66) == 2 * Pow2(65) == 4 * Pow2(64);
  }

  /** Pushes padding zeros until the text is `target` long. */
  method PushZeros(buffer: array<char>, length: nat, target: nat, ghost text: string) returns (len: nat)
    requires Shows(buffer, length, text)
    modifies buffer
    ensures len == Max(length, Min(target, INTEGER_BUFFER_SIZE))
    ensures Shows(buffer, len, Repeat('0', len - length) + text)
  {
    len := length;
    while len < target && len < INTEGER_BUFFER_SIZE
      invariant length <= len <= Max(length, Min(target, INTEGER_BUFFER_SIZE))
      invariant Shows(buffer, len, Repeat('0', len - length) + text)
    {
      len := Push(buffer, len, '0', Repeat('0', len - length) + text);
      RepeatFirst('0', len - 1 - length, text);
    }
  }

  /** The padding zeros: up to the field width if asked for, then up to the precision. */
  method PadZeros(buffer: array<char>, length: nat, precision: nat, field: nat, flags: Flags, ghost text: string)
    returns (len: nat)
    requires Shows(buffer, length, text)
    modifies buffer
    ensures len == PaddedLength(length, precision, field, flags)
    ensures Shows(buffer, len, Repeat('0', len - length) + text)
  {
    len := length;
    if !flags.left && flags.zeroPad {
      len := PushZeros(buffer, len, field, text);
    }
    ghost var z := len - length;
    len := PushZeros(buffer, len, precision, Repeat('0', z) + text);
    RepeatJoin('0', len - length - z, z, text);
  }

  lemma {:induction false} RepeatJoin(c: char, a: nat, b: nat, text: string)
    ensures Repeat(c, a) + (Repeat(c, b) + text) == Repeat(c, a + b) + text
  {
    if a > 0 {
      RepeatJoin(c, a - 1, b, text);
      RepeatFirst(c, a - 1, Repeat(c, b) + text);
      RepeatFirst(c, a - 1 + b, text);
    }
  }

  lemma DropZero(zeros: nat, text: string)
    ensures (Repeat('0', zeros + 1) + text)[1..] == Repeat('0', zeros) + text
  {
    RepeatFirst('0', zeros, text);
  }

  /** Takes back padding zeros to make room for a prefix. */
  method TakeBack(buffer: array<char>, unpadded: nat, length: nat, precision: nat, field: nat, base: nat, flags: Flags,
                  ghost text: string)
    returns (len: nat)
    requires |text| == unpadded <= length && Shows(buffer, length, Repeat('0', length - unpadded) + text)
    ensures unpadded <= len <= length && Shows(buffer, len, Repeat('0', len - unpadded) + text)
    ensures len == if !flags.precision && length > 0 && (length == precision || length == field)
                   then Max(unpadded, length - (if base == BASE_HEX && length > 1 then 2 else 1)) else length
  {
    len := length;
    if !flags.precision && len != 0 && (len == precision || len == field) {
      if unpadded < len {
        Pop(buffer, len, Repeat('0', len - unpadded) + text);
        len := len - 1;
        DropZero(len - unpadded, text);
      }
      if len != 0 && base == BASE_HEX && unpadded < len {
        Pop(buffer, len, Repeat('0', len - unpadded) + text);
        len := len - 1;
        DropZero(len - unpadded, text);
      }
    }
  }

  /** The prefix, as far as it fits. */
  method PushPrefix(buffer: array<char>, length: nat, base: nat, flags: Flags, ghost text: string) returns (len: nat)
    requires Shows(buffer, length, text)
    modifies buffer
    ensures Shows(buffer, len, Prefix(length, base, flags) + text)
    ensures len == length + |Prefix(length, base, flags)|
  {
    len := length;
    ghost var shown := text;
    if base == BASE_HEX && len < INTEGER_BUFFER_SIZE {
      var x := if flags.uppercase then 'X' else 'x';
      len := Push(buffer, len, x, shown);
      shown := [x] + shown;
    }
    if len < INTEGER_BUFFER_SIZE {
      len := Push(buffer, len, '0', shown);
      shown := ['0'] + shown;
    }
    assert shown == Prefix(length, base, flags) + text;
  }

  method PushSign(buffer: array<char>, length: nat, negative: bool, flags: Flags, ghost text: string) returns (len: nat)
    requires Shows(buffer, length, text)
    modifies buffer
    ensures Shows(buffer, len, Sign(length, negative, flags) + text)
    ensures len == length + |Sign(length, negative, flags)|
  {
    len := length;
    assert "" + text == text;
    if len < INTEGER_BUFFER_SIZE {
      if negative {
        len := Push(buffer, len, '-', text);
      } else if flags.plus {
        len := Push(buffer, len, '+', text);
      } else if flags.space {
        len := Push(buffer, len, ' ', text);
      }
    }
  }

  /** Zeros, digits and, in the alternate form, the prefix. */
  function Prefixed(body: string, base: nat, precision: nat, field: nat, flags: Flags): string
    requires |body| <= INTEGER_BUFFER_SIZE
  {
    var n := PaddedLength(|body|, precision, field, flags);
    var k := KeptLength(|body|, n, precision, field, base, flags);
    (if Alternate(|body|, n, base, flags) then Prefix(k, base, flags) else "") + (Repeat('0', k - |body|) + body)
  }

  /** What is shown once the prefix has been pushed. */
  lemma PrefixedIs(body: string, base: nat, precision: nat, field: nat, flags: Flags, n: nat, shown: string)
    requires |body| <= INTEGER_BUFFER_SIZE && n == PaddedLength(|body|, precision, field, flags)
    requires var k := KeptLength(|body|, n, precision, field, base, flags);
             shown == if Alternate(|body|, n, base, flags) then Prefix(k, base, flags) + (Repeat('0', k - |body|) + body)
                      else Repeat('0', n - |body|) + body
    ensures shown == Prefixed(body, base, precision, field, flags)
  {
    assert "" + shown == shown;
  }

  /** Padding zeros, some of which are taken back for the prefix, and the prefix. */
  method PadAndPrefix(buffer: array<char>, length: nat, base: nat, precision: nat, field: nat, flags: Flags,
                      ghost body: string)
    returns (len: nat)
    requires Shows(buffer, length, body) && |body| == length
    modifies buffer
    ensures Shows(buffer, len, Prefixed(body, base, precision, field, flags))
    ensures len == |Prefixed(body, base, precision, field, flags)|
  {
    len := PadZeros(buffer, length, precision, field, flags, body);
    ghost var n := len;
    ghost var shown := Repeat('0', len - length) + body;
    if Alternate(length, len, base, flags) {
      len := TakeBack(buffer, length, len, precision, field, base, flags, body);
      shown := Repeat('0', len - length) + body;
      ghost var k := len;
      len := PushPrefix(buffer, len, base, flags, shown);
      shown := Prefix(k, base, flags) + shown;
    }
    PrefixedIs(body, base, precision, field, flags, n, shown);
  }

  method FinalizeInteger(stream: Stream, buffer: array<char>, length: nat, negative: bool, base: nat, precision: nat,
                         width: nat, flags: Flags, ghost body: string)
    requires Shows(buffer, length, body)
    modifies stream, buffer
    ensures stream.written == old(stream.written)
                              + Field(Signed(body, negative, base, precision, width, flags), FieldWidth(width, negative, flags), flags)
  {
    var field := FieldWidth(width, negative, flags);
    ghost var prefixed := Prefixed(body, base, precision, field, flags);
    var len := PadAndPrefix(buffer, length, base, precision, field, flags, body);
    len := PushSign(buffer, len, negative, flags, prefixed);
    stream.OutputReverse(buffer, len, field, flags, Sign(|prefixed|, negative, flags) + prefixed);
  }

  /** Everything but the padding spaces. */
  function Signed(body: string, negative: bool, base: nat, precision: nat, width: nat, flags: Flags): string
    requires |body| <= INTEGER_BUFFER_SIZE
  {
    var prefixed := Prefixed(body, base, precision, FieldWidth(width, negative, flags), flags);
    Sign(|prefixed|, negative, flags) + prefixed
  }

  lemma BodyFits(value: nat, base: nat, flags: Flags)
    requires value <= ULONG_MAX && PrintBase(base)
    ensures |Body(value, base, flags)| <= 22
  {
    DigitsFit(value, base, flags.uppercase);
  }

  /** The text that is printed for a value. */
  function Printed(value: nat, negative: bool, base: nat, precision: nat, width: nat, flags: Flags): string
    requires value <= ULONG_MAX && PrintBase(base)
  {
    BodyFits(value, base, flags);
    var f := BodyFlags(value, base, flags);
    Field(Signed(Body(value, base, flags), negative, base, precision, width, f), FieldWidth(width, negative, f), f)
  }

  method PrintInteger(stream: Stream, value: nat, negative: bool, base: nat, precision: nat, width: nat, flags: Flags)
    requires value <= ULONG_MAX && PrintBase(base)
    modifies stream
    ensures stream.written == old(stream.written) + Printed(value, negative, base, precision, width, flags)
  {
    var buffer := new char[INTEGER_BUFFER_SIZE];
    var len := 0;
    var used := flags;
    assert buffer[..0] == "" && Reversed("") == "";
    if value == 0 {
      if !flags.precision {
        len := Push(buffer, len, '0', "");
        used := used.(hash := false);
      } else if base == BASE_HEX {
        used := used.(hash := false);
      }
    } else {
      len := WriteDigits(buffer, value, base, flags.uppercase);
    }
    FinalizeInteger(stream, buffer, len, negative, base, precision, width, used, Body(value, base, flags));
  }
}
