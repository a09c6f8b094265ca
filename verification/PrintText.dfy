/** The characters that the printf package emits for an integer, and how they read back. */
module PrintText {

  /** PKG_VSNPRINTF_INTEGER_BUFFER_SIZE */
  const BUFFER: nat := 32

  datatype Flags = Flags(zeropad: bool, left: bool, plus: bool, space: bool, hash: bool, uppercase: bool,
                         precision: bool, pointer: bool)

  predicate IsBase(base: nat) {
    base in {2, 8, 10, 16}
  }

  function DigitChar(d: nat, upper: bool): char
    requires d < 16
  {
    if d < 10 then ('0' as int + d) as char
    else ((if upper then 'A' else 'a') as int + d - 10) as char
  }

  /** The digits of a value, lowest first, as far as there is room. */
  function Digits(value: nat, base: nat, upper: bool, room: nat): (r: seq<char>)
    requires 2 <= base <= 16
    ensures |r| <= room
    decreases room
  {
    if room == 0 then []
    else [DigitChar(value % base, upper)] + if value / base == 0 then []
                                            else Digits(value / base, base, upper, room - 1)
  }

  function Repeat(c: char, n: int): (r: seq<char>)
    ensures |r| == if n > 0 then n else 0
  {
    if n <= 0 then [] else [c] + Repeat(c, n - 1)
  }

  function Min(a: int, b: int): int { if a < b then a else b }

  /** The digit buffer of print_integer. */
  function Plain(value: nat, base: nat, flags: Flags): seq<char>
    requires 2 <= base <= 16
  {
    if value == 0 then (if flags.precision then [] else ['0']) else Digits(value, base, flags.uppercase, BUFFER)
  }

  /** print_integer drops the alternative form of zero. */
  function PlainFlags(value: nat, base: nat, flags: Flags): Flags {
    if value == 0 && (!flags.precision || base == 16) then flags.(hash := false) else flags
  }

  /** The field width left for digits: a sign takes one place when zeros are to fill the field. */
  function DigitWidth(width: nat, negative: bool, flags: Flags): nat {
    if !flags.left && width > 0 && flags.zeropad && (negative || flags.plus || flags.space) then width - 1 else width
  }

  /** The zeros behind the digits in the buffer, that is in front of them in the output. */
  function Padded(buf: seq<char>, width: nat, precision: nat, flags: Flags): seq<char>
  {
    var z := if !flags.left && flags.zeropad then buf + Repeat('0', Min(width, BUFFER) - |buf|) else buf;
    z + Repeat('0', Min(precision, BUFFER) - |z|)
  }

  /** One more character, when there is room for it. */
  function Push(buf: seq<char>, c: char): seq<char> {
    if |buf| < BUFFER then buf + [c] else buf
  }

  /** Padding is taken back to make room for a prefix. */
  function TakenBack(buf: seq<char>, unpadded: nat, base: nat, precision: nat, width: nat, flags: Flags): seq<char>
    requires unpadded <= |buf|
  {
    if !flags.precision && |buf| > 0 && (|buf| == precision || |buf| == width) then
      var b := if unpadded < |buf| then buf[..|buf| - 1] else buf;
      if |b| > 0 && (base == 16 || base == 2) && unpadded < |b| then b[..|b| - 1] else b
    else buf
  }

  /** The prefix of the alternative form. */
  function Prefixed(buf: seq<char>, base: nat, flags: Flags): seq<char> {
    var b := if base == 16 then Push(buf, if flags.uppercase then 'X' else 'x') else if base == 2 then Push(buf, 'b')
                                                                                     else buf;
    Push(b, '0')
  }

  function Signed(buf: seq<char>, negative: bool, flags: Flags): seq<char> {
    if negative then Push(buf, '-') else if flags.plus then Push(buf, '+') else if flags.space then Push(buf, ' ')
                                                                                else buf
  }

  /** Everything that print_integer_finalization puts into the buffer. */
  function Finished(buf: seq<char>, negative: bool, base: nat, precision: nat, width: nat, flags: Flags): seq<char>
  {
    var w := DigitWidth(width, negative, flags);
    var p := Padded(buf, w, precision, flags);
    var hash := flags.hash && !(base == 8 && |p| > |buf|);
    var h := if hash || flags.pointer then Prefixed(TakenBack(p, |buf|, base, precision, w, flags), base, flags) else p;
    Signed(h, negative, flags)
  }

  function Reversed(s: seq<char>): (r: seq<char>)
    ensures |r| == |s|
  {
    if s == [] then [] else Reversed(s[1..]) + [s[0]]
  }

  /** What out_rev_ emits. */
  function Field(buf: seq<char>, width: nat, flags: Flags): seq<char> {
    (if !flags.left && !flags.zeropad then Repeat(' ', width - |buf|) else [])
    + Reversed(buf)
    + (if flags.left then Repeat(' ', width - |buf|) else [])
  }

  /** What print_integer emits. */
  function IntText(value: nat, negative: bool, base: nat, precision: nat, width: nat, flags: Flags): seq<char>
    requires 2 <= base <= 16
  {
    var fl := PlainFlags(value, base, flags);
    Field(Finished(Plain(value, base, flags), negative, base, precision, width, fl), DigitWidth(width, negative, fl),
          fl)
  }

  // ---------------------------------------------------------------- reading a number

  datatype Reading = NoNumber | Number(negative: bool, value: nat)

  function DigitOf(c: char, base: nat): (d: int)
    ensures d < 16
  {
    var d := if '0' <= c <= '9' then c as int - '0' as int
             else if 'a' <= c <= 'f' then c as int - 'a' as int + 10
             else if 'A' <= c <= 'F' then c as int - 'A' as int + 10
             else -1;
    if d < base then d else -1
  }

  function SkipSpaces(s: seq<char>): seq<char> {
    if s != [] && s[0] == ' ' then SkipSpaces(s[1..]) else s
  }

  /** A number with one more digit behind it. */
  function Append(a: nat, base: nat, d: nat): nat {
    a * base + d
  }

  /** The value of the longest run of digits, read from the left. */
  function ReadDigits(s: seq<char>, base: nat, acc: nat): nat
    decreases |s|
  {
    if s == [] || DigitOf(s[0], base) < 0 then acc else ReadDigits(s[1..], base, Append(acc, base, DigitOf(s[0], base)))
  }

  /** Reads a number as strtol does: spaces, a sign, digits. */
  function Read(s: seq<char>, base: nat): Reading {
    var t := SkipSpaces(s);
    var signed := t != [] && (t[0] == '-' || t[0] == '+');
    var u := if signed then t[1..] else t;
    if u == [] || DigitOf(u[0], base) < 0 then NoNumber
    else Number(signed && t[0] == '-', ReadDigits(u, base, 0))
  }

  // ---------------------------------------------------------------- digits read back

  ghost predicate AllDigits(s: seq<char>, base: nat) {
    forall k {:trigger s[k]} :: 0 <= k < |s| ==> DigitOf(s[k], base) >= 0
  }

  /** The value of a buffer of digits, lowest first. */
  function Value(s: seq<char>, base: nat): nat
    requires AllDigits(s, base)
  {
    if s == [] then 0 else Append(Value(s[1..], base), base, DigitOf(s[0], base))
  }

  /** Capital letters come out with the upper-case flag and small ones without. */
  lemma DigitIs(d: nat, upper: bool)
    requires d < 16
    ensures DigitChar(d, upper) == if upper then "0123456789ABCDEF"[d] else "0123456789abcdef"[d]
  {
  }

  lemma DigitReads(d: nat, base: nat, upper: bool)
    requires d < base <= 16
    ensures DigitOf(DigitChar(d, upper), base) == d
  {
  }

  /** Splitting off the lowest digit. */
  lemma Lowest(v: nat, base: nat)
    requires IsBase(base)
    ensures v == Append(v / base, base, v % base) && v % base < base
    ensures v / base == 0 <==> v < base
    ensures v >= base ==> v / base < v
  {
    if base == 2 { assert v == v / 2 * 2 + v % 2; } else if base == 8 { assert v == v / 8 * 8 + v % 8; }
    else if base == 10 { assert v == v / 10 * 10 + v % 10; } else { assert v == v / 16 * 16 + v % 16; }
  }

  /** How many digits a value has. */
  function Count(value: nat, base: nat): nat
    requires IsBase(base)
  {
    if value < base then 1
    else
      Lowest(value, base);
      1 + Count(value / base, base)
  }

  lemma AppendMonotone(a: nat, b: nat, base: nat, d: nat)
    requires a <= b && IsBase(base)
    ensures Append(a, base, d) <= Append(b, base, d)
    ensures Append(a, base, d) == Append(b, base, d) <==> a == b
  {
    if base == 2 { assert a * 2 <= b * 2; } else if base == 8 { assert a * 8 <= b * 8; }
    else if base == 10 { assert a * 10 <= b * 10; } else { assert a * 16 <= b * 16; }
  }

  /** The digits give the value back exactly when all of them have room. */
  lemma {:induction false} DigitsValue(value: nat, base: nat, upper: bool, room: nat)
    requires IsBase(base) && room > 0
    ensures AllDigits(Digits(value, base, upper, room), base)
    ensures Value(Digits(value, base, upper, room), base) <= value
    ensures Value(Digits(value, base, upper, room), base) == value <==> Count(value, base) <= room
    decreases room
  {
    hide Append, DigitOf, DigitChar;
    var ds := Digits(value, base, upper, room);
    var q := value / base;
    var rest := if q == 0 then [] else Digits(q, base, upper, room - 1);
    DigitReads(value % base, base, upper);
    Lowest(value, base);
    assert ds == [DigitChar(value % base, upper)] + rest && ds[1..] == rest;
    if q == 0 {
      assert Value([], base) == 0;
    } else if room == 1 {
      assert rest == [] && Value(rest, base) == 0;
      AppendMonotone(0, q, base, value % base);
    } else {
      DigitsValue(q, base, upper, room - 1);
      AppendMonotone(Value(rest, base), q, base, value % base);
    }
  }

  lemma {:induction false} RepeatIs(c: char, n: int)
    ensures forall k {:trigger Repeat(c, n)[k]} :: 0 <= k < n ==> Repeat(c, n)[k] == c
  {
    if n > 0 {
      RepeatIs(c, n - 1);
    }
  }

  lemma ZeroAppended(base: nat)
    requires base >= 1
    ensures Append(0, base, 0) == 0 && DigitOf('0', base) == 0
  {
  }

  /** Zeros behind the highest digit change nothing. */
  lemma {:induction false} ZerosKeepValue(s: seq<char>, base: nat, n: int)
    requires 2 <= base && AllDigits(s, base)
    ensures AllDigits(s + Repeat('0', n), base) && Value(s + Repeat('0', n), base) == Value(s, base)
  {
    hide Append;
    RepeatIs('0', n);
    ZeroAppended(base);
    if s == [] {
      assert s + Repeat('0', n) == Repeat('0', n);
      if n > 0 {
        ZerosKeepValue([], base, n - 1);
        assert [] + Repeat('0', n - 1) == Repeat('0', n)[1..];
      }
    } else {
      ZerosKeepValue(s[1..], base, n);
      assert (s + Repeat('0', n))[1..] == s[1..] + Repeat('0', n);
    }
  }

  // ---------------------------------------------------------------- reading the reversed buffer

  lemma {:induction false} ReadDigitsConcat(s: seq<char>, t: seq<char>, base: nat, acc: nat)
    requires AllDigits(s, base)
    ensures ReadDigits(s + t, base, acc) == ReadDigits(t, base, ReadDigits(s, base, acc))
    decreases |s|
  {
    hide Append, DigitOf;
    if s == [] {
      assert s + t == t;
    } else {
      assert (s + t)[1..] == s[1..] + t;
      ReadDigitsConcat(s[1..], t, base, Append(acc, base, DigitOf(s[0], base)));
    }
  }

  lemma {:induction false} ReversedDigits(s: seq<char>, base: nat)
    requires AllDigits(s, base)
    ensures AllDigits(Reversed(s), base)
  {
    if s != [] {
      ReversedDigits(s[1..], base);
    }
  }

  /** Reading the reversed buffer gives its value, whatever follows that is not a digit. */
  lemma {:induction false} ReadReversed(s: seq<char>, base: nat, rest: seq<char>)
    requires AllDigits(s, base) && (rest != [] ==> DigitOf(rest[0], base) < 0)
    ensures ReadDigits(Reversed(s) + rest, base, 0) == Value(s, base)
  {
    ReversedDigits(s, base);
    ReadDigitsConcat(Reversed(s), rest, base, 0);
    ReadReversedOnly(s, base);
  }

  lemma {:induction false} ReadReversedOnly(s: seq<char>, base: nat)
    requires AllDigits(s, base)
    ensures ReadDigits(Reversed(s), base, 0) == Value(s, base)
  {
    hide Append, DigitOf;
    if s != [] {
      ReadReversedOnly(s[1..], base);
      ReversedDigits(s[1..], base);
      ReadDigitsConcat(Reversed(s[1..]), [s[0]], base, 0);
      assert [s[0]][1..] == [];
    }
  }

  // ---------------------------------------------------------------- the whole field read back

  lemma {:induction false} SkipsSpaces(n: int, t: seq<char>)
    ensures SkipSpaces(Repeat(' ', n) + t) == SkipSpaces(t)
    decreases n
  {
    if n <= 0 {
      assert Repeat(' ', n) + t == t;
    } else {
      assert (Repeat(' ', n) + t)[1..] == Repeat(' ', n - 1) + t;
      SkipsSpaces(n - 1, t);
    }
  }

  lemma {:induction false} ReversedAppend(s: seq<char>, c: char)
    ensures Reversed(s + [c]) == [c] + Reversed(s)
  {
    if s == [] {
      assert s + [c] == [c];
    } else {
      assert (s + [c])[1..] == s[1..] + [c];
      ReversedAppend(s[1..], c);
    }
  }

  /** A buffer of digits, printed with nothing but spaces around it. */
  lemma ReadUnsigned(p: seq<char>, base: nat, m: int)
    requires AllDigits(p, base)
    ensures var t := Reversed(p) + Repeat(' ', m);
            && SkipSpaces(t) == (if p == [] then [] else t)
            && (p != [] ==>
                  && DigitOf(t[0], base) >= 0 && t[0] != '-' && t[0] != '+'
                  && ReadDigits(t, base, 0) == Value(p, base))
            && (p == [] ==> t == [] || DigitOf(t[0], base) < 0)
  {
    var t := Reversed(p) + Repeat(' ', m);
    if p == [] {
      SkipsSpaces(m, []);
      assert Repeat(' ', m) + [] == t;
      RepeatIs(' ', m);
    } else {
      ReversedDigits(p, base);
      RepeatIs(' ', m);
      ReadReversed(p, base, Repeat(' ', m));
      assert t[0] == Reversed(p)[0];
    }
  }

  /** Read, on a field made of spaces, a sign and digits. */
  lemma ReadField(p: seq<char>, base: nat, sign: seq<char>, k: int, m: int)
    requires AllDigits(p, base) && (sign == [] || sign == ['-'] || sign == ['+'] || sign == [' '])
    ensures Read(Repeat(' ', k) + (sign + (Reversed(p) + Repeat(' ', m))), base)
            == if p == [] then NoNumber else Number(sign == ['-'], Value(p, base))
  {
    hide DigitOf, Reversed, Repeat, ReadDigits;
    var t := Reversed(p) + Repeat(' ', m);
    ReadUnsigned(p, base, m);
    SkipsSpaces(k, sign + t);
    if sign == [] {
      assert sign + t == t;
    } else {
      assert (sign + t)[1..] == t && (sign + t)[0] == sign[0];
    }
  }

  /** The sign that print_integer_finalization adds, if there is room. */
  function Sign(p: seq<char>, negative: bool, flags: Flags): seq<char> {
    if |p| >= BUFFER then [] else if negative then ['-'] else if flags.plus then ['+'] else if flags.space then [' ']
                                                                                            else []
  }

  lemma PlainValue(value: nat, base: nat, flags: Flags)
    requires IsBase(base)
    ensures var b := Plain(value, base, flags);
            && AllDigits(b, base) && Value(b, base) <= value
            && (Value(b, base) == value <==> Count(value, base) <= BUFFER)
            && |b| == (if value == 0 && flags.precision then 0 else Min(Count(value, base), BUFFER))
  {
    hide Append, DigitOf, Digits;
    if value == 0 {
      ZeroAppended(base);
      assert ['0'][1..] == [] && Value([], base) == 0;
      assert AllDigits(['0'], base) && Value(['0'], base) == 0;
    } else {
      DigitsValue(value, base, flags.uppercase, BUFFER);
      DigitsLength(value, base, flags.uppercase, BUFFER);
    }
  }

  lemma {:induction false} DigitsLength(value: nat, base: nat, upper: bool, room: nat)
    requires IsBase(base)
    ensures |Digits(value, base, upper, room)| == Min(Count(value, base), room)
    decreases room
  {
    Lowest(value, base);
    if room > 0 && value / base != 0 {
      DigitsLength(value / base, base, upper, room - 1);
    }
  }

  lemma PaddedValue(buf: seq<char>, base: nat, width: nat, precision: nat, flags: Flags)
    requires IsBase(base) && AllDigits(buf, base) && |buf| <= BUFFER
    ensures var p := Padded(buf, width, precision, flags);
            && AllDigits(p, base) && Value(p, base) == Value(buf, base)
            && (|p| < BUFFER <==>
                  && |buf| < BUFFER && precision < BUFFER
                  && !(!flags.left && flags.zeropad && width >= BUFFER))
            && (p == [] <==> buf == [] && precision == 0 && !(!flags.left && flags.zeropad && width > 0))
  {
    hide Value, AllDigits, Repeat;
    var z := if !flags.left && flags.zeropad then buf + Repeat('0', Min(width, BUFFER) - |buf|) else buf;
    ZerosKeepValue(buf, base, Min(width, BUFFER) - |buf|);
    ZerosKeepValue(z, base, Min(precision, BUFFER) - |z|);
  }

  /** What any field printed without the alternative form reads as. */
  lemma ReadsAs(value: nat, negative: bool, base: nat, precision: nat, width: nat, flags: Flags)
    requires IsBase(base) && !flags.hash && !flags.pointer
    ensures var b := Plain(value, base, flags);
            var p := Padded(b, DigitWidth(width, negative, flags), precision, flags);
            AllDigits(b, base) &&
            Read(IntText(value, negative, base, precision, width, flags), base)
            == if p == [] then NoNumber else Number(negative && |p| < BUFFER, Value(b, base))
  {
    hide Plain, Padded, Value, Read, IntText, Finished, Field, Sign, DigitWidth, Reversed, Repeat;
    var b := Plain(value, base, flags);
    var w := DigitWidth(width, negative, flags);
    PlainValue(value, base, flags);
    PaddedValue(b, base, w, precision, flags);
    var p := Padded(b, w, precision, flags);
    var sign := Sign(p, negative, flags);
    IntTextIs(value, negative, base, precision, width, flags);
    FinishedIs(b, negative, base, precision, width, flags);
    SignIs(p, negative, flags);
    FieldIs(p, sign, w, flags);
    ReadField(p, base, sign, SpacesBefore(p + sign, w, flags), SpacesBehind(p + sign, w, flags));
  }

  function SpacesBefore(buf: seq<char>, width: nat, flags: Flags): int {
    if !flags.left && !flags.zeropad then width - |buf| else 0
  }

  function SpacesBehind(buf: seq<char>, width: nat, flags: Flags): int {
    if flags.left then width - |buf| else 0
  }

  lemma SignIs(p: seq<char>, negative: bool, flags: Flags)
    ensures Sign(p, negative, flags) == ['-'] <==> negative && |p| < BUFFER
    ensures var s := Sign(p, negative, flags); s == [] || s == ['-'] || s == ['+'] || s == [' ']
  {
  }

  lemma IntTextIs(value: nat, negative: bool, base: nat, precision: nat, width: nat, flags: Flags)
    requires IsBase(base) && !flags.hash
    ensures var b, w := Plain(value, base, flags), DigitWidth(width, negative, flags);
            IntText(value, negative, base, precision, width, flags)
              == Field(Finished(b, negative, base, precision, width, flags), w, flags)
  {
    assert PlainFlags(value, base, flags) == flags;
  }

  /** The buffer without the alternative form: digits, padding and sign. */
  lemma FinishedIs(b: seq<char>, negative: bool, base: nat, precision: nat, width: nat, flags: Flags)
    requires !flags.hash && !flags.pointer
    ensures var p := Padded(b, DigitWidth(width, negative, flags), precision, flags);
            Finished(b, negative, base, precision, width, flags) == p + Sign(p, negative, flags)
  {
    hide Padded, DigitWidth;
  }

  /** The parts of a field. */
  lemma FieldIs(p: seq<char>, sign: seq<char>, w: nat, flags: Flags)
    requires |sign| <= 1
    ensures Field(p + sign, w, flags)
            == Repeat(' ', SpacesBefore(p + sign, w,
                                        flags)) + (sign + (Reversed(p) + Repeat(' ', SpacesBehind(p + sign, w, flags))))
  {
    hide Reversed;
    ReversedSign(p, sign);
    var before, behind := Repeat(' ', SpacesBefore(p + sign, w, flags)), Repeat(' ', SpacesBehind(p + sign, w, flags));
    assert Field(p + sign, w, flags) == before + Reversed(p + sign) + behind;
    hide Repeat, Field;
    assert before + (sign + Reversed(p)) + behind == before + (sign + (Reversed(p) + behind));
  }

  lemma ReversedSign(p: seq<char>, sign: seq<char>)
    requires |sign| <= 1
    ensures Reversed(p + sign) == sign + Reversed(p)
  {
    if sign == [] {
      assert p + sign == p && sign + Reversed(p) == Reversed(p);
    } else {
      ReversedAppend(p, sign[0]);
      assert sign == [sign[0]];
    }
  }

  // ---------------------------------------------------------------- the layout of a field

  /** The sign: minus for a negative number, else plus or a space if one was asked for; plus wins. */
  ghost function SignText(negative: bool, flags: Flags): seq<char> {
    if negative then "-" else if flags.plus then "+" else if flags.space then " " else ""
  }

  /** The digits of a value, highest first; zero has none when a precision is given. */
  ghost function DigitText(value: nat, base: nat, flags: Flags): seq<char>
    requires IsBase(base)
  {
    if value == 0 && flags.precision then "" else Reversed(Digits(value, base, flags.uppercase, BUFFER))
  }

  /** Zeros in front of the digits: up to the precision, and up to the width if they are to fill the field. */
  ghost function ZerosBefore(digits: nat, negative: bool, precision: nat, width: nat, flags: Flags): nat {
    var fill := if flags.zeropad && !flags.left then width - |SignText(negative, flags)| - digits else 0;
    var more := precision - digits;
    if fill > more && fill > 0 then fill else if more > 0 then more else 0
  }

  /**
   * A field without the alternative form: spaces, the sign, zeros, the digits, spaces. It is as wide as it must be and
   * at least as wide as it should be; the spaces are in front unless it is left-justified or filled with zeros.
   */
  lemma Layout(value: nat, negative: bool, base: nat, precision: nat, width: nat, flags: Flags)
    requires IsBase(base) && !flags.hash && !flags.pointer
    requires var d := DigitText(value, base, flags);
             |d| + ZerosBefore(|d|, negative, precision, width, flags) < BUFFER
    ensures var d, sign := DigitText(value, base, flags), SignText(negative, flags);
            var body := sign + Repeat('0', ZerosBefore(|d|, negative, precision, width, flags)) + d;
            IntText(value, negative, base, precision, width, flags)
            == if flags.left then body + Repeat(' ', width - |body|)
               else if flags.zeropad then body
               else Repeat(' ', width - |body|) + body
  {
    hide Plain, Padded, Reversed, Finished, IntText, Digits, DigitText, ZerosBefore, Repeat, Field, SignText, Sign;
    hide DigitWidth;
    var b := Plain(value, base, flags);
    var w := DigitWidth(width, negative, flags);
    PlainIs(value, base, flags);
    IntTextIs(value, negative, base, precision, width, flags);
    FinishedIs(b, negative, base, precision, width, flags);
    PaddedIs(b, negative, precision, width, flags);
    var d, sign := DigitText(value, base, flags), SignText(negative, flags);
    var zeros := Repeat('0', ZerosBefore(|d|, negative, precision, width, flags));
    var p := b + zeros;
    SignFits(p, negative, width, flags);
    FieldIs(p, sign, w, flags);
    ReversedZeros(b, ZerosBefore(|d|, negative, precision, width, flags));
    assert Reversed(p) == zeros + d && |p + sign| == |sign + zeros + d|;
    Arranged(sign, zeros, d, SpacesBefore(p + sign, w, flags), SpacesBehind(p + sign, w, flags));
  }

  lemma SignFits(p: seq<char>, negative: bool, width: nat, flags: Flags)
    requires |p| < BUFFER
    ensures Sign(p, negative, flags) == SignText(negative, flags) && |SignText(negative, flags)| <= 1
    ensures flags.left || !flags.zeropad ==> DigitWidth(width, negative, flags) == width
  {
  }

  lemma Arranged(sign: seq<char>, zeros: seq<char>, d: seq<char>, before: int, behind: int)
    ensures var body := sign + zeros + d;
            var field := Repeat(' ', before) + (sign + ((zeros + d) + Repeat(' ', behind)));
            && (before <= 0 ==> field == body + Repeat(' ', behind))
            && (behind <= 0 ==> field == Repeat(' ', before) + body)
            && (before <= 0 && behind <= 0 ==> field == body)
  {
    var body := sign + zeros + d;
    assert sign + ((zeros + d) + Repeat(' ', behind)) == body + Repeat(' ', behind);
    assert body + "" == body;
    assert forall x: seq<char> :: "" + x == x;
  }

  lemma PlainIs(value: nat, base: nat, flags: Flags)
    requires IsBase(base)
    ensures Reversed(Plain(value, base, flags)) == DigitText(value, base, flags)
    ensures |DigitText(value, base, flags)| == |Plain(value, base, flags)| <= BUFFER
  {
    if value == 0 {
      assert Digits(0, base, flags.uppercase, BUFFER) == [DigitChar(0, flags.uppercase)];
    }
  }

  lemma PaddedIs(b: seq<char>, negative: bool, precision: nat, width: nat, flags: Flags)
    requires |b| + ZerosBefore(|b|, negative, precision, width, flags) < BUFFER
    ensures Padded(b, DigitWidth(width, negative, flags), precision, flags)
            == b + Repeat('0', ZerosBefore(|b|, negative, precision, width, flags))
  {
    var w := DigitWidth(width, negative, flags);
    var fill := Min(w, BUFFER) - |b|;
    var z := if !flags.left && flags.zeropad then b + Repeat('0', fill) else b;
    RepeatConcat('0', fill, Min(precision, BUFFER) - |z|);
    assert b + "" == b;
    assert !flags.left && flags.zeropad ==>
             z + Repeat('0', Min(precision, BUFFER) - |z|)
             == b + (Repeat('0', fill) + Repeat('0', Min(precision, BUFFER) - |z|));
  }

  lemma {:induction false} RepeatConcat(c: char, n: int, m: int)
    ensures Repeat(c, n) + Repeat(c, m) == Repeat(c, (if n > 0 then n else 0) + (if m > 0 then m else 0))
  {
    if n > 0 {
      RepeatConcat(c, n - 1, m);
    }
  }

  lemma {:induction false} ReversedConcat(s: seq<char>, t: seq<char>)
    ensures Reversed(s + t) == Reversed(t) + Reversed(s)
  {
    if s == [] {
      assert s + t == t && Reversed(t) + [] == Reversed(t);
    } else {
      ReversedConcat(s[1..], t);
      assert (s + t)[1..] == s[1..] + t;
    }
  }

  lemma {:induction false} ReversedRepeat(c: char, n: int)
    ensures Reversed(Repeat(c, n)) == Repeat(c, n)
  {
    if n > 0 {
      ReversedRepeat(c, n - 1);
      RepeatConcat(c, n - 1, 1);
      assert Repeat(c, 1) == [c];
    }
  }

  lemma ReversedZeros(b: seq<char>, z: int)
    ensures Reversed(b + Repeat('0', z)) == Repeat('0', z) + Reversed(b)
  {
    ReversedConcat(b, Repeat('0', z));
    ReversedRepeat('0', z);
  }

  /** The prefix of the alternative form. */
  ghost function PrefixText(base: nat, flags: Flags): seq<char> {
    if base == 16 then (if flags.uppercase then "0X" else "0x") else if base == 2 then "0b" else "0"
  }

  /** With '#' and neither a precision nor zeros to fill the field, the prefix stands between sign and digits. */
  lemma HashLayout(value: nat, negative: bool, base: nat, width: nat, flags: Flags)
    requires base in {2, 8, 16} && flags.hash && !flags.precision && !flags.zeropad && value > 0
    requires |DigitText(value, base, flags)| + 3 <= BUFFER
    ensures var d, sign := DigitText(value, base, flags), SignText(negative, flags);
            var body := sign + PrefixText(base, flags) + d;
            IntText(value, negative, base, 0, width, flags)
            == if flags.left then body + Repeat(' ', width - |body|) else Repeat(' ', width - |body|) + body
  {
    hide Plain, DigitText, Reversed, Digits, IntText, Finished, Repeat, PrefixText, SignText, Backwards;
    PlainIs(value, base, flags);
    var b := Plain(value, base, flags);
    var d, sign, prefix := DigitText(value, base, flags), SignText(negative, flags), PrefixText(base, flags);
    HashFinished(value, b, negative, base, width, flags);
    var buf := b + Backwards(prefix) + sign;
    ReversedConcat(b + Backwards(prefix), sign);
    ReversedConcat(b, Backwards(prefix));
    ReversedShort(prefix);
    ReversedShort(sign);
    var body := sign + prefix + d;
    assert Reversed(buf) == body && |body| == |buf|;
    assert body + "" == body && "" + body == body;
  }

  /** The buffer with a prefix and without zeros to fill. */
  lemma HashFinished(value: nat, b: seq<char>, negative: bool, base: nat, width: nat, flags: Flags)
    requires base in {2, 8, 16} && flags.hash && !flags.precision && !flags.zeropad && value > 0
    requires b == Plain(value, base, flags) && |b| <= BUFFER - 3
    ensures |PrefixText(base, flags)| <= 2 && |SignText(negative, flags)| <= 1
    ensures var buf := b + Backwards(PrefixText(base, flags)) + SignText(negative, flags);
            IntText(value, negative, base, 0, width, flags)
            == (if flags.left then "" else Repeat(' ', width - |buf|)) + Reversed(buf)
               + (if flags.left then Repeat(' ', width - |buf|) else "")
  {
    hide Repeat, Reversed, Plain;
    HashBuffer(b, negative, base, width, flags);
  }

  lemma HashBuffer(b: seq<char>, negative: bool, base: nat, width: nat, flags: Flags)
    requires base in {2, 8, 16} && flags.hash && !flags.precision && !flags.zeropad && |b| <= BUFFER - 3
    ensures DigitWidth(width, negative, flags) == width
    ensures Finished(b, negative, base, 0, width, flags)
            == b + Backwards(PrefixText(base, flags)) + SignText(negative, flags)
  {
    assert b + "" == b;
    assert Padded(b, width, 0, flags) == b;
    assert TakenBack(b, |b|, base, 0, width, flags) == b;
    hide Padded, TakenBack;
    assert forall x: seq<char> :: x + "" == x;
  }

  /** Zero has no prefix, unless it has no digit of its own either. */
  lemma ZeroHash(negative: bool, base: nat, precision: nat, width: nat, flags: Flags)
    requires IsBase(base) && !flags.precision
    ensures IntText(0, negative, base, precision, width, flags)
            == IntText(0, negative, base, precision, width, flags.(hash := false))
  {
  }

  /** Zeros in front of octal digits do for the prefix. */
  lemma OctalFilled(value: nat, negative: bool, precision: nat, width: nat, flags: Flags)
    requires value > 0 && !flags.pointer
    requires var d := DigitText(value, 8, flags);
             |d| < BUFFER && ZerosBefore(|d|, negative, precision, width, flags) > 0
    ensures IntText(value, negative, 8, precision, width, flags)
            == IntText(value, negative, 8, precision, width, flags.(hash := false))
  {
    hide Digits, Reversed, Repeat, Prefixed, TakenBack, DigitText, Push;
    PlainIs(value, 8, flags);
    MoreZeros(Plain(value, 8, flags), negative, precision, width, flags);
    hide Padded, DigitWidth, ZerosBefore, SignText;
  }

  lemma MoreZeros(b: seq<char>, negative: bool, precision: nat, width: nat, flags: Flags)
    requires |b| < BUFFER && ZerosBefore(|b|, negative, precision, width, flags) > 0
    ensures |Padded(b, DigitWidth(width, negative, flags), precision, flags)| > |b|
    ensures Padded(b, DigitWidth(width, negative, flags), precision, flags)
            == Padded(b, DigitWidth(width, negative, flags), precision, flags.(hash := false))
    ensures DigitWidth(width, negative, flags) == DigitWidth(width, negative, flags.(hash := false))
  {
  }

  /** With '#' and zeros to fill a field of hexadecimal or binary digits, the zeros stand behind the prefix. */
  lemma HashFilled(value: nat, negative: bool, base: nat, width: nat, flags: Flags)
    requires base in {2, 16} && flags.hash && !flags.precision && flags.zeropad && !flags.left && value > 0
    requires |DigitText(value, base, flags)| + 3 <= BUFFER && width < BUFFER
    ensures var d, sign := DigitText(value, base, flags), SignText(negative, flags);
            IntText(value, negative, base, 0, width, flags)
            == sign + PrefixText(base, flags) + Repeat('0', width - |sign| - 2 - |d|) + d
  {
    hide Plain, DigitText, Reversed, Digits, IntText, Finished, Repeat, PrefixText, SignText, Backwards;
    PlainIs(value, base, flags);
    var b := Plain(value, base, flags);
    var d, sign, prefix := DigitText(value, base, flags), SignText(negative, flags), PrefixText(base, flags);
    SomeDigit(value, base, flags);
    FilledField(value, b, negative, base, width, flags);
    var z := width - |sign| - 2 - |d|;
    var zeros := Repeat('0', z);
    ReversedConcat(b + zeros + Backwards(prefix), sign);
    ReversedConcat(b + zeros, Backwards(prefix));
    ReversedZeros(b, z);
    ReversedShort(prefix);
    ReversedShort(sign);
    assert sign + (prefix + (zeros + d)) == sign + prefix + zeros + d;
  }

  lemma FilledField(value: nat, b: seq<char>, negative: bool, base: nat, width: nat, flags: Flags)
    requires base in {2, 16} && flags.hash && !flags.precision && flags.zeropad && !flags.left && value > 0
    requires b == Plain(value, base, flags) && 0 < |b| <= BUFFER - 3 && width < BUFFER
    ensures |PrefixText(base, flags)| == 2 && |SignText(negative, flags)| <= 1
    ensures var sign := SignText(negative, flags);
            IntText(value, negative, base, 0, width, flags)
            == Reversed(b + Repeat('0', width - |sign| - 2 - |b|) + Backwards(PrefixText(base, flags)) + sign)
  {
    hide Reversed, Plain, Finished, Backwards, Repeat;
    FilledBuffer(b, negative, base, width, flags);
    var f := Finished(b, negative, base, 0, width, flags);
    assert Field(f, DigitWidth(width, negative, flags), flags) == Reversed(f);
  }

  lemma FilledBuffer(b: seq<char>, negative: bool, base: nat, width: nat, flags: Flags)
    requires base in {2, 16} && flags.hash && !flags.precision && flags.zeropad && !flags.left
    requires 0 < |b| <= BUFFER - 3 && width < BUFFER
    ensures var sign := SignText(negative, flags);
            Finished(b, negative, base, 0, width, flags)
            == b + Repeat('0', width - |sign| - 2 - |b|) + Backwards(PrefixText(base, flags)) + sign
  {
    var w := DigitWidth(width, negative, flags);
    var p := Padded(b, w, 0, flags);
    RepeatIs('0', w - |b|);
    assert p == b + Repeat('0', w - |b|);
    TakenBackIs(b, w, base, flags);
    var t := b + Repeat('0', w - 2 - |b|);
    PrefixedIs(t, base, flags);
    SignedIs(t + Backwards(PrefixText(base, flags)), negative, flags);
    hide Padded, TakenBack, Repeat, Prefixed, Signed, Backwards;
    assert t + Backwards(PrefixText(base, flags)) + SignText(negative, flags)
        == Finished(b, negative, base, 0, width, flags);
  }

  lemma SomeDigit(value: nat, base: nat, flags: Flags)
    requires IsBase(base) && value > 0
    ensures Plain(value, base, flags) != []
  {
  }

  lemma PrefixedIs(t: seq<char>, base: nat, flags: Flags)
    requires base in {2, 16} && |t| <= BUFFER - 2
    ensures Prefixed(t, base, flags) == t + Backwards(PrefixText(base, flags))
    ensures |Backwards(PrefixText(base, flags))| == 2
  {
  }

  lemma SignedIs(t: seq<char>, negative: bool, flags: Flags)
    requires |t| < BUFFER
    ensures Signed(t, negative, flags) == t + SignText(negative, flags)
  {
    assert t + "" == t;
  }

  lemma {:induction false} RepeatPrefix(c: char, n: nat, m: nat)
    requires m <= n
    ensures Repeat(c, n)[..m] == Repeat(c, m)
  {
    RepeatConcat(c, m, n - m);
  }

  lemma TakenBackIs(b: seq<char>, w: nat, base: nat, flags: Flags)
    requires base in {2, 16} && !flags.precision && |b| > 0
    ensures var p := b + Repeat('0', w - |b|);
            TakenBack(p, |b|, base, 0, w, flags) == b + Repeat('0', w - 2 - |b|)
  {
    var p := b + Repeat('0', w - |b|);
    assert b + "" == b;
    if w > |b| {
      var m: nat := if w - |b| >= 2 then w - |b| - 2 else 0;
      RepeatPrefix('0', w - |b|, m);
      assert p[..|b| + m] == b + Repeat('0', w - |b|)[..m];
    }
  }

  ghost function Backwards(s: seq<char>): seq<char> {
    if |s| == 2 then [s[1], s[0]] else s
  }

  lemma ReversedShort(s: seq<char>)
    requires |s| <= 2
    ensures Reversed(Backwards(s)) == s && (|s| <= 1 ==> Reversed(s) == s)
  {
    if |s| == 1 {
      assert s[1..] == [] && s == [s[0]];
    } else if |s| == 2 {
      assert [s[1], s[0]][1..] == [s[0]] && [s[0]][1..] == [] && s == [s[0], s[1]];
    }
  }

  /** Exactly when a number survives printing: its digits and its sign must fit the digit buffer. */
  predicate Readable(value: nat, negative: bool, base: nat, precision: nat, width: nat, flags: Flags)
    requires IsBase(base)
  {
    && Count(value, base) <= BUFFER
    && (value == 0 && flags.precision ==>
          precision > 0 || (flags.zeropad && !flags.left && DigitWidth(width, negative, flags) > 0))
    && (negative ==> && Count(value, base) < BUFFER && precision < BUFFER
                     && !(flags.zeropad && !flags.left && DigitWidth(width, negative, flags) >= BUFFER))
  }

  /** Printing and reading back gives the number exactly when it is readable. */
  lemma PrintsBack(value: nat, negative: bool, base: nat, precision: nat, width: nat, flags: Flags)
    requires IsBase(base) && !flags.hash && !flags.pointer
    ensures Read(IntText(value, negative, base, precision, width, flags), base) == Number(negative, value)
            <==> Readable(value, negative, base, precision, width, flags)
  {
    var b := Plain(value, base, flags);
    ReadsAs(value, negative, base, precision, width, flags);
    PlainValue(value, base, flags);
    PaddedValue(b, base, DigitWidth(width, negative, flags), precision, flags);
    hide Plain, Padded, Value, Read, IntText;
  }

  function Power(base: nat, n: nat): nat {
    if n == 0 then 1 else base * Power(base, n - 1)
  }

  lemma {:induction false} CountBound(value: nat, base: nat, n: nat)
    requires IsBase(base) && n > 0 && value < Power(base, n)
    ensures Count(value, base) <= n
    decreases n
  {
    Lowest(value, base);
    if value >= base {
      if n > 1 {
        QuotientBelow(value, base, Power(base, n - 1));
        CountBound(value / base, base, n - 1);
      }
    }
  }

  lemma {:induction false} PowerAdd(base: nat, a: nat, b: nat)
    ensures Power(base, a + b) == Power(base, a) * Power(base, b)
  {
    if a > 0 {
      PowerAdd(base, a - 1, b);
      assert a - 1 + b == a + b - 1;
      Regroup(base, Power(base, a - 1), Power(base, b));
    }
  }

  lemma Regroup(x: nat, y: nat, z: nat)
    ensures x * (y * z) == (x * y) * z
  {
  }

  /** 22 octal, 20 decimal or 16 hexadecimal digits hold any 64-bit value. */
  lemma EnoughDigits()
    ensures Power(8, 22) >= 0x1_0000_0000_0000_0000
    ensures Power(10, 20) >= 0x1_0000_0000_0000_0000
    ensures Power(16, 16) >= 0x1_0000_0000_0000_0000
  {
    PowerAdd(8, 11, 11);
    assert Power(8, 11) == 8589934592;
    PowerAdd(10, 10, 10);
    assert Power(10, 10) == 10000000000;
    PowerAdd(16, 8, 8);
    assert Power(16, 8) == 4294967296;
  }

  lemma QuotientBelow(value: nat, base: nat, bound: nat)
    requires IsBase(base) && value < base * bound
    ensures value / base < bound
  {
    if base == 2 { assert value < 2 * bound; } else if base == 8 { assert value < 8 * bound; }
    else if base == 10 { assert value < 10 * bound; } else { assert value < 16 * bound; }
  }

  /**
   * Any 64-bit magnitude survives in bases 8, 10 and 16 when neither '#' nor a precision nor a width above 32 is
   * given.
   */
  lemma SixtyFourBits(value: nat, negative: bool, base: nat, width: nat, flags: Flags)
    requires value < 0x1_0000_0000_0000_0000 && base in {8, 10, 16} && width <= BUFFER
    requires !flags.hash && !flags.pointer && !flags.precision
    ensures Read(IntText(value, negative, base, 0, width, flags), base) == Number(negative, value)
  {
    EnoughDigits();
    hide Power, IntText, Read;
    CountBound(value, base, if base == 8 then 22 else if base == 10 then 20 else 16);
    PrintsBack(value, negative, base, 0, width, flags);
  }

  /** In base 2 any 32-bit magnitude survives; longer ones lose their upper digits. */
  lemma ThirtyTwoDigits(value: nat, width: nat, flags: Flags)
    requires !flags.hash && !flags.pointer && !flags.precision
    ensures Read(IntText(value, false, 2, 0, width, flags), 2) == Number(false, value) <==> Count(value, 2) <= 32
  {
    PrintsBack(value, false, 2, 0, width, flags);
  }
}
