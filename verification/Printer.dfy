/** The output gadget and the integer path of rt_vsnprintf.c, character by character. */
module Printer {
  import opened PrintText

  /** PRINTF_MAX_POSSIBLE_BUFFER_SIZE */
  const INT_MAX: nat := 0x7fff_ffff

  /** Ordinary characters of a format, and its integer conversions with their argument. */
  datatype Piece =
    | Literal(c: char)
    | Integer(value: nat, negative: bool, base: nat, precision: nat, width: nat, flags: Flags)

  predicate Printable(p: Piece) {
    p.Integer? ==> 2 <= p.base <= 16
  }

  function PieceText(p: Piece): seq<char>
    requires Printable(p)
  {
    match p
    case Literal(c) => [c]
    case Integer(value, negative, base, precision, width, flags) => IntText(value, negative, base, precision, width,
                                                                            flags)
  }

  /** The output without any limit. */
  function FormatText(ps: seq<Piece>): seq<char>
    requires forall k {:trigger ps[k]} :: 0 <= k < |ps| ==> Printable(ps[k])
  {
    if ps == [] then [] else FormatText(ps[..|ps| - 1]) + PieceText(ps[|ps| - 1])
  }

  class Gadget {
    const buffer: array<char>
    const maxChars: nat
    var pos: nat
    ghost var text: seq<char>           // everything that was put so far

    /** As much of the text as fits is in the buffer, and every character was counted. */
    ghost predicate Valid()
      reads this, buffer
    {
      && maxChars <= buffer.Length && pos == |text|
      && forall k {:trigger buffer[k]} :: 0 <= k < pos && k < maxChars ==> buffer[k] == text[k]
    }

    /** buffer_gadget */
    constructor (buffer: array<char>, size: nat)
      requires size <= buffer.Length
      ensures Valid() && this.buffer == buffer && text == [] && maxChars == if size > INT_MAX then INT_MAX else size
    {
      this.buffer := buffer;
      maxChars := if size > INT_MAX then INT_MAX else size;
      pos := 0;
      text := [];
    }

    /** putchar_via_gadget */
    method PutChar(c: char)
      requires Valid()
      modifies this, buffer
      ensures Valid() && text == old(text) + [c]
      ensures forall k {:trigger buffer[k]} :: maxChars <= k < buffer.Length ==> buffer[k] == old(buffer[k])
    {
      var writePos := pos;
      pos := pos + 1;
      text := text + [c];
      if writePos >= maxChars {
        return;
      }
      buffer[writePos] := c;
    }

    /** append_termination_with_gadget */
    method Terminate()
      requires Valid()
      modifies buffer
      ensures maxChars > 0 ==>
                var kept := if |text| < maxChars then |text| else maxChars - 1;
                buffer[..kept] == text[..kept] && buffer[kept] == '\0'
      ensures forall k {:trigger buffer[k]} :: maxChars <= k < buffer.Length ==> buffer[k] == old(buffer[k])
    {
      if maxChars == 0 {
        return;
      }
      var nullPos := if pos < maxChars then pos else maxChars - 1;
      buffer[nullPos] := '\0';
    }

    /** A run of one character. */
    method PutRepeated(c: char, n: int)
      requires Valid()
      modifies this, buffer
      ensures Valid() && text == old(text) + Repeat(c, n)
      ensures forall k {:trigger buffer[k]} :: maxChars <= k < buffer.Length ==> buffer[k] == old(buffer[k])
    {
      ghost var before := text;
      var i := 0;
      assert text == before + Repeat(c, 0);
      while i < n
        invariant Valid() && i <= (if n > 0 then n else 0) && text == before + Repeat(c, i)
        invariant forall k {:trigger buffer[k]} :: maxChars <= k < buffer.Length ==> buffer[k] == old(buffer[k])
      {
        RepeatNext(c, i);
        PutChar(c);
        i := i + 1;
      }
      assert Repeat(c, i) == Repeat(c, n);
    }

    /** out_rev_ */
    method OutReversed(buf: array<char>, len: nat, width: nat, flags: Flags)
      requires Valid() && len <= buf.Length && buf != buffer
      modifies this, buffer
      ensures Valid() && text == old(text) + Field(buf[..len], width, flags)
      ensures forall k {:trigger buffer[k]} :: maxChars <= k < buffer.Length ==> buffer[k] == old(buffer[k])
    {
      hide Repeat;
      ghost var before, s := text, buf[..len];
      var startPos := pos;
      if !flags.left && !flags.zeropad {
        PutRepeated(' ', width - len);
      }
      ghost var spaces := if !flags.left && !flags.zeropad then Repeat(' ', width - len) else [];
      PutReversed(buf, len);
      if flags.left {
        PutRepeated(' ', width - (pos - startPos));
      }
      assert text == before + (spaces + Reversed(s) + if flags.left then Repeat(' ', width - len) else []);
    }

    /** The loop of out_rev_ over the digit buffer. */
    method PutReversed(buf: array<char>, len: nat)
      requires Valid() && len <= buf.Length && buf != buffer
      modifies this, buffer
      ensures Valid() && text == old(text) + Reversed(buf[..len]) && pos == old(pos) + len
      ensures forall k {:trigger buffer[k]} :: maxChars <= k < buffer.Length ==> buffer[k] == old(buffer[k])
    {
      ghost var before, s := text, buf[..len];
      var i := len;
      assert s[i..] == [] && before + Reversed(s[i..]) == text;
      while i > 0
        invariant 0 <= i <= len && Valid() && buf[..len] == s && pos == |before| + len - i
        invariant text == before + Reversed(s[i..])
        invariant forall k {:trigger buffer[k]} :: maxChars <= k < buffer.Length ==> buffer[k] == old(buffer[k])
      {
        i := i - 1;
        assert s[i..][1..] == s[i + 1..] && s[i..][0] == s[i] == buf[i];
        PutChar(buf[i]);
      }
      assert s[0..] == s;
    }

    /** print_integer with print_integer_finalization */
    method PrintInteger(value: nat, negative: bool, base: nat, precision: nat, width: nat, flags: Flags)
      requires Valid() && 2 <= base <= 16
      modifies this, buffer
      ensures Valid() && text == old(text) + IntText(value, negative, base, precision, width, flags)
      ensures forall k {:trigger buffer[k]} :: maxChars <= k < buffer.Length ==> buffer[k] == old(buffer[k])
    {
      var buf := new char[BUFFER];
      var fl := PlainFlags(value, base, flags);
      var len := WriteDigits(buf, value, base, flags);
      ghost var plain := buf[..len];
      var w := DigitWidth(width, negative, fl);
      len := Finish(buf, len, negative, base, precision, width, fl);
      assert buf[..len] == Finished(plain, negative, base, precision, width, fl);
      hide Finished, Field, Plain;
      OutReversed(buf, len, w, fl);
    }
  }

  lemma {:induction false} RepeatNext(c: char, n: nat)
    ensures Repeat(c, n + 1) == Repeat(c, n) + [c]
  {
    if n > 0 {
      RepeatNext(c, n - 1);
    }
  }

  /** The digit loop of print_integer. */
  method WriteDigits(buf: array<char>, value: nat, base: nat, flags: Flags) returns (len: nat)
    requires buf.Length == BUFFER && 2 <= base <= 16
    modifies buf
    ensures len <= BUFFER && buf[..len] == Plain(value, base, flags)
  {
    hide Digits, DigitChar, LowDigit, WithoutLowDigit, Rest;
    len := 0;
    if value == 0 {
      if !flags.precision {
        buf[0] := '0';
        len := 1;
      }
      return;
    }
    var v := value;
    ghost var all := Digits(v, base, flags.uppercase, BUFFER);
    RestStarts(v, base, flags.uppercase);
    assert buf[..0] == [];
    while v > 0 && len < BUFFER
      invariant len <= BUFFER && all == buf[..len] + Rest(v, base, flags.uppercase, BUFFER - len)
      decreases BUFFER - len
    {
      RestNext(v, base, flags.uppercase, BUFFER - len);
      ghost var written := buf[..len];
      var digit := DigitChar(LowDigit(v, base), flags.uppercase);
      buf[len] := digit;
      assert buf[..len + 1] == written + [digit];
      len := len + 1;
      v := WithoutLowDigit(v, base);
    }
    RestEmpty(v, base, flags.uppercase, BUFFER - len);
    assert buf[..len] == all;
  }

  /** value % base and value / base */
  function LowDigit(v: nat, base: nat): (d: nat)
    requires 2 <= base <= 16
    ensures d < 16
  {
    v % base
  }

  function WithoutLowDigit(v: nat, base: nat): nat
    requires 2 <= base <= 16
  {
    v / base
  }

  /** The digits still to be written. */
  function Rest(v: nat, base: nat, upper: bool, room: nat): seq<char>
    requires 2 <= base <= 16
  {
    if v == 0 then [] else Digits(v, base, upper, room)
  }

  lemma RestStarts(v: nat, base: nat, upper: bool)
    requires 2 <= base <= 16 && v > 0
    ensures Rest(v, base, upper, BUFFER) == Digits(v, base, upper, BUFFER)
  {
  }

  lemma RestNext(v: nat, base: nat, upper: bool, room: nat)
    requires 2 <= base <= 16 && v > 0 && room > 0
    ensures Rest(v, base, upper, room)
              == [DigitChar(LowDigit(v, base), upper)] + Rest(WithoutLowDigit(v, base), base, upper, room - 1)
  {
  }

  lemma RestEmpty(v: nat, base: nat, upper: bool, room: nat)
    requires 2 <= base <= 16 && (v == 0 || room == 0)
    ensures Rest(v, base, upper, room) == []
  {
  }

  /** Zeros are appended up to n characters. */
  method PadZeros(buf: array<char>, len0: nat, n: nat) returns (len: nat)
    requires buf.Length == BUFFER && len0 <= BUFFER
    modifies buf
    ensures len0 <= len <= BUFFER && buf[..len] == old(buf[..len0]) + Repeat('0', Min(n, BUFFER) - len0)
  {
    len := len0;
    ghost var s := buf[..len0];
    while len < n && len < BUFFER
      invariant len0 <= len <= BUFFER && (len > len0 ==> len <= n)
      invariant buf[..len] == s + Repeat('0', len - len0)
    {
      RepeatNext('0', len - len0);
      ghost var t := buf[..len];
      buf[len] := '0';
      assert buf[..len + 1] == t + ['0'];
      len := len + 1;
    }
    assert Repeat('0', len - len0) == Repeat('0', Min(n, BUFFER) - len0);
  }

  /** One more character, when there is room for it. */
  method PushChar(buf: array<char>, len0: nat, c: char) returns (len: nat)
    requires buf.Length == BUFFER && len0 <= BUFFER
    modifies buf
    ensures len0 <= len <= BUFFER && buf[..len] == Push(old(buf[..len0]), c)
  {
    len := len0;
    if len < BUFFER {
      buf[len] := c;
      len := len + 1;
      assert buf[..len] == buf[..len0] + [c];
    }
  }

  /** print_integer_finalization up to the call of out_rev_. */
  method Finish(buf: array<char>, len0: nat, negative: bool, base: nat, precision: nat, width: nat,
                flags: Flags) returns (len: nat)
    requires buf.Length == BUFFER && len0 <= BUFFER
    modifies buf
    ensures len <= BUFFER && buf[..len] == Finished(old(buf[..len0]), negative, base, precision, width, flags)
  {
    ghost var plain := buf[..len0];
    var w := DigitWidth(width, negative, flags);
    len := len0;
    if !flags.left && flags.zeropad {
      len := PadZeros(buf, len, w);
    }
    len := PadZeros(buf, len, precision);
    assert buf[..len] == Padded(plain, w, precision, flags);
    var hash := flags.hash && !(base == 8 && len > len0);
    if hash || flags.pointer {
      len := Alternative(buf, len, len0, base, precision, w, flags);
    }
    if negative {
      len := PushChar(buf, len, '-');
    } else if flags.plus {
      len := PushChar(buf, len, '+');
    } else if flags.space {
      len := PushChar(buf, len, ' ');
    }
  }

  /** The prefix of the alternative form, for which padding may be taken back. */
  method Alternative(buf: array<char>, len0: nat, unpadded: nat, base: nat, precision: nat, width: nat,
                     flags: Flags) returns (len: nat)
    requires buf.Length == BUFFER && unpadded <= len0 <= BUFFER
    modifies buf
    ensures len <= BUFFER
    ensures buf[..len] == Prefixed(TakenBack(old(buf[..len0]), unpadded, base, precision, width, flags), base, flags)
  {
    len := len0;
    if !flags.precision && len > 0 && (len == precision || len == width) {
      if unpadded < len {
        len := len - 1;
      }
      if len > 0 && (base == 16 || base == 2) && unpadded < len {
        len := len - 1;
      }
    }
    assert buf[..len] == TakenBack(buf[..len0], unpadded, base, precision, width, flags);
    if base == 16 && !flags.uppercase {
      len := PushChar(buf, len, 'x');
    } else if base == 16 && flags.uppercase {
      len := PushChar(buf, len, 'X');
    } else if base == 2 {
      len := PushChar(buf, len, 'b');
    }
    len := PushChar(buf, len, '0');
  }

  /** vsnprintf_impl: the length of the whole output is returned, whatever the size of the buffer. */
  method Format(buffer: array<char>, size: nat, ps: seq<Piece>) returns (length: nat)
    requires size <= buffer.Length && forall k {:trigger ps[k]} :: 0 <= k < |ps| ==> Printable(ps[k])
    modifies buffer
    ensures length == |FormatText(ps)|
    ensures size > 0 ==>
              var usable := if size > INT_MAX then INT_MAX else size;
              var kept := if length < usable then length else usable - 1;
              buffer[..kept] == FormatText(ps)[..kept] && buffer[kept] == '\0'
    ensures forall k {:trigger buffer[k]} :: size <= k < buffer.Length ==> buffer[k] == old(buffer[k])
  {
    hide IntText;
    var gadget := new Gadget(buffer, size);
    for i := 0 to |ps|
      invariant gadget.Valid() && gadget.buffer == buffer && fresh(gadget)
      invariant gadget.text == FormatText(ps[..i])
      invariant forall k {:trigger buffer[k]} :: gadget.maxChars <= k < buffer.Length ==> buffer[k] == old(buffer[k])
    {
      assert ps[..i + 1][..i] == ps[..i];
      match ps[i] {
        case Literal(c) => gadget.PutChar(c);
        case Integer(value, negative, base, precision, width, flags) =>
          gadget.PrintInteger(value, negative, base, precision, width, flags);
      }
    }
    assert ps[..|ps|] == ps;
    gadget.Terminate();
    length := gadget.pos;
  }
}
