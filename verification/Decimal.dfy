/** Printing and parsing of decimal numbers: lwip_itoa of lwip-2.1.3/src/core/def.c, memmove and atoi of
    libc.c.  C strings end at the first NUL. */
module Decimal {
  const NUL: char := '\0'

  function DigitChar(d: nat): (c: char)
    requires d < 10
  {
    '0' + d as char
  }

  predicate IsDigit(c: char) {
    '0' <= c <= '9'
  }

  function DigitValue(c: char): nat
    requires IsDigit(c)
  {
    (c - '0') as nat
  }

  /** The decimal digits of a number; none for 0. */
  function Digits(n: nat): seq<char> {
    if n == 0 then [] else Digits(n / 10) + [DigitChar(n % 10)]
  }

  /** The usual decimal notation. */
  function Printed(number: int): seq<char> {
    if number == 0 then ['0'] else if number < 0 then ['-'] + Digits(-number) else Digits(number)
  }

  // ---------------------------------------------------------------- memmove

  /** memmove within one buffer, whichever way the regions overlap. */
  method Memmove(a: array<char>, dest: nat, src: nat, n: nat)
    requires dest + n <= a.Length && src + n <= a.Length
    modifies a
    ensures a[dest..dest + n] == old(a[src..src + n])
    ensures forall k :: 0 <= k < a.Length && !(dest <= k < dest + n) ==> a[k] == old(a[k])
  {
    if dest < src {
      for i := 0 to n
        invariant forall k :: dest <= k < dest + i ==> a[k] == old(a[k - dest + src])
        invariant forall k :: 0 <= k < a.Length && !(dest <= k < dest + i) ==> a[k] == old(a[k])
      {
        a[dest + i] := a[src + i];
      }
    } else {
      for i := n downto 0
        invariant forall k :: dest + i <= k < dest + n ==> a[k] == old(a[k - dest + src])
        invariant forall k :: 0 <= k < a.Length && !(dest + i <= k < dest + n) ==> a[k] == old(a[k])
      {
        a[dest + i] := a[src + i];
      }
    }
  }

  // ---------------------------------------------------------------- lwip_itoa

  /** The buffer holds the text as a C string. */
  predicate Holds(buf: seq<char>, text: seq<char>) {
    |text| < |buf| && buf[..|text|] == text && buf[|text|] == NUL
  }

  lemma HoldsParts(buf: seq<char>, sign: seq<char>, text: seq<char>)
    requires |sign| + |text| < |buf| && buf[..|sign|] == sign && buf[|sign|..|sign| + |text|] == text
    requires buf[|sign| + |text|] == NUL
    ensures Holds(buf, sign + text)
  {
    assert buf[..|sign| + |text|] == buf[..|sign|] + buf[|sign|..|sign| + |text|];
  }

  /** The digits of `n` written backwards from the end of the buffer, as far as there is room. */
  method DigitsBackwards(result: array<char>, res: nat, bufsize: nat, number: nat) returns (tmp: nat, n: nat)
    requires res < bufsize <= result.Length
    modifies result
    ensures res <= tmp < bufsize && result[bufsize - 1] == NUL
    ensures n != 0 ==> tmp == res
    ensures Digits(number) == Digits(n) + result[tmp..bufsize - 1]
    ensures forall k :: 0 <= k < result.Length && !(tmp <= k < bufsize) ==> result[k] == old(result[k])
  {
    tmp, n := bufsize - 1, number;
    result[tmp] := NUL;
    assert result[tmp..bufsize - 1] == [];
    while n != 0 && tmp > res
      invariant res <= tmp < bufsize && result[bufsize - 1] == NUL
      invariant Digits(number) == Digits(n) + result[tmp..bufsize - 1]
      invariant forall k :: 0 <= k < result.Length && !(tmp <= k < bufsize) ==> result[k] == old(result[k])
    {
      ghost var rest := result[tmp..bufsize - 1];
      var val := DigitChar(n % 10);
      tmp := tmp - 1;
      result[tmp] := val;
      assert result[tmp..bufsize - 1] == [val] + rest;
      DigitsStep(n, rest);
      n := n / 10;
    }
  }

  lemma DigitsStep(n: nat, rest: seq<char>)
    requires n != 0
    ensures Digits(n) + rest == Digits(n / 10) + ([DigitChar(n % 10)] + rest)
  {
    var d := DigitChar(n % 10);
    assert Digits(n / 10) + [d] + rest == Digits(n / 10) + ([d] + rest);
  }

  /** Move the digits and the terminator to where they belong. */
  method MoveDown(result: array<char>, res: nat, tmp: nat, bufsize: nat, ghost digits: seq<char>)
    requires res <= tmp < bufsize <= result.Length && digits == result[tmp..bufsize - 1] && result[bufsize - 1] == NUL
    modifies result
    ensures result[..res] == old(result[..res])
    ensures result[res..res + |digits|] == digits && result[res + |digits|] == NUL
    ensures forall k :: bufsize <= k < result.Length ==> result[k] == old(result[k])
  {
    assert result[tmp..tmp + (bufsize - tmp)] == digits + [NUL];
    Memmove(result, res, tmp, bufsize - tmp);
    assert result[res..res + (bufsize - tmp)][|digits|] == NUL;
    assert result[res..res + |digits|] == result[res..res + (bufsize - tmp)][..|digits|];
  }

  /** What the backwards loop leaves: no room, nothing to print, or all digits. */
  lemma LoopOutcome(number: nat, n: nat, tail: seq<char>, room: nat)
    requires Digits(number) == Digits(n) + tail && (n != 0 ==> |tail| == room)
    ensures n != 0 ==> |Digits(number)| > room
    ensures n == 0 ==> tail == Digits(number) && (tail == [] <==> number == 0) && (number != 0 ==> IsDigit(tail[0]))
    ensures number != 0 ==> Printed(number) == Digits(number)
  {
    DigitsNotEmpty(n);
    DigitsNotEmpty(number);
    DigitsHaveNoNul(number);
  }

  method ZeroAt(result: array<char>, res: nat)
    requires res + 2 <= result.Length
    modifies result
    ensures result[..res] == old(result[..res]) && result[res..res + 1] == ['0'] && result[res + 1] == NUL
    ensures forall k :: res + 2 <= k < result.Length ==> result[k] == old(result[k])
  {
    result[res] := '0';
    result[res + 1] := NUL;
  }

  /** The part of lwip_itoa behind the sign. */
  method ItoaFrom(result: array<char>, res: nat, bufsize: nat, n0: nat)
    requires 2 <= bufsize <= result.Length && res <= 1 && (n0 == 0 ==> res == 0)
    modifies result
    ensures forall k :: bufsize <= k < result.Length ==> result[k] == old(result[k])
    ensures var d := Printed(n0);
      if res + |d| < bufsize
      then result[..res] == old(result[..res]) && result[res..res + |d|] == d && result[res + |d|] == NUL
      else result[0] == NUL
  {
    var tmp, n := DigitsBackwards(result, res, bufsize, n0);
    LoopOutcome(n0, n, result[tmp..bufsize - 1], bufsize - 1 - res);
    if n != 0 {
      result[0] := NUL;
      return;
    }
    if result[tmp] == NUL {
      ZeroAt(result, res);
      return;
    }
    MoveDown(result, res, tmp, bufsize, result[tmp..bufsize - 1]);
  }

  /** lwip_itoa prints the number if it fits, with its sign and terminator, and the empty string if not. */
  method LwipItoa(result: array<char>, bufsize: nat, number: int)
    requires bufsize <= result.Length
    modifies result
    ensures |Printed(number)| < bufsize ==> Holds(result[..bufsize], Printed(number))
    ensures |Printed(number)| >= bufsize >= 1 ==> result[0] == NUL
    ensures forall k :: bufsize <= k < result.Length ==> result[k] == old(result[k])
  {
    PrintedNotEmpty(number);
    if bufsize < 2 {
      if bufsize == 1 {
        result[0] := NUL;
      }
      return;
    }
    var res, n := 0, number;
    if number < 0 {
      n := -number;
      result[0] := '-';
      res := 1;
    }
    ghost var sign := result[..res];
    ghost var text := Printed(n);
    SignAndDigits(number, n, sign, text);
    ItoaFrom(result, res, bufsize, n);
    if res + |text| < bufsize {
      HoldsParts(result[..bufsize], sign, text);
    }
  }

  lemma SignAndDigits(number: int, n: nat, sign: seq<char>, text: seq<char>)
    requires n == (if number < 0 then -number else number) && text == Printed(n)
    requires sign == if number < 0 then ['-'] else []
    ensures Printed(number) == sign + text
  {}

  lemma DigitsNotEmpty(n: nat)
    ensures n != 0 ==> |Digits(n)| >= 1
  {}

  lemma PrintedNotEmpty(number: int)
    ensures |Printed(number)| >= 1
  {}

  lemma {:induction false} DigitsHaveNoNul(n: nat)
    ensures forall k :: 0 <= k < |Digits(n)| ==> IsDigit(Digits(n)[k])
  {
    if n > 0 { DigitsHaveNoNul(n / 10); }
  }

  // ---------------------------------------------------------------- atoi

  /** The value of the leading digits, after `acc`. */
  function ParseDigits(s: seq<char>, acc: nat): nat {
    if s == [] || !IsDigit(s[0]) then acc else ParseDigits(s[1..], acc * 10 + DigitValue(s[0]))
  }

  function SkipSpaces(s: seq<char>): (r: seq<char>)
    ensures |r| <= |s| && (r != [] ==> r[0] != ' ')
  {
    if s != [] && s[0] == ' ' then SkipSpaces(s[1..]) else s
  }

  /** Spaces, an optional sign, digits; the rest is ignored. */
  function Parsed(s: seq<char>): int {
    var t := SkipSpaces(s);
    if t != [] && t[0] == '-' then 0 - ParseDigits(t[1..], 0)
    else if t != [] && t[0] == '+' then ParseDigits(t[1..], 0)
    else ParseDigits(t, 0)
  }

  /** atoi of libc.c on a string without its terminator. */
  method Atoi(s: seq<char>) returns (r: int)
    ensures r == Parsed(s)
  {
    var i := LeadingSpaces(s);
    var sign: int := 1;
    ghost var t := s[i..];
    if i < |s| && s[i] == '-' {
      sign := -1;
      i := i + 1;
      assert s[i..] == t[1..];
    } else if i < |s| && s[i] == '+' {
      i := i + 1;
      assert s[i..] == t[1..];
    }
    var n := LeadingDigits(s, i);
    r := n * sign;
  }

  /** The first loop of atoi. */
  method LeadingSpaces(s: seq<char>) returns (i: nat)
    ensures i <= |s| && s[i..] == SkipSpaces(s)
  {
    i := 0;
    while i < |s| && s[i] == ' '
      invariant i <= |s| && SkipSpaces(s) == SkipSpaces(s[i..])
    {
      assert s[i..][1..] == s[i + 1..];
      i := i + 1;
    }
  }

  /** The second loop of atoi: the digits from `i0` on. */
  method LeadingDigits(s: seq<char>, i0: nat) returns (result: nat)
    requires i0 <= |s|
    ensures result == ParseDigits(s[i0..], 0)
  {
    var i := i0;
    result := 0;
    while i < |s| && IsDigit(s[i])
      invariant i0 <= i <= |s| && ParseDigits(s[i..], result) == ParseDigits(s[i0..], 0)
    {
      assert s[i..][1..] == s[i + 1..];
      result := result * 10 + DigitValue(s[i]);
      i := i + 1;
    }
  }

  // ---------------------------------------------------------------- round trip

  lemma {:induction false} ParseAppend(s: seq<char>, c: char, acc: nat)
    requires IsDigit(c) && forall k :: 0 <= k < |s| ==> IsDigit(s[k])
    ensures ParseDigits(s + [c], acc) == ParseDigits(s, acc) * 10 + DigitValue(c)
    decreases |s|
  {
    if s != [] {
      assert (s + [c])[1..] == s[1..] + [c];
      ParseAppend(s[1..], c, acc * 10 + DigitValue(s[0]));
    } else {
      assert (s + [c])[1..] == [];
    }
  }

  lemma {:induction false} ParseOfDigits(n: nat)
    ensures ParseDigits(Digits(n), 0) == n
  {
    if n > 0 {
      ParseOfDigits(n / 10);
      DigitsHaveNoNul(n / 10);
      ParseAppend(Digits(n / 10), DigitChar(n % 10), 0);
    }
  }

  /** Parsing what was printed gives the number back. */
  lemma ParsedOfPrinted(number: int)
    ensures Parsed(Printed(number)) == number
  {
    var p := Printed(number);
    var n := if number < 0 then -number else number;
    ParseOfDigits(n);
    DigitsHaveNoNul(n);
    DigitsNotEmpty(n);
    if number == 0 {
      assert ParseDigits(p[1..], 0) == 0;
    } else if number < 0 {
      assert p[1..] == Digits(n);
    } else {
      assert IsDigit(p[0]);
    }
  }
}
