/** Decimal printing into a fixed buffer: `StringUtil::itoa`, forwards and then reversed, and
    `Ipv4Instance::sockaddrToString`, backwards from the end. */
module Printing {
  import opened Arithmetic
  import opened Bytes

  const WIDTH: nat := 0x1_0000_0000_0000_0000

  function Digit(d: nat): char
    requires d < 10
  {
    '0' + d as char
  }

  /** The digits without leading zeros; none for 0. */
  function Significant(n: nat): string {
    if n == 0 then "" else Significant(n / 10) + [Digit(n % 10)]
  }

  /** The decimal form. */
  function Decimal(n: nat): string {
    if n == 0 then "0" else Significant(n)
  }

  predicate IsDigit(c: char) {
    '0' <= c <= '9'
  }

  predicate IsDecimal(s: string) {
    s != "" && (forall i :: 0 <= i < |s| ==> IsDigit(s[i])) && (|s| > 1 ==> s[0] != '0')
  }

  function DigitValue(c: char): (d: nat)
    requires IsDigit(c)
    ensures d < 10 && Digit(d) == c
  {
    (c - '0') as nat
  }

  /** The number that a string of digits denotes. */
  function Value(s: string): nat
    requires forall i :: 0 <= i < |s| ==> IsDigit(s[i])
  {
    if s == "" then 0 else 10 * Value(s[..|s| - 1]) + DigitValue(s[|s| - 1])
  }

  lemma {:induction false} SignificantIsValue(n: nat)
    ensures forall i :: 0 <= i < |Significant(n)| ==> IsDigit(Significant(n)[i])
    ensures Value(Significant(n)) == n
    ensures n > 0 ==> Significant(n) != "" && Significant(n)[0] != '0'
  {
    if n > 0 {
      SignificantIsValue(n / 10);
      assert Significant(n)[..|Significant(n)| - 1] == Significant(n / 10);
    }
  }

  /** The decimal form is in normal form and denotes the number, so no two numbers share one. */
  lemma DecimalIsValue(n: nat)
    ensures IsDecimal(Decimal(n)) && Value(Decimal(n)) == n
  {
    SignificantIsValue(n);
    assert Value("0") == 10 * Value("") + 0 by {
      assert "0"[..0] == "";
    }
  }

  lemma TenTimes(v: nat, d: nat)
    requires d < 10
    ensures (10 * v + d) / 10 == v && (10 * v + d) % 10 == d
    ensures Decimal(10 * v + d) == (if v == 0 then "" else Decimal(v)) + [Digit(d)]
  {
    if v == 0 && d > 0 {
      assert Significant(d) == Significant(0) + [Digit(d)];
    }
  }

  /** And it is the only normal form that denotes the number. */
  lemma {:induction false} DecimalIsUnique(s: string)
    requires IsDecimal(s)
    ensures Decimal(Value(s)) == s
  {
    var init, d := s[..|s| - 1], DigitValue(s[|s| - 1]);
    assert s == init + [Digit(d)];
    assert Value(s) == 10 * Value(init) + d;
    TenTimes(Value(init), d);
    if init != "" {
      DecimalIsUnique(init);
    }
  }

  function Pow10(k: nat): nat {
    if k == 0 then 1 else 10 * Pow10(k - 1)
  }

  lemma PowTwenty()
    ensures WIDTH < Pow10(20)
  {
    assert Pow10(4) == 10_000;
    assert Pow10(8) == 10_000 * Pow10(4);
    assert Pow10(12) == 10_000 * Pow10(8);
    assert Pow10(16) == 10_000 * Pow10(12);
    assert Pow10(20) == 10_000 * Pow10(16);
  }

  lemma {:induction false} SignificantLength(n: nat, k: nat)
    requires n < Pow10(k)
    ensures |Significant(n)| <= k
  {
    if n > 0 {
      SignificantLength(n / 10, k - 1);
    }
  }

  lemma ReversedSnoc(s: string, c: char)
    ensures Reversed(s + [c]) == [c] + Reversed(s)
  {
  }

  /** Reverses the first n characters in place. */
  method ReversePrefix(out: array<char>, n: nat)
    requires 0 < n <= out.Length
    modifies out
    ensures out[..n] == Reversed(old(out[..n])) && out[n..] == old(out[n..])
  {
    ghost var was := out[..];
    var i: nat, j: nat := 0, n - 1;
    while i < j
      invariant i + j == n - 1 && i <= j + 1
      invariant forall k :: 0 <= k < i || j < k < n ==> out[k] == was[n - 1 - k]
      invariant forall k :: i <= k <= j || n <= k < out.Length ==> out[k] == was[k]
    {
      var c := out[i];
      out[i] := out[j];
      out[j] := c;
      i, j := i + 1, j - 1;
    }
    assert out[..n] == Reversed(was[..n]);
  }

  /** What has been written, read backwards, is the end of the decimal form; i is still to come. */
  predicate Printed(number: nat, i: nat, written: string) {
    if written == "" then i == number else Decimal(number) == Significant(i) + Reversed(written)
  }

  lemma PrintedMore(number: nat, i: nat, written: string)
    requires Printed(number, i, written) && (written == "" || i > 0)
    ensures Printed(number, i / 10, written + [Digit(i % 10)])
  {
    ReversedSnoc(written, Digit(i % 10));
    Associative(Significant(i / 10), [Digit(i % 10)], Reversed(written));
  }

  predicate Room(i: nat, current: nat) {
    current <= 20 && i < Pow10(20 - current)
  }

  lemma RoomForDigit(i: nat, current: nat)
    requires Room(i, current) && (current == 0 || i > 0)
    ensures current < 20 && Room(i / 10, current + 1)
  {
  }

  method WriteDigit(out: array<char>, current: nat, number: nat, i: nat)
    requires current < out.Length && Printed(number, i, out[..current]) && (current == 0 || i > 0)
    modifies out
    ensures Printed(number, i / 10, out[..current + 1])
    ensures out[current + 1..] == old(out[current + 1..])
  {
    PrintedMore(number, i, out[..current]);
    out[current] := Digit(i % 10);
    assert out[..current + 1] == old(out[..current]) + [Digit(i % 10)];
  }

  /** The first loop of `itoa`: the digits, last first. */
  method WriteDigits(out: array<char>, number: nat) returns (current: nat)
    requires out.Length >= 21 && number < WIDTH
    modifies out
    ensures 0 < current <= 20 && Reversed(out[..current]) == Decimal(number)
    ensures out[current..] == old(out[current..])
  {
    PowTwenty();
    var i := number;
    current := 0;
    while current == 0 || i > 0
      invariant current < out.Length && Room(i, current)
      invariant Printed(number, i, out[..current])
      invariant out[current..] == old(out[current..])
      decreases if current == 0 then 1 else 0, i
    {
      RoomForDigit(i, current);
      WriteDigit(out, current, number, i);
      i := i / 10;
      current := current + 1;
    }
    assert Significant(0) + Reversed(out[..current]) == Reversed(out[..current]);
  }

  /** Throws, which is `None`, exactly when the buffer is said to be smaller than 21. Otherwise the
      buffer starts with the decimal form of the number and a NUL, and nothing after that changes. */
  method Itoa(out: array<char>, bufferSize: nat, number: nat) returns (r: Option<nat>)
    requires bufferSize <= out.Length && number < WIDTH
    modifies out
    ensures r.None? <==> bufferSize < 21
    ensures r.None? ==> out[..] == old(out[..])
    ensures r.Some? ==> r.value < 21 && out[..r.value] == Decimal(number) && out[r.value] == 0 as char
    ensures r.Some? ==> out[r.value + 1..] == old(out[r.value + 1..])
  {
    if bufferSize < 21 {
      return None;
    }
    var current := WriteDigits(out, number);
    ReversePrefix(out, current);
    ghost var tail := out[current..];
    out[current] := 0 as char;
    assert out[current + 1..] == tail[1..];
    r := Some(current);
  }

  // ---------------------------------------------------------------- IPv4 addresses

  const ADDRESSES: nat := 0x1_0000_0000

  /** The last n octets of the address in dotted form, most significant first. */
  function Dotted(address: nat, n: nat): string
    requires n >= 1
  {
    if n == 1 then Decimal(address % 256) else Dotted(address / 256, n - 1) + "." + Decimal(address % 256)
  }

  predicate IsDecOctet(s: string) {
    IsDecimal(s) && Value(s) < 256
  }

  /** Splits at every dot. */
  function Split(s: string): (r: seq<string>)
    ensures r != []
  {
    if s == "" then [""]
    else
      var rest := Split(s[..|s| - 1]);
      if s[|s| - 1] == '.' then rest + [""]
      else rest[..|rest| - 1] + [rest[|rest| - 1] + [s[|s| - 1]]]
  }

  lemma SplitSnoc(s: string, c: char)
    requires c != '.'
    ensures Split(s + [c]) == Split(s)[..|Split(s)| - 1] + [Split(s)[|Split(s)| - 1] + [c]]
  {
    assert (s + [c])[..|s|] == s;
  }

  lemma {:induction false} SplitDigits(s: string, t: string, front: seq<string>, last: string)
    requires forall i :: 0 <= i < |t| ==> t[i] != '.'
    requires Split(s) == front + [last]
    ensures Split(s + t) == front + [last + t]
  {
    if t == "" {
      assert s + t == s && last + t == last;
    } else {
      var init, c := t[..|t| - 1], t[|t| - 1];
      SplitDigits(s, init, front, last);
      SplitSnoc(s + init, c);
      assert s + t == s + init + [c] && last + t == last + init + [c];
    }
  }

  lemma SplitJoin(init: string, last: string)
    requires IsDecimal(last)
    ensures Split(init + "." + last) == Split(init) + [last]
  {
    assert (init + ".")[..|init|] == init;
    SplitDigits(init + ".", last, Split(init), "");
    assert "" + last == last;
  }

  lemma SplitOne(last: string)
    requires IsDecimal(last)
    ensures Split(last) == [last]
  {
    assert [] + [""] == [""];
    SplitDigits("", last, [], "");
    assert "" + last == last && [] + [last] == [last];
  }

  predicate AllOctets(parts: seq<string>) {
    forall i :: 0 <= i < |parts| ==> IsDecOctet(parts[i])
  }

  /** The number whose base 256 digits the parts denote. */
  function Address(parts: seq<string>): nat
    requires AllOctets(parts)
  {
    if parts == [] then 0
    else
      var last := parts[|parts| - 1];
      assert IsDecOctet(last);
      256 * Address(parts[..|parts| - 1]) + Value(last)
  }

  predicate IsIPv4(s: string) {
    |Split(s)| == 4 && AllOctets(Split(s))
  }

  lemma OctetLength(octet: nat)
    requires octet < 256
    ensures |Decimal(octet)| <= 3
  {
    assert Pow10(3) == 1000;
    SignificantLength(octet, 3);
  }

  lemma AddressSnoc(parts: seq<string>, last: string)
    requires AllOctets(parts) && IsDecOctet(last)
    ensures AllOctets(parts + [last]) && Address(parts + [last]) == 256 * Address(parts) + Value(last)
  {
    assert (parts + [last])[..|parts|] == parts;
  }

  /** The octets of the address in decimal, most significant first. */
  function Octets(address: nat, n: nat): (parts: seq<string>)
    ensures |parts| == n
  {
    if n == 0 then [] else Octets(address / 256, n - 1) + [Decimal(address % 256)]
  }

  lemma {:induction false} SplitDotted(address: nat, n: nat)
    requires n >= 1
    ensures Split(Dotted(address, n)) == Octets(address, n)
  {
    DecimalIsValue(address % 256);
    if n == 1 {
      SplitOne(Decimal(address % 256));
    } else {
      SplitDotted(address / 256, n - 1);
      SplitJoin(Dotted(address / 256, n - 1), Decimal(address % 256));
    }
  }

  lemma {:induction false} OctetsDenote(address: nat, n: nat)
    requires address < Pow256(n)
    ensures AllOctets(Octets(address, n)) && Address(Octets(address, n)) == address
  {
    if n > 0 {
      OctetsDenote(address / 256, n - 1);
      DecimalIsValue(address % 256);
      AddressSnoc(Octets(address / 256, n - 1), Decimal(address % 256));
    }
  }

  lemma {:induction false} DottedLength(address: nat, n: nat)
    requires n >= 1
    ensures |Dotted(address, n)| <= 4 * n - 1
  {
    OctetLength(address % 256);
    if n > 1 {
      DottedLength(address / 256, n - 1);
    }
  }

  /** The text of an address is four octets in decimal without leading zeros, and parses back to the
      address; so no two addresses have the same text. */
  lemma DottedIsAddress(address: nat)
    requires address < ADDRESSES
    ensures IsIPv4(Dotted(address, 4)) && Address(Split(Dotted(address, 4))) == address
    ensures |Dotted(address, 4)| <= 15
  {
    assert Pow256(4) == 256 * Pow256(3);
    SplitDotted(address, 4);
    OctetsDenote(address, 4);
    DottedLength(address, 4);
  }

  lemma DottedIsInjective(a: nat, b: nat)
    requires a < ADDRESSES && b < ADDRESSES && Dotted(a, 4) == Dotted(b, 4)
    ensures a == b
  {
    DottedIsAddress(a);
    DottedIsAddress(b);
  }

  lemma OctetStep(octet: nat, rest: nat, written: string, more: string)
    requires rest > 0 && Decimal(octet) == Significant(rest) + written && more == [Digit(rest % 10)] + written
    ensures Decimal(octet) == Significant(rest / 10) + more
    ensures |written| < |Decimal(octet)|
  {
    Associative(Significant(rest / 10), [Digit(rest % 10)], written);
  }

  method WriteOctetDigit(str: array<char>, end: nat, start: nat, octet: nat, rest: nat) returns (begin: nat)
    requires octet < 256 && 3 <= start <= str.Length && end <= start && rest > 0
    requires Decimal(octet) == Significant(rest) + str[end..start]
    modifies str
    ensures begin <= start && Decimal(octet) == Significant(rest / 10) + str[begin..start]
    ensures str[start..] == old(str[start..])
  {
    ghost var written, more := str[end..start], [Digit(rest % 10)] + str[end..start];
    OctetLength(octet);
    OctetStep(octet, rest, written, more);
    begin := end - 1;
    str[begin] := Digit(rest % 10);
    assert str[begin..start] == more;
  }

  /** Writes one octet so that it ends before `start`, and returns where it begins. */
  method WriteOctet(str: array<char>, start: nat, octet: nat) returns (begin: nat)
    requires octet < 256 && 3 <= start <= str.Length
    modifies str
    ensures begin == start - |Decimal(octet)| && str[begin..start] == Decimal(octet)
    ensures begin >= start - 3
    ensures str[start..] == old(str[start..])
  {
    OctetLength(octet);
    begin := start;
    if octet == 0 {
      begin := begin - 1;
      str[begin] := '0';
    } else {
      var rest: nat := octet;
      while rest != 0
        invariant begin <= start
        invariant Decimal(octet) == Significant(rest) + str[begin..start]
        invariant str[start..] == old(str[start..])
      {
        begin := WriteOctetDigit(str, begin, start, octet, rest);
        rest := rest / 10;
      }
    }
  }

  /** The text of the n octets that remain to be written, followed by what has been written. */
  function DottedBefore(address: nat, n: nat, written: string): string {
    if n == 0 then written else Dotted(address, n) + written
  }

  lemma DottedStep(address: nat, n: nat, written: string)
    requires n >= 1
    ensures DottedBefore(address, n, written)
         == DottedBefore(address / 256, n - 1, (if n == 1 then "" else ".") + (Decimal(address % 256) + written))
  {
    var last := Decimal(address % 256);
    if n == 1 {
      assert "" + (last + written) == last + written;
    } else {
      assert Dotted(address, n) + written == Dotted(address / 256, n - 1) + ("." + (last + written));
    }
  }

  method WriteOctetAndDot(str: array<char>, start: nat, octet: nat, i: nat) returns (begin: nat)
    requires octet < 256 && 4 <= start <= str.Length
    modifies str
    ensures start - 4 <= begin <= start
    ensures str[begin..] == (if i == 1 then "" else ".") + (Decimal(octet) + old(str[start..]))
  {
    begin := WriteOctet(str, start, octet);
    assert str[begin..] == Decimal(octet) + old(str[start..]);
    if i != 1 {
      ghost var written := str[begin..];
      begin := begin - 1;
      str[begin] := '.';
      assert str[begin..] == "." + written;
    }
  }

  /** Never writes outside the 16 bytes, and returns the text of the address. */
  method SockaddrToString(address: nat) returns (r: string)
    requires address < ADDRESSES
    ensures r == Dotted(address, 4)
  {
    var str := new char[16];
    var start: nat, rest: nat, i: nat := 16, address, 4;
    assert Dotted(address, 4) + "" == Dotted(address, 4);
    while i != 0
      invariant i <= 4 && 4 * i <= start <= 16
      invariant DottedBefore(rest, i, str[start..]) == Dotted(address, 4)
    {
      DottedStep(rest, i, str[start..]);
      start := WriteOctetAndDot(str, start, rest % 256, i);
      rest, i := rest / 256, i - 1;
    }
    r := str[start..];
  }
}
