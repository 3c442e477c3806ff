/** Integers of any width in the buffer, in a chosen byte order and possibly in fewer bytes than the
    type has: `writeInt`, `peekInt` and `drainInt`. */
module Integers {
  import opened Arithmetic
  import opened Bytes
  import opened OwnedImplModule
  import opened BufferCopy

  /** The order asked for; `Host` is whatever order the machine has. */
  datatype Order = LittleEndian | BigEndian | Host

  /** An integer type of `width` bytes on a machine that is big-endian or not, and how many of its
      bytes go into the buffer. */
  datatype Format = Format(order: Order, hostIsBig: bool, width: nat, size: nat, signed: bool) {
    predicate Valid() {
      1 <= size <= width
    }

    /** Whether the converted integer lies in memory with its most significant byte first. */
    predicate BigInMemory() {
      order == BigEndian || (order == Host && hostIsBig)
    }

    /** Where in the type's memory the bytes that are written or read begin. */
    function Displacement(): nat
      requires Valid()
    {
      if order == BigEndian then width - size else 0
    }

    function MostSignificantReadByte(): nat
      requires Valid()
    {
      if order == BigEndian then Displacement() else size - 1
    }
  }

  // ---------------------------------------------------------------- memory

  /** The n low bytes of a number, least significant first. */
  function Little(bits: nat, n: nat): (s: seq<byte>)
    ensures |s| == n
  {
    if n == 0 then [] else [(bits % 256) as byte] + Little(bits / 256, n - 1)
  }

  /** What an integer looks like in memory, and which integer memory holds. */
  function Memory(bits: nat, width: nat, big: bool): (s: seq<byte>)
    ensures |s| == width
  {
    if big then Reversed(Little(bits, width)) else Little(bits, width)
  }

  function LittleValue(s: seq<byte>): nat {
    if s == [] then 0 else s[0] as nat + 256 * LittleValue(s[1..])
  }

  function MemoryValue(s: seq<byte>, big: bool): nat {
    LittleValue(if big then Reversed(s) else s)
  }

  /** Two's complement in n bytes. */
  function ToBits(value: int, n: nat): nat {
    value % Pow256(n)
  }

  function FromBits(bits: nat, n: nat, signed: bool): int {
    if signed && 2 * bits >= Pow256(n) then bits - Pow256(n) else bits
  }

  predicate Representable(value: int, n: nat, signed: bool) {
    if signed then 0 <= 2 * value + Pow256(n) < 2 * Pow256(n) else 0 <= value < Pow256(n)
  }

  // ---------------------------------------------------------------- encoding and decoding

  /** The bytes that `writeInt` adds: part of the memory of the converted integer. */
  function Encode(f: Format, value: int): (s: seq<byte>)
    requires f.Valid()
    ensures |s| == f.size
  {
    Memory(ToBits(value, f.width), f.width, f.BigInMemory())[f.Displacement()..f.Displacement() + f.size]
  }

  /** The memory of the result once the bytes read have been copied into it. */
  function ReadMemory(f: Format, bytes: seq<byte>): (s: seq<byte>)
    requires f.Valid() && |bytes| <= f.size
    ensures |s| == f.width
  {
    Overwrite(seq(f.width, (i: nat) => 0 as byte), f.Displacement(), bytes)
  }

  /** What `peekInt` makes of that memory: the converted integer, or-ed with ones from bit 8 * size
      upwards if the type is signed, wider than what was read, and the sign bit that was read is 1. */
  function Decode(f: Format, bytes: seq<byte>): int
    requires f.Valid() && |bytes| <= f.size
  {
    var memory := ReadMemory(f, bytes);
    var bits := MemoryValue(memory, f.BigInMemory());
    var extended: nat :=
      if f.signed && f.size < f.width && memory[f.MostSignificantReadByte()] >= 128
      then Pow256Monotone(f.size, f.width); bits % Pow256(f.size) + (Pow256(f.width) - Pow256(f.size))
      else bits;
    FromBits(extended, f.width, f.signed)
  }

  // ---------------------------------------------------------------- arithmetic of bytes

  lemma {:induction false} LittleRoundTrip(bits: nat, n: nat)
    ensures LittleValue(Little(bits, n)) == bits % Pow256(n)
  {
    if n > 0 {
      LittleRoundTrip(bits / 256, n - 1);
      ModSplit(bits, Pow256(n - 1));
    }
  }

  lemma {:induction false} LittleTake(bits: nat, n: nat, k: nat)
    requires k <= n
    ensures Little(bits, n)[..k] == Little(bits, k)
  {
    if k > 0 {
      LittleTake(bits / 256, n - 1, k - 1);
      assert Little(bits, n)[..k] == [(bits % 256) as byte] + Little(bits / 256, n - 1)[..k - 1];
    }
  }

  lemma {:induction false} ZerosValue(n: nat)
    ensures LittleValue(seq(n, (i: nat) => 0 as byte)) == 0
  {
    if n > 0 {
      var zeros: seq<byte> := seq(n, (i: nat) => 0 as byte);
      assert zeros[1..] == seq(n - 1, (i: nat) => 0 as byte);
      ZerosValue(n - 1);
    }
  }

  lemma {:induction false} LittlePadded(s: seq<byte>, n: nat)
    ensures LittleValue(s + seq(n, (i: nat) => 0 as byte)) == LittleValue(s)
  {
    var zeros: seq<byte> := seq(n, (i: nat) => 0 as byte);
    if s != [] {
      assert (s + zeros)[1..] == s[1..] + zeros;
      LittlePadded(s[1..], n);
    } else {
      assert s + zeros == zeros;
      ZerosValue(n);
    }
  }

  /** The highest byte tells whether the number is in the upper half. */
  lemma {:induction false} TopByte(s: seq<byte>)
    requires s != []
    ensures LittleValue(s) < Pow256(|s|)
    ensures s[|s| - 1] >= 128 <==> 2 * LittleValue(s) >= Pow256(|s|)
  {
    if |s| > 1 {
      TopByte(s[1..]);
    } else {
      assert LittleValue(s[1..]) == 0;
      assert Pow256(1) == 256;
    }
  }

  lemma {:induction false} PowQuotient(m: nat, n: nat) returns (k: nat)
    requires m <= n
    ensures Pow256(n) == Pow256(m) * k
  {
    if m == n {
      k := 1;
    } else {
      k := PowQuotient(m, n - 1);
      k := 256 * k;
    }
  }

  lemma ModShift(x: int, d: nat, k: int)
    requires d > 0
    ensures (d * k + x) % d == x % d
  {
    var y := d * k + x;
    var p, q := y / d, x / d;
    assert d * (p - k - q) == x % d - y % d by {
      assert y == d * p + y % d;
      assert x == d * q + x % d;
    }
    var t := p - k - q;
    if t > 0 {
      MulAtLeast(d, t);
    } else if t < 0 {
      MulAtLeast(d, -t);
    }
  }

  lemma {:induction false} ModOfMod(x: int, m: nat, n: nat)
    requires m <= n
    ensures x % Pow256(n) % Pow256(m) == x % Pow256(m)
  {
    var k := PowQuotient(m, n);
    var p, q := x / Pow256(n), x % Pow256(n);
    assert x == Pow256(n) * p + q;
    assert Pow256(n) * p == Pow256(m) * (k * p);
    ModShift(q, Pow256(m), k * p);
  }

  // ---------------------------------------------------------------- round trip

  /** The value cut to `size` bytes: modulo 2^(8 size), signed if the type is. */
  function Cut(f: Format, value: int): int {
    FromBits(value % Pow256(f.size), f.size, f.signed)
  }

  lemma CutIsIdentity(f: Format, value: int)
    requires f.Valid() && Representable(value, f.size, f.signed)
    ensures Cut(f, value) == value
  {
    var p := Pow256(f.size);
    if value >= 0 {
      DivisionIsUnique(value, p, 0, value);
    } else {
      DivisionIsUnique(value + p, p, 0, value + p);
      ModShift(value, p, 1);
    }
  }

  /** The case in which fewer bytes are asked for in host order on a big-endian machine. */
  predicate Misplaced(f: Format) {
    f.order == Host && f.hostIsBig && f.size < f.width
  }

  /** Undoing the reversal, what is in memory when reading back is the low bytes, then zeros. */
  lemma ReadBack(f: Format, value: int)
    requires f.Valid() && !Misplaced(f)
    ensures var low := Little(ToBits(value, f.width), f.size);
            var memory := ReadMemory(f, Encode(f, value));
            (if f.BigInMemory() then Reversed(memory) else memory)
              == low + seq(f.width - f.size, (i: nat) => 0 as byte) &&
            (f.size < f.width ==> memory[f.MostSignificantReadByte()] == low[f.size - 1])
  {
    LittleTake(ToBits(value, f.width), f.width, f.size);
    var all := Little(ToBits(value, f.width), f.width);
    var low := Little(ToBits(value, f.width), f.size);
    assert low == all[..f.size];
    var zeros: seq<byte> := seq(f.width - f.size, (i: nat) => 0 as byte);
    var memory := ReadMemory(f, Encode(f, value));
    if f.BigInMemory() {
      assert f.Displacement() == f.width - f.size;
      assert Encode(f, value) == Reversed(low);
      assert memory == zeros + Reversed(low);
      assert Reversed(memory) == low + zeros;
    } else {
      assert Encode(f, value) == low;
      assert memory == low + zeros;
    }
  }

  /** Sign extension in the wide type is the sign of the narrow one. */
  lemma ExtensionKeepsSign(m: nat, size: nat, width: nat)
    requires m < Pow256(size) && size < width
    ensures Pow256(size) < Pow256(width)
    ensures 2 * m >= Pow256(size) ==>
              FromBits(m % Pow256(size) + (Pow256(width) - Pow256(size)), width, true) == FromBits(m, size, true)
    ensures 2 * m < Pow256(size) ==> FromBits(m, width, true) == FromBits(m, size, true)
  {
    Pow256Monotone(size, width);
    DivisionIsUnique(m, Pow256(size), 0, m);
  }

  /** What is written comes back cut to the bytes that were written. */
  lemma RoundTrip(f: Format, value: int)
    requires f.Valid() && !Misplaced(f)
    ensures Decode(f, Encode(f, value)) == Cut(f, value)
  {
    var bits := ToBits(value, f.width);
    var low := Little(bits, f.size);
    var m := value % Pow256(f.size);
    ReadBack(f, value);
    LittlePadded(low, f.width - f.size);
    LittleRoundTrip(bits, f.size);
    ModOfMod(value, f.size, f.width);
    TopByte(low);
    assert LittleValue(low) == m;
    assert MemoryValue(ReadMemory(f, Encode(f, value)), f.BigInMemory()) == m;
    if f.size < f.width {
      ExtensionKeepsSign(m, f.size, f.width);
    }
  }

  lemma {:induction false} LittleOfZero(n: nat)
    ensures Little(0, n) == seq(n, (i: nat) => 0 as byte)
  {
    if n > 0 {
      LittleOfZero(n - 1);
    }
  }

  lemma LittleOfOne(n: nat)
    requires n > 0
    ensures Little(1, n) == [1] + seq(n - 1, (i: nat) => 0 as byte)
  {
    LittleOfZero(n - 1);
  }

  /** In the remaining case the high bytes are written, so 1 comes back as 0. */
  lemma MisplacedLosesOne(f: Format)
    requires f.Valid() && Misplaced(f)
    ensures Encode(f, 1) == seq(f.size, (i: nat) => 0 as byte)
    ensures Decode(f, Encode(f, 1)) == 0
  {
    Pow256Monotone(0, f.width);
    DivisionIsUnique(1, Pow256(f.width), 0, 1);
    LittleOfOne(f.width);
    assert Encode(f, 1) == seq(f.size, (i: nat) => 0 as byte);
    var memory := ReadMemory(f, Encode(f, 1));
    assert memory == Reversed(memory) == seq(f.width, (i: nat) => 0 as byte);
    ZerosValue(f.width);
  }

  /** Every value that fits in the bytes written survives the round trip, for every width, size and
      byte order, if and only if it is not a part of the bytes in host order on a big-endian machine. */
  lemma RoundTripExactly(f: Format)
    requires f.Valid()
    ensures (forall value :: Representable(value, f.size, f.signed) ==> Decode(f, Encode(f, value)) == value)
       <==> !Misplaced(f)
  {
    if Misplaced(f) {
      MisplacedLosesOne(f);
      Pow256Monotone(0, f.size);
      assert Representable(1, f.size, f.signed);
    } else {
      forall value | Representable(value, f.size, f.signed) ensures Decode(f, Encode(f, value)) == value {
        RoundTrip(f, value);
        CutIsIdentity(f, value);
      }
    }
  }

  // ---------------------------------------------------------------- over the buffer

  method WriteInt(buffer: OwnedImpl, f: Format, value: int)
    requires buffer.Valid() && f.Valid()
    modifies buffer.Repr(), buffer.log
    ensures buffer.Valid() && fresh(buffer.Repr() - old(buffer.Repr())) && buffer.Conserves()
    ensures buffer.Content() == old(buffer.Content()) + Encode(f, value)
  {
    var data := Memory(ToBits(value, f.width), f.width, f.BigInMemory());
    var displacement := f.Displacement();
    buffer.AddImpl(data[displacement..displacement + f.size]);
  }

  /** The source has its underflow check commented out; a short buffer leaves zeros unwritten. */
  method PeekInt(buffer: OwnedImpl, f: Format, start: nat) returns (value: int)
    requires buffer.Valid() && f.Valid()
    ensures value == Decode(f, Window(buffer.Content(), start, f.size))
  {
    var result := new byte[f.width](_ => 0);
    ghost var zeros := result[..];
    assert zeros == seq(f.width, (i: nat) => 0 as byte);
    buffer.CopyOut(start, f.size, result, f.Displacement());
    var memory := result[..];
    assert memory == ReadMemory(f, Window(buffer.Content(), start, f.size));
    var bits := MemoryValue(memory, f.BigInMemory());
    if f.signed && f.size < f.width && memory[f.MostSignificantReadByte()] >= 128 {
      Pow256Monotone(f.size, f.width);
      bits := bits % Pow256(f.size) + (Pow256(f.width) - Pow256(f.size));
    }
    value := FromBits(bits, f.width, f.signed);
  }

  method DrainInt(buffer: OwnedImpl, f: Format) returns (value: int)
    requires buffer.Valid() && f.Valid()
    modifies buffer.Repr(), buffer.log
    ensures buffer.Valid() && fresh(buffer.Repr() - old(buffer.Repr())) && buffer.Conserves()
    ensures value == Decode(f, old(Window(buffer.Content(), 0, f.size)))
    ensures buffer.Content() == old(buffer.Content())[Min(f.size, |old(buffer.Content())|)..]
  {
    value := PeekInt(buffer, f, 0);
    buffer.Drain(f.size);
  }

  /** Whatever the slices, an integer at the front of the content is drained as it was written, cut
      to its bytes, and what follows it stays. */
  method DrainWritten(buffer: OwnedImpl, f: Format, ghost value: int, ghost rest: seq<byte>) returns (r: int)
    requires buffer.Valid() && f.Valid() && !Misplaced(f)
    requires buffer.Content() == Encode(f, value) + rest
    modifies buffer.Repr(), buffer.log
    ensures buffer.Valid() && buffer.Content() == rest && buffer.Conserves()
    ensures r == Cut(f, value) && (Representable(value, f.size, f.signed) ==> r == value)
  {
    ghost var all := buffer.Content();
    assert all[..f.size] == Encode(f, value) && all[f.size..] == rest;
    assert Window(buffer.Content(), 0, f.size) == Encode(f, value);
    r := DrainInt(buffer, f);
    RoundTrip(f, value);
    if Representable(value, f.size, f.signed) {
      CutIsIdentity(f, value);
    }
  }
}
