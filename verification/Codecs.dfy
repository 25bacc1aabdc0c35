/** The laws asked of the JSON library can be met, by one under which headers fit: the results that
    assume them are about something. */
module Codecs {
  import opened Basics
  import opened Header

  const BASE: nat := 254
  const END: byte := 255

  /** A number as digits 1..254, most significant first. */
  function Digits(n: nat): (d: seq<byte>)
    ensures forall k :: 0 <= k < |d| ==> 1 <= d[k] <= 254
  {
    if n == 0 then [] else Digits(n / BASE) + [n % BASE + 1]
  }

  function Number(d: seq<byte>): int {
    if d == [] then 0 else Number(d[..|d| - 1]) * BASE + d[|d| - 1] - 1
  }

  lemma {:induction false} NumberOfDigits(n: nat)
    ensures Number(Digits(n)) == n
  {
    if n > 0 {
      NumberOfDigits(n / BASE);
      assert Digits(n)[..|Digits(n)| - 1] == Digits(n / BASE);
    }
  }

  /** Numbers, each ended by a byte that is no digit. */
  function Encode(numbers: seq<nat>): seq<byte> {
    if numbers == [] then [] else Digits(numbers[0]) + [END] + Encode(numbers[1..])
  }

  lemma EndComesFirst(d: seq<byte>, rest: seq<byte>)
    requires END !in d
    ensures var whole := d + [END] + rest;
            whole[|d|] == END && forall k :: 0 <= k < |d| ==> whole[k] != END
  {
  }

  lemma FirstNumber(a: nat, x: seq<byte>, b: nat, y: seq<byte>)
    requires Digits(a) + [END] + x == Digits(b) + [END] + y
    ensures a == b && x == y
  {
    var whole, n := Digits(a) + [END] + x, |Digits(a)|;
    EndComesFirst(Digits(a), x);
    EndComesFirst(Digits(b), y);
    assert n == |Digits(b)|;
    assert Digits(a) == whole[..n] == Digits(b);
    assert x == whole[n + 1..] == y;
    NumberOfDigits(a);
    NumberOfDigits(b);
  }

  lemma {:induction false} EncodeIsInjective(a: seq<nat>, b: seq<nat>)
    requires Encode(a) == Encode(b)
    ensures a == b
    decreases |a|
  {
    if a != [] && b != [] {
      FirstNumber(a[0], Encode(a[1..]), b[0], Encode(b[1..]));
      EncodeIsInjective(a[1..], b[1..]);
      assert a == [a[0]] + a[1..] && b == [b[0]] + b[1..];
    }
  }

  lemma {:induction false} EncodeHoldsNoNul(numbers: seq<nat>)
    ensures 0 !in Encode(numbers)
  {
    if numbers != [] {
      EncodeHoldsNoNul(numbers[1..]);
    }
  }

  lemma {:induction false} EncodeIsShort(numbers: seq<nat>)
    requires forall k :: 0 <= k < |numbers| ==> numbers[k] < 254 * 254 * 254
    ensures |Encode(numbers)| <= 4 * |numbers|
  {
    if numbers != [] {
      EncodeIsShort(numbers[1..]);
      ThreeDigits(numbers[0]);
    }
  }

  lemma ThreeDigits(n: nat)
    requires n < 254 * 254 * 254
    ensures |Digits(n)| <= 3
  {
    var m := n / BASE;
    assert m < 254 * 254 && m / BASE < 254 && (m / BASE) / BASE == 0;
    assert |Digits(m / BASE)| <= 1;
    assert |Digits(m)| <= 2;
  }

  // ---------- headers as numbers ----------

  function Codes(s: string): (codes: seq<nat>)
    ensures |codes| == |s| && forall k :: 0 <= k < |s| ==> codes[k] == s[k] as int
  {
    seq(|s|, k requires 0 <= k < |s| => s[k] as int)
  }

  function TextNumbers(s: string): seq<nat> {
    [|s|] + Codes(s)
  }

  lemma FirstText(s: string, x: seq<nat>, t: string, y: seq<nat>)
    requires TextNumbers(s) + x == TextNumbers(t) + y
    ensures s == t && x == y
  {
    var whole := TextNumbers(s) + x;
    assert whole[0] == |s| == |t|;
    forall k | 0 <= k < |s|
      ensures s[k] == t[k]
    {
      assert whole[k + 1] == s[k] as int == t[k] as int;
    }
    assert x == whole[|s| + 1..] && y == whole[|t| + 1..];
  }

  function HeaderNumbers(h: BallastHeader): seq<nat> {
    TextNumbers(h.magic) + (TextNumbers(h.createdAt) + (TextNumbers(h.purpose) + [h.fileIndex, h.fileSize]))
  }

  lemma HeaderNumbersAreInjective(g: BallastHeader, h: BallastHeader)
    requires HeaderNumbers(g) == HeaderNumbers(h)
    ensures g == h
  {
    var gTail, hTail := [g.fileIndex, g.fileSize], [h.fileIndex, h.fileSize];
    FirstText(g.magic, TextNumbers(g.createdAt) + (TextNumbers(g.purpose) + gTail),
              h.magic, TextNumbers(h.createdAt) + (TextNumbers(h.purpose) + hTail));
    FirstText(g.createdAt, TextNumbers(g.purpose) + gTail, h.createdAt, TextNumbers(h.purpose) + hTail);
    FirstText(g.purpose, gTail, h.purpose, hTail);
    assert gTail[0] == hTail[0] && gTail[1] == hTail[1];
  }

  function Write(h: BallastHeader): seq<byte> {
    Encode(HeaderNumbers(h))
  }

  ghost function Read(bytes: seq<byte>): Option<BallastHeader> {
    if h :| Write(h) == bytes then Some(h) else None
  }

  lemma ReadUndoesWrite(h: BallastHeader)
    ensures Read(Write(h)) == Some(h)
  {
    var other := Read(Write(h)).value;
    EncodeIsInjective(HeaderNumbers(other), HeaderNumbers(h));
    HeaderNumbersAreInjective(other, h);
  }

  /** A lawful library under which the header of any small slot fits its block. */
  lemma LawfulCodecExists(index: u32, size: u64)
    requires index < 1_000_000 && size < 10_000_000
    ensures exists codec :: Lawful(codec) && HeaderBuffer(codec, index, size, "").Some?
  {
    var codec := Codec(Write, Read);
    forall h
      ensures codec.read(codec.write(h)) == Some(h) && 0 !in codec.write(h)
    {
      ReadUndoesWrite(h);
      EncodeHoldsNoNul(HeaderNumbers(h));
    }
    var numbers := HeaderNumbers(NewHeader(index, size, ""));
    assert |numbers| == 1 + |MAGIC| + 1 + 1 + |PURPOSE| + 2;
    SmallNumbers(index, size);
    EncodeIsShort(numbers);
    assert Lawful(codec) && HeaderBuffer(codec, index, size, "").Some?;
  }

  lemma SmallNumbers(index: u32, size: u64)
    requires index < 1_000_000 && size < 10_000_000
    ensures forall n :: n in HeaderNumbers(NewHeader(index, size, "")) ==> n < 254 * 254 * 254
  {
    SmallCodes(MAGIC);
    SmallCodes(PURPOSE);
  }

  lemma SmallCodes(s: string)
    ensures forall n :: n in Codes(s) ==> n < 0x11_0000
  {
  }
}
