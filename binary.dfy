/** Bit strings as the frame codec represents them: strings of '0' and '1',
    most significant bit first.  This module holds the module-level helpers of
    ethernet_frame.py (get_bits, get_bytes, get_hash), the builtins they lean
    on (int(text, 2), int.to_bytes, clamping slices) and the exceptions those
    raise. */
module Binary {
  import opened Wrappers
  import Crc32

  type byte = x: int | 0 <= x < 256

  /** The exceptions the decoding path can raise, one constructor each. */
  datatype DecodeError =
    | InvalidCodeword(group: string)  // KeyError: a group of the line code is not a codeword
    | NotANumber                      // ValueError: int(text, 2) on an empty text
    | ByteOverflow                    // OverflowError: int.to_bytes, the value needs more bytes
    | NotUtf8                         // UnicodeDecodeError: bytes.decode()
    | WrongHash                       // the checksum check failed

  function Pow2(n: nat): (r: nat)
    ensures r > 0
  {
    if n == 0 then 1 else 2 * Pow2(n - 1)
  }

  predicate IsBit(c: char) { c == '0' || c == '1' }

  predicate IsBinary(s: string) { forall i :: 0 <= i < |s| ==> IsBit(s[i]) }

  lemma BinaryAppend(a: string, b: string)
    requires IsBinary(a) && IsBinary(b)
    ensures IsBinary(a + b)
  {
    forall i | 0 <= i < |a + b| ensures IsBit((a + b)[i]) {
      if i >= |a| {
        assert (a + b)[i] == b[i - |a|];
      }
    }
  }

  lemma DropAppend(s: string, t: string, n: nat)
    requires n <= |s|
    ensures Drop(s + t, n) == Drop(s, n) + t
  {
    assert (s + t)[n..] == s[n..] + t;
  }

  lemma AppendAssoc(a: string, b: string, c: string, d: string)
    ensures a + b + c == a + (b + c)
    ensures a + b + c + d == a + (b + (c + d))
  {
  }

  /** str(number % 2) */
  function Digit(b: int): char
    requires 0 <= b < 2
  {
    if b == 0 then '0' else '1'
  }

  function DigitValue(c: char): nat { if c == '1' then 1 else 0 }

  /** The number a binary string denotes, read most significant bit first. */
  function ValueOf(s: string): nat
  {
    if |s| == 0 then 0 else 2 * ValueOf(s[..|s| - 1]) + DigitValue(s[|s| - 1])
  }

  /** The string get_bits returns for `width` == 8 * byte_size: the low `width`
      bits of x, most significant first (floor division and a non-negative
      remainder, as Python's // and % by 2 give for every int). */
  function BitsOf(width: nat, x: int): (r: string)
    ensures |r| == width && IsBinary(r)
  {
    if width == 0 then [] else BitsOf(width - 1, x / 2) + [Digit(x % 2)]
  }

  function Reversed(s: string): (r: string)
    ensures |r| == |s|
  {
    if |s| == 0 then [] else [s[|s| - 1]] + Reversed(s[..|s| - 1])
  }

  /** get_bits(byte_size, number): collect the remainders, least significant
      first, then reverse the list. */
  method GetBits(byteSize: nat, number: int) returns (res: string)
    ensures res == BitsOf(8 * byteSize, number)
    ensures |res| == 8 * byteSize && IsBinary(res)
    ensures ValueOf(res) == number % Pow2(8 * byteSize)
  {
    var n := number;
    var acc: string := [];
    for i := 0 to 8 * byteSize
      invariant BitsOf(8 * byteSize, number) == BitsOf(8 * byteSize - i, n) + Reversed(acc)
    {
      GetBitsStep(8 * byteSize - i, n, acc);
      acc := acc + [Digit(n % 2)];
      n := n / 2;
    }
    assert BitsOf(0, n) + Reversed(acc) == Reversed(acc);
    res := Reversed(acc);
    BitsOfValue(8 * byteSize, number);
  }

  /** One turn of get_bits' loop: the remainder moves from the pending bits
      to the front of the reversed list. */
  lemma GetBitsStep(m: nat, n: int, acc: string)
    requires m > 0
    ensures BitsOf(m, n) + Reversed(acc) == BitsOf(m - 1, n / 2) + Reversed(acc + [Digit(n % 2)])
  {
    var d := Digit(n % 2);
    assert (acc + [d])[..|acc|] == acc;
    assert Reversed(acc + [d]) == [d] + Reversed(acc);
    AppendAssoc(BitsOf(m - 1, n / 2), [d], Reversed(acc), []);
  }

  /** int(text, 2) on the texts the decoder produces: an empty text raises. */
  function ParseBin(s: string): (r: Result<nat, DecodeError>)
    ensures r.Ok? <==> |s| > 0 && IsBinary(s)
    ensures r.Err? ==> r.error == NotANumber
    ensures r.Ok? ==> r.value < Pow2(|s|) && BitsOf(|s|, r.value) == s
  {
    if |s| == 0 || !IsBinary(s) then Err(NotANumber)
    else
      ValueOfBound(s);
      BitsOfValueOf(s);
      Ok(ValueOf(s))
  }

  /** Python's text[:n], which stops at the end of the text. */
  function Take(s: string, n: nat): (r: string)
    ensures |r| <= n && |r| <= |s|
  {
    if n <= |s| then s[..n] else s
  }

  /** Python's text[n:], empty past the end of the text. */
  function Drop(s: string, n: nat): (r: string)
    ensures Take(s, n) + r == s
  {
    if n <= |s| then s[n..] else []
  }

  /** The big-endian number a byte string denotes. */
  function BigEndian(bs: seq<byte>): nat
  {
    if |bs| == 0 then 0 else 256 * BigEndian(bs[..|bs| - 1]) + bs[|bs| - 1]
  }

  /** n.to_bytes(k, byteorder='big') after its range check: the low k bytes. */
  function BytesOf(k: nat, n: nat): (r: seq<byte>)
    ensures |r| == k
  {
    if k == 0 then [] else BytesOf(k - 1, n / 256) + [n % 256]
  }

  /** get_bytes(bits): int(bits, 2).to_bytes(len(bits) // 8, 'big'). */
  function GetBytes(bits: string): (r: Result<seq<byte>, DecodeError>)
    ensures bits == [] ==> r == Err(NotANumber)
    ensures r.Ok? ==> |r.value| == |bits| / 8 && BigEndian(r.value) == ValueOf(bits)
    ensures |bits| > 0 && IsBinary(bits) && |bits| % 8 == 0 ==> r.Ok?
  {
    var n :- ParseBin(bits);
    var k := |bits| / 8;
    if n < Pow2(8 * k) then
      BytesOfValue(k, n);
      DivModUnique(n, Pow2(8 * k), 0, n);
      Ok(BytesOf(k, n))
    else
      ValueOfBound(bits);
      Err(ByteOverflow)
  }

  /** get_hash(data): CRC-32 of the bytes the bits spell, masked to 32 bits. */
  function GetHash(data: string): (r: Result<nat, DecodeError>)
    ensures r.Ok? <==> GetBytes(data).Ok?
    ensures r.Ok? ==> r.value < 0x1_0000_0000
  {
    var bytes :- GetBytes(data);
    Ok(Crc32.Checksum(seq(|bytes|, i requires 0 <= i < |bytes| => bytes[i] as bv8)) as nat)
  }

  /** The bit string of a byte string, eight bits per byte. */
  function BytesToBits(bs: seq<byte>): (r: string)
    ensures |r| == 8 * |bs| && IsBinary(r)
  {
    if |bs| == 0 then [] else BytesToBits(bs[..|bs| - 1]) + BitsOf(8, bs[|bs| - 1])
  }

  // ---------------------------------------------------------------------------
  // Arithmetic

  lemma MulAtLeast(k: int, d: int)
    requires k > 0 && d >= 1
    ensures k * d >= k
  {
    if d > 1 {
      MulAtLeast(k, d - 1);
      assert k * d == k * (d - 1) + k;
    }
  }

  /** Quotient and remainder are determined by x == k * q + r with 0 <= r < k. */
  lemma DivModUnique(x: int, k: int, q: int, r: int)
    requires k > 0 && 0 <= r < k && x == k * q + r
    ensures x / k == q && x % k == r
  {
    var q', r' := x / k, x % k;
    assert x == k * q' + r';
    if q > q' {
      assert k * (q - q') == k * q - k * q';
      MulAtLeast(k, q - q');
      assert false;
    } else if q' > q {
      assert k * (q' - q) == k * q' - k * q;
      MulAtLeast(k, q' - q);
      assert false;
    }
  }

  /** Taking digits in base b off the bottom of x modulo b * m. */
  lemma ModSplit(x: int, b: int, m: int)
    requires b > 0 && m > 0
    ensures x % (b * m) == b * ((x / b) % m) + x % b
  {
    var q, r := x / b, x % b;
    var a, c := q / m, q % m;
    assert x == b * q + r;
    assert q == m * a + c;
    assert b * q == (b * m) * a + b * c;
    assert b * c <= b * (m - 1) by {
      if c < m - 1 {
        assert b * (m - 1 - c) == b * (m - 1) - b * c;
        MulAtLeast(b, m - 1 - c);
      }
    }
    assert b * (m - 1) == b * m - b;
    assert 0 <= b * c by { if c > 0 { MulAtLeast(b, c); } }
    DivModUnique(x, b * m, a, b * c + r);
  }

  lemma {:induction false} Pow2Add(a: nat, b: nat)
    ensures Pow2(a + b) == Pow2(a) * Pow2(b)
  {
    if a > 0 {
      Pow2Add(a - 1, b);
      assert Pow2(a + b) == 2 * Pow2(a - 1 + b);
    }
  }

  lemma Pow2Byte()
    ensures Pow2(8) == 256
  {
    assert Pow2(2) == 4;
    assert Pow2(4) == 16;
    assert Pow2(6) == 64;
  }

  // ---------------------------------------------------------------------------
  // get_bits and int(text, 2) are inverse

  /** get_bits(n, x) denotes x modulo 2^(8n), also for negative x. */
  lemma {:induction false} BitsOfValue(width: nat, x: int)
    ensures ValueOf(BitsOf(width, x)) == x % Pow2(width)
  {
    if width == 0 {
      DivModUnique(x, 1, x, 0);
    } else {
      var r := BitsOf(width, x);
      assert r[..width - 1] == BitsOf(width - 1, x / 2);
      BitsOfValue(width - 1, x / 2);
      ModSplit(x, 2, Pow2(width - 1));
    }
  }

  /** A binary string of length n denotes a number below 2^n. */
  lemma {:induction false} ValueOfBound(s: string)
    ensures ValueOf(s) < Pow2(|s|)
  {
    if |s| > 0 {
      ValueOfBound(s[..|s| - 1]);
    }
  }

  /** Rendering the number a binary string denotes gives the string back. */
  lemma {:induction false} BitsOfValueOf(s: string)
    requires IsBinary(s)
    ensures BitsOf(|s|, ValueOf(s)) == s
  {
    if |s| > 0 {
      var pre := s[..|s| - 1];
      BitsOfValueOf(pre);
      DivModUnique(ValueOf(s), 2, ValueOf(pre), DigitValue(s[|s| - 1]));
      assert s == pre + [s[|s| - 1]];
    }
  }

  /** Parsing the rendering recovers the number whenever it fits the width. */
  lemma ParseBinOfBits(width: nat, x: int)
    requires width > 0
    ensures ParseBin(BitsOf(width, x)) == Ok(x % Pow2(width))
    ensures 0 <= x < Pow2(width) ==> ParseBin(BitsOf(width, x)) == Ok(x)
  {
    BitsOfValue(width, x);
    if 0 <= x < Pow2(width) {
      DivModUnique(x, Pow2(width), 0, x);
    }
  }

  /** get_bits depends only on the number modulo 2^width. */
  lemma BitsOfMod(width: nat, x: int)
    ensures BitsOf(width, x) == BitsOf(width, x % Pow2(width))
  {
    BitsOfValue(width, x);
    BitsOfValueOf(BitsOf(width, x));
    BitsOfValue(width, x % Pow2(width));
    BitsOfValueOf(BitsOf(width, x % Pow2(width)));
    DivModUnique(x % Pow2(width), Pow2(width), 0, x % Pow2(width));
  }

  lemma DoubleProduct(x: int, y: int)
    ensures x * (2 * y) == 2 * (x * y)
  {
  }

  lemma {:induction false} ValueOfAppend(a: string, b: string)
    ensures ValueOf(a + b) == ValueOf(a) * Pow2(|b|) + ValueOf(b)
  {
    if |b| == 0 {
      assert a + b == a;
    } else {
      var b' := b[..|b| - 1];
      assert (a + b)[..|a + b| - 1] == a + b';
      ValueOfAppend(a, b');
      DoubleProduct(ValueOf(a), Pow2(|b'|));
    }
  }

  // ---------------------------------------------------------------------------
  // get_bytes

  lemma {:induction false} BytesOfValue(k: nat, n: nat)
    ensures BigEndian(BytesOf(k, n)) == n % Pow2(8 * k)
  {
    if k == 0 {
      DivModUnique(n, 1, n, 0);
    } else {
      var r := BytesOf(k, n);
      assert r[..k - 1] == BytesOf(k - 1, n / 256);
      BytesOfValue(k - 1, n / 256);
      Pow2Add(8, 8 * (k - 1));
      Pow2Byte();
      ModSplit(n, 256, Pow2(8 * (k - 1)));
    }
  }

  lemma {:induction false} BytesOfBigEndian(bs: seq<byte>)
    ensures BytesOf(|bs|, BigEndian(bs)) == bs
  {
    if |bs| > 0 {
      var pre := bs[..|bs| - 1];
      BytesOfBigEndian(pre);
      DivModUnique(BigEndian(bs), 256, BigEndian(pre), bs[|bs| - 1]);
      assert bs == pre + [bs[|bs| - 1]];
    }
  }

  lemma {:induction false} BytesToBitsValue(bs: seq<byte>)
    ensures ValueOf(BytesToBits(bs)) == BigEndian(bs)
  {
    if |bs| > 0 {
      var pre, last := bs[..|bs| - 1], bs[|bs| - 1];
      BytesToBitsValue(pre);
      var head, tail := BytesToBits(pre), BitsOf(8, last);
      assert BytesToBits(bs) == head + tail;
      ValueOfAppend(head, tail);
      BitsOfValue(8, last);
      Pow2Byte();
      DivModUnique(last, 256, 0, last);
      assert ValueOf(tail) == last;
      assert ValueOf(head + tail) == BigEndian(pre) * 256 + last;
    }
  }

  /** get_bytes undoes the bit rendering of a non-empty byte string. */
  lemma GetBytesOfBytesToBits(bs: seq<byte>)
    requires |bs| > 0
    ensures GetBytes(BytesToBits(bs)) == Ok(bs)
  {
    var bits := BytesToBits(bs);
    BytesToBitsValue(bs);
    BytesOfBigEndian(bs);
    ValueOfBound(bits);
    assert |bits| / 8 == |bs|;
  }
}
