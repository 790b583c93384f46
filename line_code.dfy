/** The 4B/5B line code of the frame: every nibble of the data block and
    checksum is sent as a five-bit code-group, using the sixteen data
    code-groups of IEEE 802.3 clause 24, Table 24-1 (Encoder.encoding_table and
    Decoder.decoding_table; Encoder.four_to_five and Decoder.five_to_four). */
module LineCode {
  import opened Wrappers
  import opened Binary

  const EncodingTable: map<string, string> := map[
    "0000" := "11110", "0001" := "01001", "0010" := "10100", "0011" := "10101",
    "0100" := "01010", "0101" := "01011", "0110" := "01110", "0111" := "01111",
    "1000" := "10010", "1001" := "10011", "1010" := "10110", "1011" := "10111",
    "1100" := "11010", "1101" := "11011", "1110" := "11100", "1111" := "11101"]

  const DecodingTable: map<string, string> := map[
    "11110" := "0000", "01001" := "0001", "10100" := "0010", "10101" := "0011",
    "01010" := "0100", "01011" := "0101", "01110" := "0110", "01111" := "0111",
    "10010" := "1000", "10011" := "1001", "10110" := "1010", "10111" := "1011",
    "11010" := "1100", "11011" := "1101", "11100" := "1110", "11101" := "1111"]

  // ---------------------------------------------------------------------------
  // The two tables are inverse bijections between nibbles and code-groups

  /** Every four-bit string is a key of the encoding table; its code-group is
      five bits and the decoding table maps it back. */
  lemma EncodeNibble(n: string)
    requires |n| == 4 && IsBinary(n)
    ensures n in EncodingTable
    ensures |EncodingTable[n]| == 5 && IsBinary(EncodingTable[n])
    ensures EncodingTable[n] in DecodingTable && DecodingTable[EncodingTable[n]] == n
  {
    NibbleIsKey(n);
    EncodeNibbleShape(n);
    EncodeNibbleInverse(n);
  }

  lemma NibbleIsKey(n: string)
    requires |n| == 4 && IsBinary(n)
    ensures n in EncodingTable
  {
    assert IsBit(n[0]) && IsBit(n[1]) && IsBit(n[2]) && IsBit(n[3]);
    assert n == [n[0], n[1], n[2], n[3]];
  }

  lemma EncodeNibbleShape(n: string)
    requires n in EncodingTable
    ensures |EncodingTable[n]| == 5 && IsBinary(EncodingTable[n])
  {
  }

  lemma EncodeNibbleInverse(n: string)
    requires n in EncodingTable
    ensures EncodingTable[n] in DecodingTable && DecodingTable[EncodingTable[n]] == n
  {
  }

  /** Every code-group is five bits; it decodes to a four-bit string which the
      encoding table maps back to it. */
  lemma DecodeGroup(g: string)
    requires g in DecodingTable
    ensures |g| == 5 && IsBinary(g)
    ensures |DecodingTable[g]| == 4 && IsBinary(DecodingTable[g])
    ensures DecodingTable[g] in EncodingTable && EncodingTable[DecodingTable[g]] == g
  {
    DecodeGroupShape(g);
    DecodeGroupInverse(g);
  }

  lemma DecodeGroupShape(g: string)
    requires g in DecodingTable
    ensures |g| == 5 && IsBinary(g)
    ensures |DecodingTable[g]| == 4 && IsBinary(DecodingTable[g])
  {
  }

  lemma DecodeGroupInverse(g: string)
    requires g in DecodingTable
    ensures DecodingTable[g] in EncodingTable && EncodingTable[DecodingTable[g]] == g
  {
  }

  /** The keys of the encoding table are exactly the sixteen nibbles. */
  lemma EncodingKeys(n: string)
    ensures n in EncodingTable <==> |n| == 4 && IsBinary(n)
  {
    if |n| == 4 && IsBinary(n) {
      EncodeNibble(n);
    }
  }

  /** The two tables are inverse maps of each other. */
  lemma TablesInverse()
    ensures forall n :: n in EncodingTable ==>
      EncodingTable[n] in DecodingTable && DecodingTable[EncodingTable[n]] == n
    ensures forall g :: g in DecodingTable ==>
      DecodingTable[g] in EncodingTable && EncodingTable[DecodingTable[g]] == g
  {
    forall n | n in EncodingTable
      ensures EncodingTable[n] in DecodingTable && DecodingTable[EncodingTable[n]] == n
    {
      EncodingKeys(n);
      EncodeNibble(n);
    }
    forall g | g in DecodingTable
      ensures DecodingTable[g] in EncodingTable && EncodingTable[DecodingTable[g]] == g
    {
      DecodeGroup(g);
    }
  }

  // ---------------------------------------------------------------------------
  // four_to_five

  /** The line coding of a bit string: the code-group of each nibble in turn. */
  function FourToFiveSpec(bits: string): (r: string)
    requires |bits| % 4 == 0 && IsBinary(bits)
    ensures |r| == 5 * (|bits| / 4) && IsBinary(r)
  {
    if |bits| == 0 then []
    else
      EncodeNibble(bits[..4]);
      EncodingTable[bits[..4]] + FourToFiveSpec(bits[4..])
  }

  /** four_to_five(bits): look up each four-bit slice and append its code-group. */
  method FourToFive(bits: string) returns (res: string)
    requires |bits| % 4 == 0 && IsBinary(bits)
    ensures res == FourToFiveSpec(bits)
  {
    res := [];
    var i := 0;
    while i < |bits|
      invariant 0 <= i <= |bits| && (|bits| - i) % 4 == 0
      invariant FourToFiveSpec(bits) == res + FourToFiveSpec(bits[i..])
    {
      var tmp := bits[i..i + 4];
      FourToFiveStep(bits, i, res);
      res := res + EncodingTable[tmp];
      i := i + 4;
    }
  }

  lemma FourToFiveStep(bits: string, i: nat, res: string)
    requires IsBinary(bits) && (|bits| - i) % 4 == 0 && i < |bits|
    ensures bits[i..i + 4] in EncodingTable
    ensures (|bits| - (i + 4)) % 4 == 0 && IsBinary(bits[i + 4..])
    ensures res + FourToFiveSpec(bits[i..])
      == (res + EncodingTable[bits[i..i + 4]]) + FourToFiveSpec(bits[i + 4..])
  {
    assert bits[i..][..4] == bits[i..i + 4] && bits[i..][4..] == bits[i + 4..];
    EncodeNibble(bits[i..i + 4]);
    AppendAssoc(res, EncodingTable[bits[i..i + 4]], FourToFiveSpec(bits[i + 4..]), []);
  }

  // ---------------------------------------------------------------------------
  // five_to_four

  /** The decoding of a line-coded string: each five-character slice in turn
      (the last one possibly shorter) must be a code-group. */
  function FiveToFourSpec(m: string): (r: Result<string, DecodeError>)
    ensures r.Ok? ==> |m| % 5 == 0 && |r.value| == 4 * (|m| / 5) && IsBinary(r.value)
    ensures r.Err? ==> r.error.InvalidCodeword? && r.error.group !in DecodingTable
    decreases |m|
  {
    if |m| == 0 then Ok([])
    else
      var g := Take(m, 5);
      if g !in DecodingTable then Err(InvalidCodeword(g))
      else
        DecodeGroup(g);
        var rest :- FiveToFourSpec(Drop(m, 5));
        Ok(DecodingTable[g] + rest)
  }

  /** The result of decoding a suffix, with `p` decoded before it. */
  function Prefixed(p: string, r: Result<string, DecodeError>): Result<string, DecodeError>
  {
    match r
    case Ok(t) => Ok(p + t)
    case Err(e) => Err(e)
  }

  lemma PrefixedAppend(a: string, b: string, r: Result<string, DecodeError>)
    ensures Prefixed(a, Prefixed(b, r)) == Prefixed(a + b, r)
    ensures Prefixed([], r) == r
  {
    if r.Ok? {
      assert a + (b + r.value) == (a + b) + r.value;
      assert [] + r.value == r.value;
    }
  }

  /** One step of five_to_four: the slice message[i:i+5] decides whether the
      decoding of the rest from i fails here or continues from i + 5. */
  lemma FiveToFourStep(message: string, i: nat, tmp: string)
    requires i < |message| && tmp == message[i..if i + 5 <= |message| then i + 5 else |message|]
    ensures tmp !in DecodingTable ==> FiveToFourSpec(Drop(message, i)) == Err(InvalidCodeword(tmp))
    ensures tmp in DecodingTable ==>
      FiveToFourSpec(Drop(message, i)) == Prefixed(DecodingTable[tmp], FiveToFourSpec(Drop(message, i + 5)))
  {
    assert Take(Drop(message, i), 5) == tmp;
    assert Drop(Drop(message, i), 5) == Drop(message, i + 5);
  }

  /** five_to_four(message): look up each five-character slice, message[i:i+5],
      raising KeyError at the first one that is not a code-group. */
  method FiveToFour(message: string) returns (r: Result<string, DecodeError>)
    ensures r == FiveToFourSpec(message)
  {
    var res: string := [];
    var i := 0;
    assert Drop(message, 0) == message;
    PrefixedAppend([], [], FiveToFourSpec(message));
    while i < |message|
      invariant FiveToFourSpec(message) == Prefixed(res, FiveToFourSpec(Drop(message, i)))
      decreases |message| - i
    {
      var tmp := message[i..if i + 5 <= |message| then i + 5 else |message|];
      FiveToFourStep(message, i, tmp);
      if tmp !in DecodingTable {
        return Err(InvalidCodeword(tmp));
      }
      PrefixedAppend(res, DecodingTable[tmp], FiveToFourSpec(Drop(message, i + 5)));
      res := res + DecodingTable[tmp];
      i := i + 5;
    }
    assert Drop(message, i) == [];
    assert FiveToFourSpec(Drop(message, i)) == Ok([]);
    assert res + [] == res;
    return Ok(res);
  }

  /** The code-group at position k of a line-coded string. */
  function Group(m: string, k: nat): string
    requires 5 * k + 5 <= |m|
  {
    m[5 * k..5 * k + 5]
  }

  /** five_to_four succeeds exactly when the length is a multiple of five and
      every five-bit group is a code-group. */
  lemma {:induction false} FiveToFourSucceeds(m: string)
    ensures FiveToFourSpec(m).Ok? <==>
      |m| % 5 == 0 && forall k :: 0 <= k < |m| / 5 ==> Group(m, k) in DecodingTable
    decreases |m|
  {
    if |m| > 0 {
      var rest := Drop(m, 5);
      FiveToFourSucceeds(rest);
      if |m| >= 5 {
        assert Group(m, 0) == Take(m, 5);
        forall k | 0 <= k < |rest| / 5 ensures Group(rest, k) == Group(m, k + 1) {
        }
        if |m| % 5 == 0 && forall k :: 0 <= k < |m| / 5 ==> Group(m, k) in DecodingTable {
          forall k | 0 <= k < |rest| / 5 ensures Group(rest, k) in DecodingTable {
            assert Group(m, k + 1) in DecodingTable;
          }
        }
        if FiveToFourSpec(m).Ok? {
          forall k | 0 <= k < |m| / 5 ensures Group(m, k) in DecodingTable {
            if k > 0 {
              assert Group(rest, k - 1) in DecodingTable;
            }
          }
        }
      } else {
        DecodeGroupLength(Take(m, 5));
      }
    }
  }

  lemma DecodeGroupLength(g: string)
    requires |g| < 5
    ensures g !in DecodingTable
  {
    if g in DecodingTable {
      DecodeGroup(g);
    }
  }

  /** five_to_four undoes four_to_five exactly. */
  lemma {:induction false} FiveToFourOfFourToFive(bits: string)
    requires |bits| % 4 == 0 && IsBinary(bits)
    ensures FiveToFourSpec(FourToFiveSpec(bits)) == Ok(bits)
    decreases |bits|
  {
    if |bits| > 0 {
      var n := bits[..4];
      EncodeNibble(n);
      var g := EncodingTable[n];
      var coded := FourToFiveSpec(bits);
      var rest := FourToFiveSpec(bits[4..]);
      assert coded == g + rest;
      assert Take(coded, 5) == g;
      assert Drop(coded, 5) == rest;
      FiveToFourOfFourToFive(bits[4..]);
      assert bits == n + bits[4..];
    }
  }

  /** four_to_five undoes five_to_four whenever five_to_four succeeds: a
      line-coded string that decodes is the coding of what it decodes to. */
  lemma {:induction false} FourToFiveOfFiveToFour(m: string)
    requires FiveToFourSpec(m).Ok?
    ensures FourToFiveSpec(FiveToFourSpec(m).value) == m
    decreases |m|
  {
    if |m| > 0 {
      var g := Take(m, 5);
      DecodeGroup(g);
      var rest := Drop(m, 5);
      FourToFiveOfFiveToFour(rest);
      var bits := FiveToFourSpec(m).value;
      assert bits == DecodingTable[g] + FiveToFourSpec(rest).value;
      assert bits[..4] == DecodingTable[g];
      assert bits[4..] == FiveToFourSpec(rest).value;
    }
  }

  /** Decoding a concatenation whose first part decodes: the first part's
      nibbles, then whatever the second part decodes to. */
  lemma {:induction false} FiveToFourAppend(a: string, b: string)
    requires FiveToFourSpec(a).Ok?
    ensures FiveToFourSpec(a + b) == Prefixed(FiveToFourSpec(a).value, FiveToFourSpec(b))
    decreases |a|
  {
    PrefixedAppend([], [], FiveToFourSpec(b));
    if |a| == 0 {
      assert a + b == b;
    } else {
      var g := Take(a, 5);
      assert g in DecodingTable;
      DecodeGroup(g);
      SplitFront(a, b);
      FiveToFourUnfold(a);
      FiveToFourUnfold(a + b);
      FiveToFourAppend(Drop(a, 5), b);
      PrefixedAppend(DecodingTable[g], FiveToFourSpec(Drop(a, 5)).value, FiveToFourSpec(b));
    }
  }

  lemma SplitFront(a: string, b: string)
    requires |a| >= 5
    ensures Take(a + b, 5) == Take(a, 5) && Drop(a + b, 5) == Drop(a, 5) + b
  {
    assert (a + b)[..5] == a[..5];
    assert (a + b)[5..] == a[5..] + b;
  }

  lemma FiveToFourUnfold(m: string)
    requires |m| > 0 && Take(m, 5) in DecodingTable
    ensures FiveToFourSpec(m) == Prefixed(DecodingTable[Take(m, 5)], FiveToFourSpec(Drop(m, 5)))
  {
  }
}
