/** The Ethernet-like frame of ethernet_frame.py.

    A frame is a 56-bit alternating preamble, the start frame delimiter
    10101011 (IEEE 802.3 sections 3.2.1 and 3.2.2), and then, line-coded 4B/5B,
    the data block (48-bit destination, 48-bit source, 16-bit payload length,
    eight bits per payload character) followed by the 32-bit CRC-32 of the data
    block.  Encoder builds it; Decoder takes it apart and checks the CRC;
    Decoder.decode turns every failure into one message. */
module EthernetFrame {
  import opened Wrappers
  import opened Binary
  import opened LineCode
  import Utf8

  const NotValidMessage: string := "Not valid message."

  // ===========================================================================
  // Encoder

  /** The alternating bit string get_alternating_binary(size) returns. */
  function Alternating(size: nat): (r: string)
    ensures |r| == size
  {
    seq(size, i => if i % 2 == 0 then '1' else '0')
  }

  /** get_alternating_binary(size): '1', '0', '1', ... */
  method GetAlternatingBinary(size: nat) returns (res: string)
    ensures |res| == size
    ensures forall i :: 0 <= i < size ==> res[i] == if i % 2 == 0 then '1' else '0'
    ensures res == Alternating(size)
  {
    res := [];
    var cur := 1;
    for i := 0 to size
      invariant |res| == i && cur == (i + 1) % 2
      invariant forall j :: 0 <= j < i ==> res[j] == if j % 2 == 0 then '1' else '0'
    {
      res := res + [Digit(cur)];
      cur := (cur + 1) % 2;
    }
  }

  /** get_preamble(): seven bytes of alternating bits. */
  method GetPreamble() returns (res: string)
    ensures |res| == 56
    ensures forall i :: 0 <= i < 56 ==> res[i] == if i % 2 == 0 then '1' else '0'
    ensures res == Alternating(56)
  {
    res := GetAlternatingBinary(7 * 8);
  }

  /** get_frame_delimiter(): six alternating bits, then 11. */
  method GetFrameDelimiter() returns (res: string)
    ensures res == "10101011"
    ensures res == Alternating(6) + "11"
  {
    res := GetAlternatingBinary(6);
    res := res + ['1', '1'];
  }

  /** The bits convert_to_bits gives a payload: get_bits(1, ord(c)) per
      character, so each code is taken modulo 256. */
  function PayloadBits(payload: string): (r: string)
    ensures |r| == 8 * |payload| && IsBinary(r)
  {
    if |payload| == 0 then []
    else PayloadBits(payload[..|payload| - 1]) + BitsOf(8, payload[|payload| - 1] as int)
  }

  /** convert_to_bits(payload) */
  method ConvertToBits(payload: string) returns (res: string)
    ensures res == PayloadBits(payload)
  {
    res := [];
    for i := 0 to |payload|
      invariant res == PayloadBits(payload[..i])
    {
      var bits := GetBits(1, payload[i] as int);
      assert payload[..i + 1][..i] == payload[..i];
      res := res + bits;
    }
    assert payload[..|payload|] == payload;
  }

  /** The data block: destination, source, payload length, payload. */
  function DataBits(source: int, destination: int, payload: string): (r: string)
    ensures |r| == 112 + 8 * |payload| && |r| % 8 == 0 && IsBinary(r)
  {
    var a, b, c, p := BitsOf(48, destination), BitsOf(48, source), BitsOf(16, |payload|),
      PayloadBits(payload);
    BinaryAppend(a, b);
    BinaryAppend(a + b, c);
    BinaryAppend(a + b + c, p);
    DivModUnique(112 + 8 * |payload|, 8, 14 + |payload|, 0);
    a + b + c + p
  }

  /** The CRC-32 of a data block as 32 bits: get_bits(4, get_hash(data)). */
  function HashBits(data: string): (r: string)
    requires |data| > 0 && IsBinary(data) && |data| % 8 == 0
    ensures |r| == 32 && IsBinary(r)
  {
    BitsOf(32, GetHash(data).value)
  }

  /** The frame Encoder(source, destination, payload).frame holds. */
  function FrameBits(source: int, destination: int, payload: string): string
  {
    var data := DataBits(source, destination, payload);
    var hash := HashBits(data);
    BinaryAppend(data, hash);
    DivModUnique(|data + hash|, 4, 36 + 2 * |payload|, 0);
    Alternating(56) + (Alternating(6) + "11") + FourToFiveSpec(data + hash)
  }

  /** Encoder.encode(source, destination, message), with the fields
      Encoder.__init__ computes as locals. */
  method Encode(source: int, destination: int, message: string) returns (frame: string)
    ensures frame == FrameBits(source, destination, message)
    ensures |frame| == 64 + 5 * (144 + 8 * |message|) / 4
  {
    var src := GetBits(6, source);
    var dst := GetBits(6, destination);
    var length := GetBits(2, |message|);
    var payload := ConvertToBits(message);
    var data := dst + src + length + payload;
    assert data == DataBits(source, destination, message);
    var hash := GetBits(4, GetHash(data).value);
    BinaryAppend(data, hash);
    DivModUnique(|data + hash|, 4, 36 + 2 * |message|, 0);
    var preamble := GetPreamble();
    var frameDelimiter := GetFrameDelimiter();
    var coded := FourToFive(data + hash);
    frame := preamble + frameDelimiter + coded;
    FrameLayout(source, destination, message);
  }

  /** The bits before the line-coded part: preamble and delimiter. */
  lemma FrameHead()
    ensures var head := Alternating(56) + (Alternating(6) + "11");
      && |head| == 64
      && (forall i :: 0 <= i < 62 ==> head[i] == if i % 2 == 0 then '1' else '0')
      && head[62] == '1' && head[63] == '1'
      && head[56..] == "10101011"
  {
    var head := Alternating(56) + (Alternating(6) + "11");
    forall i | 0 <= i < 62 ensures head[i] == if i % 2 == 0 then '1' else '0' {
      if i < 56 {
        assert head[i] == Alternating(56)[i];
      } else {
        assert head[i] == Alternating(6)[i - 56];
        DivModUnique(i, 2, (i - 56) / 2 + 28, (i - 56) % 2);
      }
    }
    assert head[56..] == Alternating(6) + "11";
  }

  /** The layout of an encoded frame: 56 alternating bits starting with 1, the
      delimiter 10101011, then the line coding of data block and checksum. */
  lemma FrameLayout(source: int, destination: int, payload: string)
    ensures var f := FrameBits(source, destination, payload);
      && |f| == 64 + 5 * (144 + 8 * |payload|) / 4
      && (forall i :: 0 <= i < 62 ==> f[i] == if i % 2 == 0 then '1' else '0')
      && f[62] == '1' && f[63] == '1'
      && f[56..64] == "10101011"
      && var data := DataBits(source, destination, payload);
         f[64..] == FourToFiveSpec(data + HashBits(data))
  {
    var f := FrameBits(source, destination, payload);
    var head := Alternating(56) + (Alternating(6) + "11");
    FrameTail(source, destination, payload);
    FrameHead();
    DivModUnique(5 * (144 + 8 * |payload|), 4, 180 + 10 * |payload|, 0);
    assert f[..64] == head;
    assert f[56..64] == head[56..];
  }

  /** The line-coded part of a frame starts after 64 bits and is
      180 + 10 |payload| bits long. */
  lemma FrameTail(source: int, destination: int, payload: string)
    ensures var f := FrameBits(source, destination, payload);
      && |f| == 244 + 10 * |payload|
      && var data := DataBits(source, destination, payload);
         f[64..] == FourToFiveSpec(data + HashBits(data))
  {
    var f := FrameBits(source, destination, payload);
    var data := DataBits(source, destination, payload);
    var head := Alternating(56) + (Alternating(6) + "11");
    var hash := HashBits(data);
    BinaryAppend(data, hash);
    DivModUnique(|data + hash|, 4, 36 + 2 * |payload|, 0);
    var coded := FourToFiveSpec(data + hash);
    assert f == head + coded;
    assert |coded| == 180 + 10 * |payload|;
    assert f[64..] == coded;
  }

  // ===========================================================================
  // Decoder

  /** The fields a Decoder object ends up with. */
  datatype Decoded = Decoded(destination: nat, source: nat, length: nat, payload: string,
                             data: string, hash: string)

  /** get_destination, get_source and get_length: int(message[0:width], 2). */
  function ReadField(message: string, width: nat): (r: Result<nat, DecodeError>)
    ensures r.Ok? <==> |Take(message, width)| > 0 && IsBinary(Take(message, width))
    ensures r.Ok? ==> r.value < Pow2(width)
    ensures r.Ok? ==> BitsOf(|Take(message, width)|, r.value) == Take(message, width)
  {
    var field := Take(message, width);
    var r := ParseBin(field);
    if r.Ok? then
      Pow2Add(|field|, width - |field|);
      MulAtLeast(Pow2(|field|), Pow2(width - |field|));
      r
    else r
  }

  /** get_message(length, message): the first `length` bytes as UTF-8 text. */
  function GetMessage(length: nat, message: string): (r: Result<string, DecodeError>)
    ensures length == 0 || message == [] ==> r == Err(NotANumber)
    ensures r.Ok? ==> |r.value| <= length
  {
    var bytes :- GetBytes(Take(message, 8 * length));
    match Utf8.Decode(bytes)
    case Some(text) => Ok(text)
    case None => Err(NotUtf8)
  }

  /** check_hash: the bits left after the payload must be the 32-bit rendering
      of the CRC-32 of the data block. */
  function CheckHash(data: string, hash: string): (r: Result<(), DecodeError>)
    ensures r.Ok? <==>
      GetHash(data).Ok? && |hash| == 32 && ParseBin(hash) == Ok(GetHash(data).value)
  {
    var h :- GetHash(data);
    Pow2ThirtyTwo();
    ParseBinOfBits(32, h);
    if BitsOf(32, h) != hash then Err(WrongHash) else Ok(())
  }

  /** What Decoder(text, with_preamble) computes, or the exception it raises. */
  function DecodeFrameSpec(text: string, withPreamble: bool): Result<Decoded, DecodeError>
  {
    var coded := if withPreamble then Drop(text, 64) else text;
    var m0 :- FiveToFourSpec(coded);
    FieldsSpec(m0)
  }

  /** The fields of a frame once the line code is undone: the three header
      fields, each sliced off the front in turn. */
  function FieldsSpec(m0: string): Result<Decoded, DecodeError>
  {
    var destination :- ReadField(m0, 48);
    var m1 := Drop(m0, 48);
    var source :- ReadField(m1, 48);
    var m2 := Drop(m1, 48);
    var length :- ReadField(m2, 16);
    BodySpec(destination, source, length, Take(m0, 48) + Take(m1, 48) + Take(m2, 16), Drop(m2, 16))
  }

  /** The rest of a frame after the header: the payload, and the hash, which
      is everything after the payload and must match the data block. */
  function BodySpec(destination: nat, source: nat, length: nat, header: string, m3: string)
    : Result<Decoded, DecodeError>
  {
    var payload :- GetMessage(length, m3);
    var data := header + Take(m3, 8 * length);
    var hash := Drop(m3, 8 * length);
    var checked :- CheckHash(data, hash);
    Ok(Decoded(destination, source, length, payload, data, hash))
  }

  /** Decoder.__init__(message, with_preamble): strip the preamble, undo the
      line code, then read the fields. */
  method DecodeFrame(text: string, withPreamble: bool) returns (r: Result<Decoded, DecodeError>)
    ensures r == DecodeFrameSpec(text, withPreamble)
  {
    var message := text;
    if withPreamble {
      message := Drop(message, 8 * 8);
    }
    var nibbles := FiveToFour(message);
    if nibbles.Err? {
      return Err(nibbles.error);
    }
    r := ReadFields(nibbles.value);
  }

  /** The rest of Decoder.__init__: slice off the fields one after another
      while collecting the data block, then check the hash of what was
      collected. */
  method ReadFields(nibbles: string) returns (r: Result<Decoded, DecodeError>)
    ensures r == FieldsSpec(nibbles)
  {
    var message := nibbles;
    var data: string := [];
    var destination := ReadField(message, 6 * 8);
    if destination.Err? {
      return Err(destination.error);
    }
    data := data + Take(message, 6 * 8);
    assert data == Take(nibbles, 48);
    message := Drop(message, 6 * 8);

    var source := ReadField(message, 6 * 8);
    if source.Err? {
      return Err(source.error);
    }
    data := data + Take(message, 6 * 8);
    message := Drop(message, 6 * 8);

    var length := ReadField(message, 2 * 8);
    if length.Err? {
      return Err(length.error);
    }
    data := data + Take(message, 2 * 8);
    message := Drop(message, 2 * 8);
    assert FieldsSpec(nibbles)
      == BodySpec(destination.value, source.value, length.value, data, message);
    r := ReadBody(destination.value, source.value, length.value, data, message);
  }

  /** The end of Decoder.__init__: the payload, the hash, and the check. */
  method ReadBody(destination: nat, source: nat, length: nat, header: string, rest: string)
    returns (r: Result<Decoded, DecodeError>)
    ensures r == BodySpec(destination, source, length, header, rest)
  {
    var message := rest;
    var data := header;
    var payload := GetMessage(length, message);
    if payload.Err? {
      return Err(payload.error);
    }
    data := data + Take(message, length * 8);
    message := Drop(message, length * 8);

    var hash := message;
    var checked := CheckHash(data, hash);
    if checked.Err? {
      return Err(checked.error);
    }
    r := Ok(Decoded(destination, source, length, payload.value, data, hash));
  }

  predicate IsDigit(c: char) { '0' <= c <= '9' }

  /** str(n): decimal digits, most significant first, no leading zero. */
  function Decimal(n: nat): (r: string)
    ensures |r| > 0 && IsDigit(r[0])
    ensures forall i :: 0 <= i < |r| ==> IsDigit(r[i])
    ensures n > 0 ==> r[0] != '0'
  {
    if n < 10 then [('0' as int + n) as char]
    else Decimal(n / 10) + [('0' as int + n % 10) as char]
  }

  /** The number a text of decimal digits denotes, most significant first. */
  function DecimalValue(s: string): nat
  {
    if |s| == 0 then 0
    else
      var d := s[|s| - 1] as int - '0' as int;
      DecimalValue(s[..|s| - 1]) * 10 + (if 0 <= d then d else 0)
  }

  /** The digits str(n) prints denote n. */
  lemma {:induction false} DecimalOfValue(n: nat)
    ensures DecimalValue(Decimal(n)) == n
    decreases n
  {
    if n >= 10 {
      DecimalOfValue(n / 10);
      var r := Decimal(n);
      assert r[..|r| - 1] == Decimal(n / 10);
    }
  }

  /** Different numbers print differently. */
  lemma DecimalInjective(a: nat, b: nat)
    ensures Decimal(a) == Decimal(b) ==> a == b
  {
    DecimalOfValue(a);
    DecimalOfValue(b);
  }

  /** A digit text followed by a space and anything: the space tells where the
      digits end, so both parts are determined by the whole. */
  lemma SplitAtSpace(x1: string, t1: string, x2: string, t2: string)
    requires forall i :: 0 <= i < |x1| ==> IsDigit(x1[i])
    requires forall i :: 0 <= i < |x2| ==> IsDigit(x2[i])
    requires x1 + " " + t1 == x2 + " " + t2
    ensures x1 == x2 && t1 == t2
  {
    var w := x1 + " " + t1;
    assert w[|x1|] == ' ' && w[|x2|] == ' ';
    assert forall i :: 0 <= i < |x1| ==> w[i] != ' ';
    assert forall i :: 0 <= i < |x2| ==> w[i] != ' ';
    assert |x1| == |x2|;
    assert x1 == w[..|x1|] == x2;
    assert t1 == w[|x1| + 1..] == t2;
  }

  /** The printed triple determines the source, the destination and the
      payload. */
  lemma ShowInjective(d1: Decoded, d2: Decoded)
    requires Show(d1) == Show(d2)
    ensures d1.source == d2.source && d1.destination == d2.destination
    ensures d1.payload == d2.payload
  {
    var s1, s2 := Decimal(d1.source), Decimal(d2.source);
    var e1, e2 := Decimal(d1.destination), Decimal(d2.destination);
    assert Show(d1) == s1 + " " + (e1 + " " + d1.payload);
    assert Show(d2) == s2 + " " + (e2 + " " + d2.payload);
    SplitAtSpace(s1, e1 + " " + d1.payload, s2, e2 + " " + d2.payload);
    SplitAtSpace(e1, d1.payload, e2, d2.payload);
    DecimalInjective(d1.source, d2.source);
    DecimalInjective(d1.destination, d2.destination);
  }

  /** The text decode prints for a decoded frame: source, destination, payload. */
  function Show(d: Decoded): string
  {
    Decimal(d.source) + " " + Decimal(d.destination) + " " + d.payload
  }

  /** What Decoder.decode(text, with_preamble) returns. */
  function DecodeText(text: string, withPreamble: bool): string
  {
    match DecodeFrameSpec(text, withPreamble)
    case Ok(d) => Show(d)
    case Err(_) => NotValidMessage
  }

  /** Decoder.decode(text, with_preamble): every exception becomes
      "Not valid message."  The source's default with_preamble=True has no
      counterpart here: the flag is always passed. */
  method Decode(text: string, withPreamble: bool) returns (r: string)
    ensures r == DecodeText(text, withPreamble)
    ensures r == NotValidMessage <==> DecodeFrameSpec(text, withPreamble).Err?
  {
    var decoder := DecodeFrame(text, withPreamble);
    if decoder.Ok? {
      r := Decimal(decoder.value.source) + " " + Decimal(decoder.value.destination) + " "
        + decoder.value.payload;
    } else {
      r := NotValidMessage;
    }
    DecodeTextFails(text, withPreamble);
  }

  // ===========================================================================
  // Properties

  /** A decoded frame never prints as the failure message, so a caller can
      tell the two apart. */
  lemma DecodeTextFails(text: string, withPreamble: bool)
    ensures DecodeText(text, withPreamble) == NotValidMessage <==>
      DecodeFrameSpec(text, withPreamble).Err?
  {
    var r := DecodeFrameSpec(text, withPreamble);
    if r.Ok? {
      var shown := Show(r.value);
      assert shown[0] == Decimal(r.value.source)[0];
      assert NotValidMessage[0] == 'N';
    }
  }

  lemma Pow2ThirtyTwo()
    ensures Pow2(16) == 0x1_0000 && Pow2(32) == 0x1_0000_0000 && Pow2(48) == 0x1_0000_0000_0000
  {
    Pow2Byte();
    Pow2Add(8, 8);
    Pow2Add(16, 16);
    Pow2Add(32, 16);
  }

  /** Reading a field of width w off a string that starts with the w-bit
      rendering of x gives x modulo 2^w and leaves the rest. */
  lemma ReadFieldOfBits(width: nat, x: int, rest: string)
    requires width > 0
    ensures ReadField(BitsOf(width, x) + rest, width) == Ok(x % Pow2(width))
    ensures Take(BitsOf(width, x) + rest, width) == BitsOf(width, x)
    ensures Drop(BitsOf(width, x) + rest, width) == rest
  {
    var s := BitsOf(width, x) + rest;
    assert s[..width] == BitsOf(width, x);
    assert s[width..] == rest;
    ParseBinOfBits(width, x);
  }

  predicate IsAsciiText(p: string) { forall i :: 0 <= i < |p| ==> p[i] as int < 128 }

  /** The bytes convert_to_bits encodes: each character's code modulo 256. */
  function CharCodes(p: string): (r: seq<byte>)
    ensures |r| == |p|
  {
    seq(|p|, i requires 0 <= i < |p| => (p[i] as int) % 256)
  }

  /** The payload bits are the bit rendering of the character codes. */
  lemma {:induction false} PayloadBitsAreBytes(p: string)
    ensures PayloadBits(p) == BytesToBits(CharCodes(p))
  {
    if |p| > 0 {
      var pre := p[..|p| - 1];
      PayloadBitsAreBytes(pre);
      assert CharCodes(p)[..|p| - 1] == CharCodes(pre);
      BitsOfMod(8, p[|p| - 1] as int);
      Pow2Byte();
    }
  }

  /** get_message recovers a non-empty ASCII payload from its bits, whatever follows. */
  lemma GetMessageOfPayload(p: string, rest: string)
    requires 0 < |p| && IsAsciiText(p)
    ensures GetMessage(|p|, PayloadBits(p) + rest) == Ok(p)
    ensures Take(PayloadBits(p) + rest, 8 * |p|) == PayloadBits(p)
    ensures Drop(PayloadBits(p) + rest, 8 * |p|) == rest
  {
    var bits := PayloadBits(p);
    assert (bits + rest)[..8 * |p|] == bits;
    assert (bits + rest)[8 * |p|..] == rest;
    PayloadBitsAreBytes(p);
    GetBytesOfBytesToBits(CharCodes(p));
    var codes := CharCodes(p);
    forall i | 0 <= i < |p| ensures codes[i] == p[i] as int {
      DivModUnique(p[i] as int, 256, 0, p[i] as int);
    }
    Utf8.DecodeAscii(codes);
    var text := Utf8.Decode(codes).value;
    forall i | 0 <= i < |p| ensures text[i] == p[i] {
      assert text[i] == codes[i] as char;
    }
    assert text == p;
  }

  /** The part after the header decodes, for a non-empty ASCII payload
      followed by the hash of header and payload. */
  lemma BodyOfPayload(destination: nat, source: nat, header: string, payload: string)
    requires |header| == 112 && IsBinary(header)
    requires 0 < |payload| && IsAsciiText(payload)
    ensures var data := header + PayloadBits(payload);
      BodySpec(destination, source, |payload|, header, PayloadBits(payload) + HashBits(data))
        == Ok(Decoded(destination, source, |payload|, payload, data, HashBits(data)))
  {
    var p := PayloadBits(payload);
    BinaryAppend(header, p);
    DivModUnique(|header + p|, 8, 14 + |payload|, 0);
    var data := header + p;
    var h := HashBits(data);
    GetMessageOfPayload(payload, h);
    FrameHashChecks(data);
  }

  /** The header of a data block reads back as the addresses (modulo 2^48,
      since get_bits keeps the low 48 bits) and the payload length. */
  lemma FieldsOfData(source: int, destination: int, payload: string, rest: string)
    requires |payload| < Pow2(16)
    ensures var header := BitsOf(48, destination) + BitsOf(48, source) + BitsOf(16, |payload|);
      FieldsSpec(header + rest) ==
        BodySpec(destination % Pow2(48), source % Pow2(48), |payload|, header, rest)
  {
    var a, b, c := BitsOf(48, destination), BitsOf(48, source), BitsOf(16, |payload|);
    AppendAssoc(a, b, c, rest);
    ReadFieldOfBits(48, destination, b + (c + rest));
    ReadFieldOfBits(48, source, c + rest);
    ReadFieldOfBits(16, |payload|, rest);
    DivModUnique(|payload|, Pow2(16), 0, |payload|);
  }

  /** Stripping the preamble and undoing the line code of an encoded frame
      gives back the data block followed by its checksum bits. */
  lemma FrameLineCode(source: int, destination: int, payload: string)
    ensures var data := DataBits(source, destination, payload);
      DecodeFrameSpec(FrameBits(source, destination, payload), true) == FieldsSpec(data + HashBits(data))
  {
    var data := DataBits(source, destination, payload);
    var h := HashBits(data);
    FrameTail(source, destination, payload);
    BinaryAppend(data, h);
    DivModUnique(|data + h|, 4, 36 + 2 * |payload|, 0);
    FiveToFourOfFourToFive(data + h);
  }

  /** Decoding an encoded frame recovers the fields, each address modulo 2^48,
      for any payload of one to 65535 ASCII characters; the data block and
      hash are the ones the encoder sent. */
  lemma DecodeEncoded(source: int, destination: int, payload: string)
    requires 0 < |payload| < 0x1_0000 && IsAsciiText(payload)
    ensures var data := DataBits(source, destination, payload);
      DecodeFrameSpec(FrameBits(source, destination, payload), true) ==
        Ok(Decoded(destination % 0x1_0000_0000_0000, source % 0x1_0000_0000_0000, |payload|,
                   payload, data, HashBits(data)))
  {
    var a, b, c := BitsOf(48, destination), BitsOf(48, source), BitsOf(16, |payload|);
    var header := a + b + c;
    var data := DataBits(source, destination, payload);
    var h := HashBits(data);
    assert data == header + PayloadBits(payload);
    FrameLineCode(source, destination, payload);
    AppendAssoc(header, PayloadBits(payload), h, []);
    Pow2ThirtyTwo();
    FieldsOfData(source, destination, payload, PayloadBits(payload) + h);
    BinaryAppend(a, b);
    BinaryAppend(a + b, c);
    BodyOfPayload(destination % 0x1_0000_0000_0000, source % 0x1_0000_0000_0000, header, payload);
  }

  lemma FrameHashChecks(data: string)
    requires |data| > 0 && IsBinary(data) && |data| % 8 == 0
    ensures CheckHash(data, HashBits(data)) == Ok(())
  {
  }

  /** The round trip: Decoder.decode(Encoder.encode(s, d, p)) prints
      "s d p" for 48-bit addresses and a payload of 1 to 65535 ASCII
      characters. */
  lemma RoundTrip(source: nat, destination: nat, payload: string)
    requires source < 0x1_0000_0000_0000 && destination < 0x1_0000_0000_0000
    requires 0 < |payload| < 0x1_0000 && IsAsciiText(payload)
    ensures DecodeText(FrameBits(source, destination, payload), true) ==
      Decimal(source) + " " + Decimal(destination) + " " + payload
  {
    DecodeEncoded(source, destination, payload);
    DivModUnique(source, 0x1_0000_0000_0000, 0, source);
    DivModUnique(destination, 0x1_0000_0000_0000, 0, destination);
  }

  /** An example: source 0, destination 1, payload "hi". */
  lemma HiRoundTrip(source: nat, destination: nat, payload: string)
    requires source == 0 && destination == 1 && payload == "hi"
    ensures DecodeText(FrameBits(source, destination, payload), true) == "0 1 hi"
  {
    assert IsAsciiText(payload) by {
      assert payload[0] == 'h' && payload[1] == 'i';
    }
    RoundTrip(source, destination, payload);
    HiText(source, destination, payload);
  }

  lemma HiText(source: nat, destination: nat, payload: string)
    requires source == 0 && destination == 1 && payload == "hi"
    ensures Decimal(source) + " " + Decimal(destination) + " " + payload == "0 1 hi"
  {
    assert Decimal(source) == "0" && Decimal(destination) == "1";
  }

  /** An empty payload does not survive the trip: get_message(0, ...) calls
      int('', 2), which raises. */
  lemma EmptyPayloadRejected(source: int, destination: int)
    ensures DecodeFrameSpec(FrameBits(source, destination, ""), true) == Err(NotANumber)
    ensures DecodeText(FrameBits(source, destination, ""), true) == NotValidMessage
  {
    var header := BitsOf(48, destination) + BitsOf(48, source) + BitsOf(16, 0);
    var data := DataBits(source, destination, "");
    assert data == header + [];
    assert data == header;
    FrameLineCode(source, destination, "");
    Pow2ThirtyTwo();
    FieldsOfData(source, destination, "", HashBits(data));
    assert GetMessage(0, HashBits(data)) == Err(NotANumber);
    DecodeTextFails(FrameBits(source, destination, ""), true);
  }

  /** Bits appended to an encoded frame make it invalid: either they are no
      whole number of code-groups, or they decode to nibbles that land after
      the checksum, so the hash field is longer than 32 bits. */
  lemma TrailingBitsRejected(source: int, destination: int, payload: string, extra: string)
    requires 0 < |payload| < 0x1_0000 && IsAsciiText(payload) && |extra| > 0
    ensures DecodeFrameSpec(FrameBits(source, destination, payload) + extra, true).Err?
    ensures DecodeText(FrameBits(source, destination, payload) + extra, true) == NotValidMessage
  {
    var f := FrameBits(source, destination, payload);
    TrailingLineCode(source, destination, payload, extra);
    var tail := FiveToFourSpec(extra);
    if tail.Ok? {
      var y := tail.value;
      var groups := |extra| / 5;
      DivModUnique(|extra|, 5, groups, 0);
      assert groups >= 1;
      assert |y| == 4 * groups;
      var data := DataBits(source, destination, payload);
      var h := HashBits(data);
      var a, b, c := BitsOf(48, destination), BitsOf(48, source), BitsOf(16, |payload|);
      var header := a + b + c;
      var p := PayloadBits(payload);
      assert data == header + p;
      AppendAssoc(header, p, h, y);
      Pow2ThirtyTwo();
      FieldsOfData(source, destination, payload, p + (h + y));
      GetMessageOfPayload(payload, h + y);
      assert CheckHash(header + p, h + y).Err?;
    }
    DecodeTextFails(f + extra, true);
  }

  /** Undoing the line code of an encoded frame with bits appended: the data
      block and checksum, then whatever the appended bits decode to. */
  lemma TrailingLineCode(source: int, destination: int, payload: string, extra: string)
    ensures var f := FrameBits(source, destination, payload);
      var data := DataBits(source, destination, payload);
      DecodeFrameSpec(f + extra, true) ==
        match FiveToFourSpec(extra)
        case Ok(y) => FieldsSpec(data + HashBits(data) + y)
        case Err(e) => Err(e)
  {
    var f := FrameBits(source, destination, payload);
    var data := DataBits(source, destination, payload);
    var h := HashBits(data);
    FrameTail(source, destination, payload);
    DropAppend(f, extra, 64);
    BinaryAppend(data, h);
    DivModUnique(|data + h|, 4, 36 + 2 * |payload|, 0);
    var coded := FourToFiveSpec(data + h);
    FiveToFourOfFourToFive(data + h);
    FiveToFourAppend(coded, extra);
    match FiveToFourSpec(extra)
    case Ok(y) => assert FiveToFourSpec(coded + extra) == Ok(data + h + y);
    case Err(e) => assert FiveToFourSpec(coded + extra) == Err(e);
  }

  /** Decoding with the preamble is decoding what follows the first 64 bits
      without it. */
  lemma DecodeWithoutPreamble(text: string)
    requires |text| >= 64
    ensures DecodeText(text, true) == DecodeText(text[64..], false)
  {
    assert Drop(text, 64) == text[64..];
  }

  /** Decoding fails when the line-coded part is not a whole number of
      code-groups: a five-bit group that is no codeword, or a short last group. */
  lemma BadLineCodeRejected(text: string, withPreamble: bool)
    requires var coded := if withPreamble then Drop(text, 64) else text;
      (exists k :: 0 <= k < |coded| / 5 && Group(coded, k) !in DecodingTable)
      || |coded| % 5 != 0
    ensures DecodeFrameSpec(text, withPreamble).Err?
    ensures DecodeText(text, withPreamble) == NotValidMessage
  {
    var coded := if withPreamble then Drop(text, 64) else text;
    FiveToFourSucceeds(coded);
    DecodeTextFails(text, withPreamble);
  }
}
