/** bytes.decode() with its defaults: strict UTF-8.  A byte string decodes when
    it is a sequence of well-formed UTF-8 byte sequences (Table 3-7 of the
    Unicode Standard, chapter 3: no overlong forms, no surrogates, nothing above
    U+10FFFF); any other byte string raises. */
module Utf8 {
  import opened Wrappers
  import opened Binary

  predicate IsContinuation(b: byte) { 0x80 <= b <= 0xBF }

  /** The first scalar value of `bs` and the number of bytes it takes, if the
      bytes at the front are a well-formed sequence. */
  function DecodeOne(bs: seq<byte>): (r: Option<(char, nat)>)
    requires |bs| > 0
    ensures r.Some? ==> 1 <= r.value.1 <= |bs| && r.value.1 <= 4
    ensures r.Some? && r.value.1 == 1 <==> bs[0] < 0x80
  {
    var b0: int := bs[0];
    if b0 < 0x80 then
      Some((b0 as char, 1))
    else if 0xC2 <= b0 <= 0xDF then
      if |bs| >= 2 && IsContinuation(bs[1]) then
        Some((((b0 - 0xC0) * 64 + (bs[1] as int - 0x80)) as char, 2))
      else None
    else if 0xE0 <= b0 <= 0xEF then
      if |bs| >= 3 && IsContinuation(bs[2])
         && (if b0 == 0xE0 then 0xA0 <= bs[1] <= 0xBF
             else if b0 == 0xED then 0x80 <= bs[1] <= 0x9F
             else IsContinuation(bs[1]))
      then
        Some((((b0 - 0xE0) * 4096 + (bs[1] as int - 0x80) * 64 + (bs[2] as int - 0x80)) as char, 3))
      else None
    else if 0xF0 <= b0 <= 0xF4 then
      if |bs| >= 4 && IsContinuation(bs[2]) && IsContinuation(bs[3])
         && (if b0 == 0xF0 then 0x90 <= bs[1] <= 0xBF
             else if b0 == 0xF4 then 0x80 <= bs[1] <= 0x8F
             else IsContinuation(bs[1]))
      then
        Some((((b0 - 0xF0) * 262144 + (bs[1] as int - 0x80) * 4096 + (bs[2] as int - 0x80) * 64
               + (bs[3] as int - 0x80)) as char, 4))
      else None
    else None
  }

  /** The text a byte string decodes to, or None where decode() raises. */
  function Decode(bs: seq<byte>): (r: Option<string>)
    ensures r.Some? ==> |r.value| <= |bs|
    decreases |bs|
  {
    if |bs| == 0 then Some([])
    else
      var first :- DecodeOne(bs);
      var rest :- Decode(bs[first.1..]);
      Some([first.0] + rest)
  }

  predicate IsAscii(bs: seq<byte>) { forall i :: 0 <= i < |bs| ==> bs[i] < 0x80 }

  /** An all-ASCII byte string decodes to the characters with those codes. */
  lemma {:induction false} DecodeAscii(bs: seq<byte>)
    requires IsAscii(bs)
    ensures Decode(bs).Some? && |Decode(bs).value| == |bs|
    ensures forall i :: 0 <= i < |bs| ==> Decode(bs).value[i] == bs[i] as char
  {
    if |bs| > 0 {
      DecodeAscii(bs[1..]);
      assert DecodeOne(bs) == Some((bs[0] as char, 1));
      var rest := Decode(bs[1..]).value;
      assert Decode(bs).value == [bs[0] as char] + rest;
      forall i | 0 < i < |bs| ensures Decode(bs).value[i] == bs[i] as char {
        assert rest[i - 1] == bs[1..][i - 1] as char;
      }
    }
  }
}
