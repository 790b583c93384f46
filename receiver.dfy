/** The listening side of receiver.py.

    The receiver turns each audio reading into a frequency (left out here: the
    readings are given as a sequence of frequencies in hertz).  A frequency
    within the accepted margin of one of the two tones is a bit; the first
    such bit starts the preamble, the preamble ends at the first "11" after
    more than ten bits, and from then on every bit is kept.  The first reading
    outside both windows, once some bits have been collected, ends the frame:
    the kept bits are decoded without a preamble. */
module Rx {
  import opened Binary
  import EthernetFrame

  /** The two tones and the accepted margin (FREQ_ZERO, FREQ_ONE and
      ACCEPTED_MARGIN, which are given by the configuration). */
  datatype Tones = Tones(freqZero: int, freqOne: int, margin: int)

  function Abs(x: int): nat { if x < 0 then -x else x }

  /** in_range: the frequency lies in the window around either tone, both
      ends included. */
  function InRange(t: Tones, hertz: int): (r: bool)
    ensures r <==> Abs(hertz - t.freqZero) <= t.margin || Abs(hertz - t.freqOne) <= t.margin
  {
    (t.freqZero - t.margin <= hertz <= t.freqZero + t.margin)
    || (t.freqOne - t.margin <= hertz <= t.freqOne + t.margin)
  }

  /** hertz_to_bit: '0' in the low window (which wins where the windows
      overlap), '1' everywhere else. */
  function HertzToBit(t: Tones, hertz: int): (r: char)
    ensures IsBit(r)
    ensures r == '0' <==> Abs(hertz - t.freqZero) <= t.margin
    ensures r == '1' && InRange(t, hertz) ==> Abs(hertz - t.freqOne) <= t.margin
  {
    if t.freqZero - t.margin <= hertz <= t.freqZero + t.margin then '0' else '1'
  }

  /** For two windows that neither touch nor overlap: each tone maps to its
      own bit, both window edges are accepted, and one hertz beyond either
      outer edge is rejected. */
  lemma ToneWindows(t: Tones)
    requires 0 <= t.margin && t.freqZero + t.margin + 1 < t.freqOne - t.margin
    ensures HertzToBit(t, t.freqZero) == '0' && HertzToBit(t, t.freqOne) == '1'
    ensures InRange(t, t.freqZero - t.margin) && InRange(t, t.freqZero + t.margin)
    ensures InRange(t, t.freqOne - t.margin) && InRange(t, t.freqOne + t.margin)
    ensures !InRange(t, t.freqZero - t.margin - 1) && !InRange(t, t.freqZero + t.margin + 1)
    ensures !InRange(t, t.freqOne - t.margin - 1) && !InRange(t, t.freqOne + t.margin + 1)
  {
  }

  /** The receiver's fields, as a value. */
  datatype RxState = RxState(synced: bool, bits: string, preambleStarted: bool, preambleEnded: bool)

  const Init: RxState := RxState(false, [], false, false)

  /** The buffer that ends the preamble: more than ten bits, the last two 1. */
  predicate Closing(bits: string)
  {
    |bits| > 10 && bits[|bits| - 1] == '1' && bits[|bits| - 2] == '1'
  }

  /** handle_syncing_player, as far as the receiver's fields go. */
  function SyncStep(s: RxState, bit: char): RxState
  {
    if !s.synced && bit == '1' then s.(synced := true) else s
  }

  /** handle_preamble */
  function PreambleStep(s: RxState): RxState
  {
    if !s.preambleStarted then s.(preambleStarted := true)
    else if !s.preambleEnded && Closing(s.bits) then s.(preambleEnded := true, bits := [])
    else s
  }

  /** The body of listen's loop for a reading in range: sync, preamble, then
      append the bit. */
  function Step(t: Tones, s: RxState, hertz: int): (r: RxState)
    requires InRange(t, hertz)
    ensures var b := HertzToBit(t, hertz);
      && (r.synced <==> s.synced || b == '1')
      && r.preambleStarted
      && (s.preambleEnded ==> r.preambleEnded)
      && (!s.preambleEnded && r.preambleEnded <==>
            s.preambleStarted && !s.preambleEnded && Closing(s.bits))
      && r.bits == if !s.preambleEnded && r.preambleEnded then [b] else s.bits + [b]
  {
    var b := HertzToBit(t, hertz);
    var s1 := PreambleStep(SyncStep(s, b));
    s1.(bits := s1.bits + [b])
  }

  /** A reading that ends listening: out of range, with bits collected. */
  predicate Stops(t: Tones, s: RxState, hertz: int)
  {
    !InRange(t, hertz) && |s.bits| > 0
  }

  /** The state after a reading that does not end listening: out-of-range
      readings before any bit change nothing. */
  function Absorb(t: Tones, s: RxState, hertz: int): RxState
  {
    if InRange(t, hertz) then Step(t, s, hertz) else s
  }

  /** The state after absorbing every reading in turn. */
  function Run(t: Tones, s: RxState, readings: seq<int>): RxState
    decreases |readings|
  {
    if |readings| == 0 then s else Run(t, Absorb(t, s, readings[0]), readings[1..])
  }

  /** None of the readings ends listening, started from `s`. */
  predicate NoStop(t: Tones, s: RxState, readings: seq<int>)
    decreases |readings|
  {
    |readings| == 0
    || (!Stops(t, s, readings[0]) && NoStop(t, Absorb(t, s, readings[0]), readings[1..]))
  }

  /** The bits of the readings that are in range. */
  function Demodulated(t: Tones, readings: seq<int>): (r: string)
    ensures |r| <= |readings| && IsBinary(r)
    decreases |readings|
  {
    if |readings| == 0 then []
    else
      var rest := Demodulated(t, readings[1..]);
      if InRange(t, readings[0]) then
        BinaryAppend([HertzToBit(t, readings[0])], rest);
        [HertzToBit(t, readings[0])] + rest
      else rest
  }

  /** How listen ends: the readings ran out while it was still listening
      (the program would block for more), or it printed the decoded text. */
  datatype Outcome = StillListening | Heard(text: string)

  /** The state and outcome of listen over `readings`, started from `s`. */
  function Listening(t: Tones, s: RxState, readings: seq<int>): (RxState, Outcome)
    decreases |readings|
  {
    if |readings| == 0 then (s, StillListening)
    else if Stops(t, s, readings[0]) then (s, Heard(EthernetFrame.DecodeText(s.bits, false)))
    else Listening(t, Absorb(t, s, readings[0]), readings[1..])
  }

  class Receiver {
    const tones: Tones
    var synced: bool
    var bits: string
    var preambleEnded: bool
    var preambleStarted: bool

    function State(): RxState
      reads this
    {
      RxState(synced, bits, preambleStarted, preambleEnded)
    }

    /** Receiver.__init__: not synced, no bits, no preamble seen. */
    constructor(tones: Tones)
      ensures this.tones == tones && State() == Init
    {
      this.tones := tones;
      synced := false;
      bits := [];
      preambleEnded := false;
      preambleStarted := false;
    }

    /** handle_syncing_player: the first 1 marks the receiver synced (the
        clock alignment sync_player does is not modelled). */
    method HandleSyncingPlayer(hertz: int)
      modifies this
      ensures State() == SyncStep(old(State()), HertzToBit(tones, hertz))
    {
      if !synced && HertzToBit(tones, hertz) == '1' {
        synced := true;
      }
    }

    /** handle_preamble */
    method HandlePreamble()
      modifies this
      ensures State() == PreambleStep(old(State()))
    {
      if !preambleStarted {
        preambleStarted := true;
      } else if !preambleEnded && |bits| > 10 && bits[|bits| - 1] == '1' && bits[|bits| - 2] == '1' {
        preambleEnded := true;
        bits := [];
      }
    }

    /** listen, over the frequencies of the readings it takes in turn. */
    method Listen(readings: seq<int>) returns (outcome: Outcome)
      modifies this
      ensures (State(), outcome) == Listening(tones, old(State()), readings)
    {
      var i := 0;
      while i < |readings|
        invariant 0 <= i <= |readings|
        invariant Listening(tones, old(State()), readings) == Listening(tones, State(), readings[i..])
      {
        var hertz := readings[i];
        assert readings[i..][1..] == readings[i + 1..];
        if InRange(tones, hertz) {
          HandleSyncingPlayer(hertz);
          HandlePreamble();
          bits := bits + [HertzToBit(tones, hertz)];
        } else if |bits| > 0 {
          var text := EthernetFrame.Decode(bits, false);
          return Heard(text);
        }
        i := i + 1;
      }
      return StillListening;
    }
  }

  // ===========================================================================
  // Properties

  /** Absorbing two runs of readings one after the other. */
  lemma {:induction false} RunAppend(t: Tones, s: RxState, a: seq<int>, b: seq<int>)
    ensures Run(t, s, a + b) == Run(t, Run(t, s, a), b)
    ensures NoStop(t, s, a + b) <==> NoStop(t, s, a) && NoStop(t, Run(t, s, a), b)
    decreases |a|
  {
    if |a| == 0 {
      assert a + b == b;
    } else {
      assert (a + b)[0] == a[0];
      assert (a + b)[1..] == a[1..] + b;
      RunAppend(t, Absorb(t, s, a[0]), a[1..], b);
    }
  }

  /** listen stops at the first reading that is out of range once bits have
      been collected, and decodes exactly those bits, without a preamble. */
  lemma {:induction false} ListeningStops(t: Tones, s: RxState, readings: seq<int>, k: nat)
    requires k < |readings| && NoStop(t, s, readings[..k])
    requires Stops(t, Run(t, s, readings[..k]), readings[k])
    ensures var final := Run(t, s, readings[..k]);
      Listening(t, s, readings) == (final, Heard(EthernetFrame.DecodeText(final.bits, false)))
    decreases k
  {
    if k > 0 {
      assert readings[..k][0] == readings[0];
      assert readings[..k][1..] == readings[1..][..k - 1];
      ListeningStops(t, Absorb(t, s, readings[0]), readings[1..], k - 1);
    }
  }

  /** listen keeps listening while no reading ends it. */
  lemma {:induction false} ListeningContinues(t: Tones, s: RxState, readings: seq<int>)
    requires NoStop(t, s, readings)
    ensures Listening(t, s, readings) == (Run(t, s, readings), StillListening)
    decreases |readings|
  {
    if |readings| > 0 {
      ListeningContinues(t, Absorb(t, s, readings[0]), readings[1..]);
    }
  }

  /** synced becomes true at the first 1 and stays true. */
  lemma {:induction false} RunSynced(t: Tones, s: RxState, readings: seq<int>)
    ensures Run(t, s, readings).synced <==>
      s.synced || exists i :: 0 <= i < |readings| && InRange(t, readings[i]) && HertzToBit(t, readings[i]) == '1'
    decreases |readings|
  {
    if |readings| > 0 {
      var rest := readings[1..];
      RunSynced(t, Absorb(t, s, readings[0]), rest);
      forall i | 0 <= i < |rest| ensures rest[i] == readings[i + 1] { }
      if exists i :: 0 <= i < |readings| && InRange(t, readings[i]) && HertzToBit(t, readings[i]) == '1' {
        var i :| 0 <= i < |readings| && InRange(t, readings[i]) && HertzToBit(t, readings[i]) == '1';
        if i > 0 {
          assert InRange(t, rest[i - 1]) && HertzToBit(t, rest[i - 1]) == '1';
        }
      }
    }
  }

  /** The preamble starts at the first reading in range and stays started. */
  lemma {:induction false} RunStarted(t: Tones, s: RxState, readings: seq<int>)
    ensures Run(t, s, readings).preambleStarted <==>
      s.preambleStarted || exists i :: 0 <= i < |readings| && InRange(t, readings[i])
    decreases |readings|
  {
    if |readings| > 0 {
      var rest := readings[1..];
      RunStarted(t, Absorb(t, s, readings[0]), rest);
      forall i | 0 <= i < |rest| ensures rest[i] == readings[i + 1] { }
      if exists i :: 0 <= i < |readings| && InRange(t, readings[i]) {
        var i :| 0 <= i < |readings| && InRange(t, readings[i]);
        if i > 0 {
          assert InRange(t, rest[i - 1]);
        }
      }
    }
  }

  /** Once the preamble has ended it never ends again and the buffer is
      never cleared again: every later bit is appended to it. */
  lemma {:induction false} RunAfterPreamble(t: Tones, s: RxState, readings: seq<int>)
    requires s.preambleEnded
    ensures Run(t, s, readings).preambleEnded
    ensures Run(t, s, readings).bits == s.bits + Demodulated(t, readings)
    decreases |readings|
  {
    if |readings| > 0 {
      var next := Absorb(t, s, readings[0]);
      RunAfterPreamble(t, next, readings[1..]);
      if InRange(t, readings[0]) {
        assert next.bits == s.bits + [HertzToBit(t, readings[0])];
      }
    }
  }

  /** The very first reading in range only starts the preamble, and its bit
      becomes the first bit of the buffer. */
  lemma FirstToneStartsPreamble(t: Tones, hertz: int)
    requires InRange(t, hertz)
    ensures var b := HertzToBit(t, hertz);
      Step(t, Init, hertz) == RxState(b == '1', [b], true, false)
  {
  }

  /** When the preamble ends, the buffer holds just the bit that arrived
      with the ending reading. */
  lemma PreambleEndKeepsTrigger(t: Tones, s: RxState, hertz: int)
    requires InRange(t, hertz) && s.preambleStarted && !s.preambleEnded && Closing(s.bits)
    ensures Step(t, s, hertz).preambleEnded && Step(t, s, hertz).bits == [HertzToBit(t, hertz)]
  {
  }

  // ---------------------------------------------------------------------------
  // Receiving a frame

  /** The readings carry the bits of `frame`, one tone per bit. */
  predicate Carries(t: Tones, readings: seq<int>, frame: string)
  {
    |frame| <= |readings|
    && forall i :: 0 <= i < |frame| ==> InRange(t, readings[i]) && HertzToBit(t, readings[i]) == frame[i]
  }

  /** The 64 bits that open a frame: 62 alternating bits starting with 1,
      then 11. */
  predicate FrameHeader(frame: string)
  {
    |frame| >= 64
    && (forall i :: 0 <= i < 62 ==> frame[i] == if i % 2 == 0 then '1' else '0')
    && frame[62] == '1' && frame[63] == '1'
  }

  lemma RunSnoc(t: Tones, s: RxState, readings: seq<int>, k: nat)
    requires k < |readings|
    ensures Run(t, s, readings[..k + 1]) == Absorb(t, Run(t, s, readings[..k]), readings[k])
    ensures NoStop(t, s, readings[..k + 1]) <==>
      NoStop(t, s, readings[..k]) && !Stops(t, Run(t, s, readings[..k]), readings[k])
  {
    assert readings[..k + 1] == readings[..k] + [readings[k]];
    RunAppend(t, s, readings[..k], [readings[k]]);
    assert [readings[k]][1..] == [];
  }

  /** No prefix of the first 63 bits of a frame closes the preamble. */
  lemma PreambleOpen(frame: string, n: nat)
    requires FrameHeader(frame) && n <= 63
    ensures !Closing(frame[..n])
  {
    if n > 10 {
      var i := n - 2;
      assert frame[..n][i + 1] == frame[i + 1] && frame[..n][i] == frame[i];
      if i % 2 == 0 {
        DivModUnique(i + 1, 2, i / 2, 1);
      } else {
        DivModUnique(i + 1, 2, i / 2 + 1, 0);
      }
    }
  }

  /** During the preamble of a frame the buffer holds every bit so far. */
  lemma {:induction false} PreambleRun(t: Tones, readings: seq<int>, frame: string, k: nat)
    requires FrameHeader(frame) && Carries(t, readings, frame) && 1 <= k <= 64
    ensures Run(t, Init, readings[..k]) == RxState(true, frame[..k], true, false)
    ensures NoStop(t, Init, readings[..k])
  {
    RunSnoc(t, Init, readings, k - 1);
    if k == 1 {
      assert readings[..0] == [];
      FirstToneStartsPreamble(t, readings[0]);
      assert frame[..1] == [frame[0]];
    } else {
      PreambleRun(t, readings, frame, k - 1);
      PreambleOpen(frame, k - 1);
      assert frame[..k] == frame[..k - 1] + [frame[k - 1]];
    }
  }

  /** After the preamble of a frame the buffer holds the bits after the
      first 64. */
  lemma {:induction false} BodyRun(t: Tones, readings: seq<int>, frame: string, k: nat)
    requires FrameHeader(frame) && Carries(t, readings, frame) && 65 <= k <= |frame|
    ensures Run(t, Init, readings[..k]) == RxState(true, frame[64..k], true, true)
    ensures NoStop(t, Init, readings[..k])
  {
    RunSnoc(t, Init, readings, k - 1);
    if k == 65 {
      PreambleRun(t, readings, frame, 64);
      var s := RxState(true, frame[..64], true, false);
      assert s.bits[63] == '1' && s.bits[62] == '1';
      PreambleEndKeepsTrigger(t, s, readings[64]);
      assert frame[64..65] == [frame[64]];
    } else {
      BodyRun(t, readings, frame, k - 1);
      assert frame[64..k] == frame[64..k - 1] + [frame[k - 1]];
    }
  }

  /** A frame carried tone by tone and followed by silence is decoded as if
      the whole frame, preamble included, had been handed to the decoder. */
  lemma ReceiveFrame(t: Tones, readings: seq<int>, frame: string)
    requires FrameHeader(frame) && |frame| > 64 && Carries(t, readings, frame)
    requires |frame| < |readings| && !InRange(t, readings[|frame|])
    ensures Listening(t, Init, readings).1 == Heard(EthernetFrame.DecodeText(frame, true))
  {
    BodyRun(t, readings, frame, |frame|);
    var final := RxState(true, frame[64..|frame|], true, true);
    assert final.bits == frame[64..];
    ListeningStops(t, Init, readings, |frame|);
    EthernetFrame.DecodeWithoutPreamble(frame);
  }

  /** The end-to-end promise: the tones of an encoded frame, then silence,
      make listen print "source destination payload". */
  lemma ReceiveEncoded(t: Tones, readings: seq<int>, source: nat, destination: nat, payload: string)
    requires source < 0x1_0000_0000_0000 && destination < 0x1_0000_0000_0000
    requires 0 < |payload| < 0x1_0000 && EthernetFrame.IsAsciiText(payload)
    requires var frame := EthernetFrame.FrameBits(source, destination, payload);
      Carries(t, readings, frame) && |frame| < |readings| && !InRange(t, readings[|frame|])
    ensures Listening(t, Init, readings).1 == Heard(EthernetFrame.Decimal(source) + " "
      + EthernetFrame.Decimal(destination) + " " + payload)
  {
    var frame := EthernetFrame.FrameBits(source, destination, payload);
    EthernetFrame.FrameLayout(source, destination, payload);
    ReceiveFrame(t, readings, frame);
    EthernetFrame.RoundTrip(source, destination, payload);
  }
}
