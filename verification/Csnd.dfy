/** The CSND hardware of csnd.cpp: 32 channels that register writes and rendering update in place, in any order. */
module Csnd {
  import opened Words
  import opened CsndChannel
  import opened CsndTimer
  import opened CsndMixer

  const NUM_CHANNELS: nat := 32

  /** Every channel moved on by `n` output samples. */
  function Advanced(mem: Memory, cs: seq<Channel>, n: nat): (ds: seq<Channel>)
    requires AllSound(cs)
    ensures |ds| == |cs|
  {
    seq(|cs|, i requires 0 <= i < |cs| => assert Sound(cs[i]); TickN(mem, cs[i], n))
  }

  lemma {:induction false} TicksKeep(mem: Memory, c: Channel, n: nat)
    requires Sound(c)
    ensures Sound(TickN(mem, c, n))
  {
    hide Tick;
    if n > 0 {
      TicksKeep(mem, c, n - 1);
      TickKeeps(mem, TickN(mem, c, n - 1));
    }
  }

  lemma AdvancedKeeps(mem: Memory, cs: seq<Channel>, n: nat)
    requires AllSound(cs)
    ensures AllSound(Advanced(mem, cs, n))
  {
    hide Sound, TickN;
    forall i | 0 <= i < |cs| ensures Sound(Advanced(mem, cs, n)[i]) {
      TicksKeep(mem, cs[i], n);
    }
  }

  class Csnd {
    const channels: array<Channel>
    var masterVolume: nat

    ghost predicate Valid()
      reads this, channels
    {
      channels.Length == NUM_CHANNELS && masterVolume <= MAX_VOLUME && AllSound(channels[..])
    }

    constructor ()
      ensures Valid() && fresh(channels) && masterVolume == 0x8000
      ensures forall i :: 0 <= i < NUM_CHANNELS ==> channels[i] == SILENT
    {
      channels := new Channel[NUM_CHANNELS](i => SILENT);
      masterVolume := 0x8000;
    }

    // -------------------------------------------------------------- register writes

    method StartChannel(i: nat)
      requires i < channels.Length
      modifies channels
      ensures channels[..] == old(channels[..])[i := Start(old(channels[i]))]
    {
      var c := channels[i];
      channels[i] := c.(blockAddress := c.startAddress, blockSize := c.size);
      channels[i] := channels[i].(position := 0, highNibble := false, holding := false);
      channels[i] := channels[i].(counter := 0, previous := 0, current := 0);
      channels[i] := channels[i].(predictor := StatePredictor(c.adpcmState), index := StateIndex(c.adpcmState));
    }

    method StopChannel(i: nat)
      requires i < channels.Length && channels[i].index <= 88
      modifies channels
      ensures channels[..] == old(channels[..])[i := Stop(old(channels[i]))]
    {
      var c := channels[i];
      channels[i] := c.(adpcmState := PackState(c.predictor, c.index));
      channels[i] := channels[i].(cnt := c.cnt.(enable := false));
    }

    method SetCnt(i: nat, v: U16)
      requires Valid() && i < NUM_CHANNELS
      modifies channels
      ensures Valid() && channels[..] == old(channels[..])[i := WriteCnt(old(channels[i]), v)]
    {
      WriteCntKeeps(channels[i], v);
      ghost var was := channels[..];
      var enabled := channels[i].cnt.enable;
      var value := CntOf(v);
      channels[i] := channels[i].(cnt := value);
      if !enabled && value.enable {
        StartChannel(i);
      } else if enabled && !value.enable {
        StopChannel(i);
        channels[i] := channels[i].(holding := false);
      }
      if !value.hold {
        channels[i] := channels[i].(holding := false);
      }
      SoundUpdate(was, i, channels[i]);
      assert channels[..] == was[i := channels[i]];
    }

    /** Reading CNT gives a value whose fields are those of the register. */
    method GetCnt(i: nat) returns (v: U16)
      requires Valid() && i < NUM_CHANNELS
      ensures CntOf(v) == channels[i].cnt
    {
      assert Sound(channels[..][i]);
      FieldsRoundTrip(channels[i].cnt);
      v := CntValue(channels[i].cnt);
    }

    method SetTimer(i: nat, v: U16)
      requires Valid() && i < NUM_CHANNELS
      modifies channels
      ensures Valid() && channels[..] == old(channels[..])[i := old(channels[i]).(timer := v)]
    {
      ghost var was := channels[..];
      channels[i] := channels[i].(timer := v);
      SoundUpdate(was, i, channels[i]);
    }

    method SetVolume(i: nat, left: U16, right: U16)
      requires Valid() && i < NUM_CHANNELS
      modifies channels
      ensures Valid()
      ensures channels[..] == old(channels[..])[i := old(channels[i]).(volumeLeft := ClampVolume(left),
              volumeRight := ClampVolume(right))]
    {
      ghost var was := channels[..];
      channels[i] := channels[i].(volumeLeft := ClampVolume(left), volumeRight := ClampVolume(right));
      SoundUpdate(was, i, channels[i]);
    }

    method SetCaptureVolume(i: nat, left: U16, right: U16)
      requires Valid() && i < NUM_CHANNELS
      modifies channels
      ensures Valid()
      ensures channels[..] == old(channels[..])[i := old(channels[i]).(captureLeft := ClampVolume(left),
              captureRight := ClampVolume(right))]
    {
      ghost var was := channels[..];
      channels[i] := channels[i].(captureLeft := ClampVolume(left), captureRight := ClampVolume(right));
      SoundUpdate(was, i, channels[i]);
    }

    method SetStartAddress(i: nat, address: U32)
      requires Valid() && i < NUM_CHANNELS
      modifies channels
      ensures Valid() && channels[..] == old(channels[..])[i := old(channels[i]).(startAddress := address)]
    {
      ghost var was := channels[..];
      channels[i] := channels[i].(startAddress := address);
      SoundUpdate(was, i, channels[i]);
    }

    method SetLoopAddress(i: nat, address: U32)
      requires Valid() && i < NUM_CHANNELS
      modifies channels
      ensures Valid() && channels[..] == old(channels[..])[i := old(channels[i]).(loopAddress := address)]
    {
      ghost var was := channels[..];
      channels[i] := channels[i].(loopAddress := address);
      SoundUpdate(was, i, channels[i]);
    }

    method SetSize(i: nat, size: U32)
      requires Valid() && i < NUM_CHANNELS
      modifies channels
      ensures Valid() && channels[..] == old(channels[..])[i := old(channels[i]).(size := size % (SIZE_MASK + 1))]
    {
      ghost var was := channels[..];
      channels[i] := channels[i].(size := size % (SIZE_MASK + 1));
      SoundUpdate(was, i, channels[i]);
    }

    method SetAdpcmState(i: nat, state: U32)
      requires Valid() && i < NUM_CHANNELS
      modifies channels
      ensures Valid() && channels[..] == old(channels[..])[i := old(channels[i]).(adpcmState := state)]
    {
      ghost var was := channels[..];
      channels[i] := channels[i].(adpcmState := state);
      SoundUpdate(was, i, channels[i]);
    }

    method SetLoopAdpcmState(i: nat, state: U32)
      requires Valid() && i < NUM_CHANNELS
      modifies channels
      ensures Valid() && channels[..] == old(channels[..])[i := old(channels[i]).(loopAdpcmState := state)]
    {
      ghost var was := channels[..];
      channels[i] := channels[i].(loopAdpcmState := state);
      SoundUpdate(was, i, channels[i]);
    }

    /** While a channel is enabled the state register holds its decoder, from which a start would resume; else it holds
        what was written or saved there. */
    method GetAdpcmState(i: nat) returns (v: U32)
      requires Valid() && i < NUM_CHANNELS
      ensures channels[i].cnt.enable ==>
                StatePredictor(v) == channels[i].predictor && StateIndex(v) == channels[i].index
      ensures !channels[i].cnt.enable ==> v == channels[i].adpcmState
    {
      var c := channels[i];
      assert Sound(channels[..][i]);
      if c.cnt.enable {
        StateRoundTrip(c.predictor, c.index);
        return PackState(c.predictor, c.index);
      }
      return c.adpcmState;
    }

    method SetMasterVolume(v: U16)
      requires Valid()
      modifies this`masterVolume
      ensures Valid() && masterVolume == ClampVolume(v)
    {
      masterVolume := ClampVolume(v);
    }

    // -------------------------------------------------------------- playback

    /** The next sample of a channel; outside Manual mode and PSG it lies inside the block. */
    method FetchSample(mem: Memory, i: nat) returns (sample: S16)
      requires i < channels.Length && channels[i].index <= 88
      requires channels[i].cnt.format == PsgNoise || channels[i].cnt.loopMode == Manual
               || channels[i].position < channels[i].blockSize
      modifies channels
      ensures channels[..] == old(channels[..])[i := Fetch(mem, old(channels[i])).0]
              && sample == Fetch(mem, old(channels[i])).1
    {
      var c := channels[i];
      var address := Address(c.blockAddress, c.position);
      match c.cnt.format
      case Pcm8 =>
        channels[i] := c.(position := (c.position + 1) % WORD);
        sample := Pcm8Sample(mem(address));
      case Pcm16 =>
        channels[i] := c.(position := (c.position + 2) % WORD);
        sample := Pcm16Sample(mem(address), mem((address + 1) % WORD));
      case ImaAdpcm =>
        sample := DecodeNibble(i, NibbleAt(mem(address), c.highNibble));
      case PsgNoise =>
        sample := 0;
    }

    /** The ADPCM branch of `FetchSample`, once the nibble is read. */
    method DecodeNibble(i: nat, nibble: nat) returns (sample: S16)
      requires i < channels.Length && channels[i].index <= 88
      modifies channels
      ensures sample == ImaPredict(old(channels[i]).predictor, ImaDiff(ImaStep(old(channels[i]).index), nibble), nibble)
      ensures var c := old(channels[i]);
              channels[..] == old(channels[..])[i := c.(position := if c.highNibble then (c.position + 1) % WORD
                                                        else c.position,
                                                        highNibble := !c.highNibble, predictor := sample,
                                                        index := ClampIndex(c.index + IndexChange(nibble)))]
    {
      hide ImaStep, ImaPredict, IndexChange, ClampIndex;
      var step := ImaStep(channels[i].index);
      var diff := DiffOf(step, nibble);
      if channels[i].highNibble {
        channels[i] := channels[i].(position := (channels[i].position + 1) % WORD);
      }
      channels[i] := channels[i].(highNibble := !channels[i].highNibble);
      sample := ImaPredict(channels[i].predictor, diff, nibble);
      channels[i] := channels[i].(predictor := sample, index := ClampIndex(channels[i].index + IndexChange(nibble)));
    }

    static method DiffOf(step: nat, nibble: nat) returns (diff: nat)
      ensures diff == ImaDiff(step, nibble)
    {
      diff := step / 8;
      if Bit(nibble, 1) { diff := diff + step / 4; }
      if Bit(nibble, 2) { diff := diff + step / 2; }
      if Bit(nibble, 4) { diff := diff + step; }
    }

    /** `Step`: one period of the timer. */
    method StepChannel(mem: Memory, i: nat)
      requires i < channels.Length && channels[i].index <= 88
      modifies channels
      ensures channels[..] == old(channels[..])[i := Step(mem, old(channels[i]))]
    {
      hide Fetch, ImaStep;
      ghost var was := channels[..];
      var c := channels[i];
      if AtEnd(c) {
        if c.cnt.loopMode == OneShot {
          StopChannel(i);
          channels[i] := channels[i].(holding := c.cnt.hold);
          assert channels[..] == was[i := Stop(c).(holding := c.cnt.hold)];
          return;
        }
        Rewind(i);
        if channels[i].blockSize == 0 {
          StopChannel(i);
          assert channels[..] == was[i := Stop(Rewound(c))];
          return;
        }
      }
      FetchInsideBlock(c);
      ghost var d := channels[i];
      var sample := FetchSample(mem, i);
      channels[i] := channels[i].(previous := channels[i].current, current := sample);
      assert channels[..] == was[i := Fetch(mem, d).0.(previous := d.current, current := Fetch(mem, d).1)];
    }

    /** The part of `Step` that restarts a looping channel at its loop address. */
    method Rewind(i: nat)
      requires i < channels.Length && channels[i].index <= 88
      modifies channels
      ensures channels[..] == old(channels[..])[i := Rewound(old(channels[i]))]
    {
      var c := channels[i];
      channels[i] := c.(blockAddress := c.loopAddress);
      if c.cnt.loopMode == Normal {
        channels[i] := channels[i].(blockSize := c.size);
      }
      channels[i] := channels[i].(position := 0, highNibble := false);
      if Bit(c.loopAdpcmState, 0x8000_0000) {
        channels[i] := channels[i].(predictor := StatePredictor(c.loopAdpcmState),
                                    index := StateIndex(c.loopAdpcmState));
      }
    }

    /** The timer loop of one channel for one output sample. */
    method TickChannel(mem: Memory, i: nat)
      requires i < channels.Length && channels[i].index <= 88
      modifies channels
      ensures channels[..] == old(channels[..])[i := Tick(mem, old(channels[i]))]
    {
      hide Step, Period;
      ghost var was := channels[..];
      if !channels[i].cnt.enable || !channels[i].cnt.run { return; }
      var period := Period(channels[i].timer);
      channels[i] := channels[i].(counter := channels[i].counter + TICKS_PER_SAMPLE);
      while channels[i].counter >= period && channels[i].cnt.enable
        invariant channels[i].index <= 88 && channels[..] == was[i := channels[i]]
        invariant Spin(mem, channels[i], period) == Tick(mem, was[i])
        decreases channels[i].counter
      {
        channels[i] := channels[i].(counter := channels[i].counter - period);
        StepChannel(mem, i);
      }
    }

    /** One output frame: every channel moves on by one sample and joins the mix. */
    method RenderFrame(mem: Memory) returns (left: S16, right: S16)
      requires Valid()
      modifies channels
      ensures Valid() && channels[..] == Advanced(mem, old(channels[..]), 1)
      ensures (left, right) == Frame(channels[..], masterVolume)
    {
      hide Tick, Sound, Output;
      ghost var was := channels[..];
      ghost var now := Advanced(mem, was, 1);
      AdvancedKeeps(mem, was, 1);
      var sumLeft, sumRight := 0, 0;
      for i := 0 to NUM_CHANNELS
        invariant AllSound(now) && |now| == |was| == NUM_CHANNELS
        invariant channels[..] == now[..i] + was[i..]
        invariant sumLeft == Mix(now[..i], Left) && sumRight == Mix(now[..i], Right)
        invariant InS32(sumLeft) && InS32(sumRight)
      {
        OneTick(mem, was, i);
        TickChannel(mem, i);
        Joined(now, was, i);
        MixNext(now, i);
        var sample := Output(channels[i]);
        sumLeft := sumLeft + Shift15(sample * channels[i].volumeLeft);
        sumRight := sumRight + Shift15(sample * channels[i].volumeRight);
      }
      assert now[..NUM_CHANNELS] == now;
      left := Clamp16(Shift15(sumLeft * masterVolume));
      right := Clamp16(Shift15(sumRight * masterVolume));
    }

    /** `Render`: frame `k` is the mix of the channels moved on by `k + 1` samples. */
    method Render(mem: Memory, out: array<(S16, S16)>)
      requires Valid()
      modifies channels, out
      ensures Valid() && channels[..] == Advanced(mem, old(channels[..]), out.Length)
      ensures forall k :: 0 <= k < out.Length ==> out[k] == Frame(Advanced(mem, old(channels[..]), k + 1), masterVolume)
    {
      hide Tick, Sound, Frame;
      ghost var was := channels[..];
      NotAdvanced(mem, was);
      for f := 0 to out.Length
        invariant Valid() && AllSound(was) && channels[..] == Advanced(mem, was, f)
        invariant forall k :: 0 <= k < f ==> out[k] == Frame(Advanced(mem, was, k + 1), masterVolume)
      {
        AdvancedNext(mem, was, f);
        var left, right := RenderFrame(mem);
        out[f] := (left, right);
      }
    }
  }

  // ---------------------------------------------------------------- small steps of the proofs above

  /** A CNT write keeps the invariant. */
  lemma WriteCntKeeps(c: Channel, v: U16)
    requires Sound(c)
    ensures Sound(WriteCnt(c, v))
  {
    hide CntOf, PackState, StatePredictor;
  }

  lemma SoundUpdate(cs: seq<Channel>, i: nat, c: Channel)
    requires AllSound(cs) && i < |cs| && Sound(c)
    ensures AllSound(cs[i := c])
  {
  }

  lemma OneTick(mem: Memory, cs: seq<Channel>, i: nat)
    requires AllSound(cs) && i < |cs|
    ensures cs[i].index <= 88 && Advanced(mem, cs, 1)[i] == Tick(mem, cs[i])
  {
    hide Tick;
    assert TickN(mem, cs[i], 0) == cs[i];
  }

  lemma Joined(now: seq<Channel>, was: seq<Channel>, i: nat)
    requires |now| == |was| && i < |was|
    ensures (now[..i] + was[i..])[i := now[i]] == now[..i + 1] + was[i + 1..]
  {
  }

  lemma MixNext(cs: seq<Channel>, i: nat)
    requires AllSound(cs) && i < |cs| <= 32
    ensures Mix(cs[..i + 1], Left) == Mix(cs[..i], Left) + Level(cs[i], Left)
    ensures Mix(cs[..i + 1], Right) == Mix(cs[..i], Right) + Level(cs[i], Right)
    ensures InS32(Mix(cs[..i + 1], Left)) && InS32(Mix(cs[..i + 1], Right))
    ensures InS32(Output(cs[i]) * cs[i].volumeLeft) && InS32(Output(cs[i]) * cs[i].volumeRight)
  {
    hide Output, Sound;
    assert cs[..i + 1][..i] == cs[..i] && cs[..i + 1][i] == cs[i];
    MixFits(cs[..i + 1], Left);
    MixFits(cs[..i + 1], Right);
  }

  lemma NotAdvanced(mem: Memory, cs: seq<Channel>)
    requires AllSound(cs)
    ensures Advanced(mem, cs, 0) == cs
  {
    hide Tick, Sound;
  }

  lemma AdvancedNext(mem: Memory, cs: seq<Channel>, n: nat)
    requires AllSound(cs)
    ensures AllSound(Advanced(mem, cs, n)) && Advanced(mem, Advanced(mem, cs, n), 1) == Advanced(mem, cs, n + 1)
  {
    AdvancedKeeps(mem, cs, n);
    hide Tick, Sound;
    forall i | 0 <= i < |cs| ensures Advanced(mem, Advanced(mem, cs, n), 1)[i] == Advanced(mem, cs, n + 1)[i] {
      OneTick(mem, Advanced(mem, cs, n), i);
    }
  }
}
