/** Which bytes of memory make which samples of a CSND block, in plain arithmetic. */
module CsndSamples {
  import opened Words
  import opened CsndChannel
  import opened CsndPlayback

  // ---------------------------------------------------------------- PCM

  /** The 16 bits of a sample as an unsigned number. */
  function Bits16(s: int): int { if s < 0 then s + 0x1_0000 else s }

  lemma Pcm16Bits(low: Byte, high: Byte)
    ensures Bits16(Pcm16Sample(low, high)) == low + 256 * high
  {
  }

  lemma Pcm8Bits(b: Byte)
    ensures Bits16(Pcm8Sample(b)) == 256 * b
  {
  }

  /** Sample `n` of a PCM block: its bits are those of its bytes, the low byte first. */
  lemma PcmSamples(mem: Memory, c: Channel, n: nat)
    requires InBlock(c) && c.position == 0 && n < Remaining(c) && c.cnt.format != ImaAdpcm && !c.highNibble
    ensures var base, bits := c.blockAddress, Bits16(StepN(mem, c, n + 1).current);
            && (c.cnt.format == Pcm8 ==> bits == 256 * mem((base + n) % WORD))
            && (c.cnt.format == Pcm16 ==>
                  bits == mem((base + 2 * n) % WORD) + 256 * mem((base + 2 * n + 1) % WORD))
  {
    hide Pcm8Sample, Pcm16Sample, Bits16, StepN, Remaining;
    BlockSamples(mem, c, n + 1);
    var base := c.blockAddress;
    Pcm8Bits(mem((base + n) % WORD));
    Pcm16Bits(mem((base + 2 * n) % WORD), mem((base + 2 * n + 1) % WORD));
  }

  // ---------------------------------------------------------------- IMA ADPCM

  /** The eight magnitudes of a nibble: what they add, in parts of a step, and how they move the index. */
  function Magnitude(m: nat, step: nat): nat
    requires m < 8
  {
    match m
    case 0 => step / 8
    case 1 => step / 8 + step / 4
    case 2 => step / 8 + step / 2
    case 3 => step / 8 + step / 4 + step / 2
    case 4 => step / 8 + step
    case 5 => step / 8 + step / 4 + step
    case 6 => step / 8 + step / 2 + step
    case 7 => step / 8 + step / 4 + step / 2 + step
  }

  function Movement(m: nat): int
    requires m < 8
  {
    match m case 4 => 2 case 5 => 4 case 6 => 6 case 7 => 8 case _ => -1
  }

  /** From predictor and index `p`, nibble `x` leads to predictor and index `q`: down for 8 and more, up for less. */
  predicate Moves(x: nat, p: (int, nat), q: (int, nat))
    requires x < 16 && p.1 <= 88
  {
    var diff, i := Magnitude(x % 8, ImaStep(p.1)), p.1 + Movement(x % 8);
    && (x >= 8 ==> q.0 == if p.0 - diff < -0x7FFF then -0x7FFF else p.0 - diff)
    && (x < 8 ==> q.0 == if p.0 + diff > 0x7FFF then 0x7FFF else p.0 + diff)
    && q.1 == if i < 0 then 0 else if i > 88 then 88 else i
  }

  lemma NibbleMoves(x: nat, p: S16, i: nat)
    requires x < 16 && i <= 88
    ensures Moves(x, (p, i), (ImaPredict(p, ImaDiff(ImaStep(i), x), x), ClampIndex(i + IndexChange(x))))
  {
    hide ImaStep, ImaDiff, Magnitude, Bit, IndexChange, Movement;
    DiffIs(x, ImaStep(i));
    SignIs(x);
  }

  lemma SignIs(x: nat)
    requires x < 16
    ensures (Bit(x, 8) <==> x >= 8) && IndexChange(x) == Movement(x % 8)
  {
  }

  lemma DiffIs(x: nat, step: nat)
    requires x < 16
    ensures ImaDiff(step, x) == Magnitude(x % 8, step)
  {
  }

  /** Two samples a byte: sample 2j of a block decodes the low half of byte j, sample 2j + 1 the high half. */
  lemma AdpcmSamples(mem: Memory, c: Channel, n: nat)
    requires InBlock(c) && c.position == 0 && n < Remaining(c) && c.cnt.format == ImaAdpcm && !c.highNibble
    ensures var d, e, b := StepN(mem, c, n), StepN(mem, c, n + 1), mem((c.blockAddress + n / 2) % WORD);
            && e.current == e.predictor && d.index <= 88
            && Moves(if n % 2 == 0 then b % 16 else b / 16, (d.predictor, d.index), (e.predictor, e.index))
  {
    hide ImaDecode, Moves, Remaining, StepN;
    BlockSamples(mem, c, n);
    BlockSamples(mem, c, n + 1);
    DecodedNext(mem, c.blockAddress, c.predictor, c.index, n);
  }

  lemma DecodedNext(mem: Memory, base: U32, predictor: S16, index: nat, n: nat)
    requires index <= 88
    ensures var s, b := ImaDecode(mem, base, predictor, index, n), mem((base + n / 2) % WORD);
            Moves(if n % 2 == 0 then b % 16 else b / 16, s, ImaDecode(mem, base, predictor, index, n + 1))
  {
    hide ImaPredict, ImaDiff, ImaStep, ClampIndex, IndexChange, Moves;
    var s, b := ImaDecode(mem, base, predictor, index, n), mem((base + n / 2) % WORD);
    Odds(n);
    NibbleMoves(if n % 2 == 0 then b % 16 else b / 16, s.0, s.1);
  }

  /** A tenth more, rounded. */
  predicate Grows(a: nat, b: nat) { a < b && 10 * b <= 11 * a + 8 && 11 * a <= 10 * b + 7 }

  lemma FirstRowsGrow(r: nat, j: nat)
    requires r < 3 && j < 12
    ensures |IMA_STEP_ROWS| == 7 && |IMA_STEP_ROWS[r]| == 13 && Grows(IMA_STEP_ROWS[r][j], IMA_STEP_ROWS[r][j + 1])
  {
  }

  lemma NextRowsGrow(r: nat, j: nat)
    requires 3 <= r < 5 && j < 12
    ensures |IMA_STEP_ROWS| == 7 && |IMA_STEP_ROWS[r]| == 13 && Grows(IMA_STEP_ROWS[r][j], IMA_STEP_ROWS[r][j + 1])
  {
  }

  lemma LastRowsGrow(r: nat, j: nat)
    requires 5 <= r < 7 && j < if r == 5 then 12 else 9
    ensures |IMA_STEP_ROWS| == 7 && |IMA_STEP_ROWS[r]| == (if r == 5 then 13 else 11)
    ensures Grows(IMA_STEP_ROWS[r][j], IMA_STEP_ROWS[r][j + 1])
  {
  }

  lemma RowsMeet(r: nat)
    requires r < 6
    ensures |IMA_STEP_ROWS| == 7 && |IMA_STEP_ROWS[r]| == 13 && |IMA_STEP_ROWS[r + 1]| > 0
    ensures Grows(IMA_STEP_ROWS[r][12], IMA_STEP_ROWS[r + 1][0])
  {
  }

  lemma TableEnds()
    ensures ImaStep(0) == 7 && ImaStep(87) == 29794 && ImaStep(88) == 32767
  {
  }

  /** The steps grow from 7 to 32767 by a tenth at a time; only the last is cut short. */
  lemma StepsGrow(i: nat)
    requires i < 88
    ensures ImaStep(0) == 7 && ImaStep(88) == 32767 && ImaStep(i) < ImaStep(i + 1)
    ensures i < 87 ==> Grows(ImaStep(i), ImaStep(i + 1))
  {
    hide IMA_STEP_ROWS;
    TableEnds();
    var r, j := i / 13, i % 13;
    if j == 12 {
      RowsMeet(r);
    } else if r < 3 {
      FirstRowsGrow(r, j);
    } else if r < 5 {
      NextRowsGrow(r, j);
    } else if i < 87 {
      LastRowsGrow(r, j);
    }
  }
}
