/** Parameter tuples of a function generator: how long they last, and how they are packed for the microcontroller. */
module FgTuples {
  import opened Basics
  import opened Bits

  datatype Tuple = Tuple(coeffA: int16, coeffB: int16, coeffC: int32, step: uint8, freq: uint8, shiftA: uint8,
                         shiftB: uint8) {
    /** step and freq index the tables of the duration. */
    predicate Indexable() {
      step < 8 && freq < 8
    }

    /** The fields fit the bits they are given in the control word. */
    predicate Encodable() {
      step < 8 && freq < 8 && shiftA < 64 && shiftB < 64
    }

    /** What the validation of appended parameter sets accepts. */
    predicate Validated() {
      step < 8 && freq < 8 && shiftA <= 48 && shiftB <= 48
    }

    function Duration(): (d: nat)
      requires Indexable()
      ensures 0 < d <= 2_000_000_000
    {
      var samples := [250, 500, 1000, 2000, 4000, 8000, 16000, 32000];
      var sampleLen := [62500, 31250, 15625, 8000, 4000, 2000, 1000, 500];
      assert forall i :: 0 <= i < 8 ==> 250 <= samples[i] <= 32000;
      assert forall i :: 0 <= i < 8 ==> 500 <= sampleLen[i] <= 62500;
      MulBounds(samples[step], 32000, sampleLen[freq], 62500);
      samples[step] * sampleLen[freq]
    }
  }

  /** The sample rates, in Hz, that freq selects. */
  const SAMPLE_RATES: seq<nat> := [16_000, 32_000, 64_000, 125_000, 250_000, 500_000, 1_000_000, 2_000_000]

  /** A tuple lasts 250 * 2^step samples, at the rate that freq selects, in nanoseconds. */
  lemma DurationMeans(t: Tuple)
    requires t.Indexable()
    ensures t.Duration() * SAMPLE_RATES[t.freq] == 250 * Pow2(t.step) * 1_000_000_000
  {
    var samples := [250, 500, 1000, 2000, 4000, 8000, 16000, 32000];
    var sampleLen := [62500, 31250, 15625, 8000, 4000, 2000, 1000, 500];
    SampleCounts();
    assert samples[t.step] == 250 * Pow2(t.step);
    assert sampleLen[t.freq] * SAMPLE_RATES[t.freq] == 1_000_000_000;
    assert t.Duration() == samples[t.step] * sampleLen[t.freq];
    MulAssoc(samples[t.step], sampleLen[t.freq], SAMPLE_RATES[t.freq]);
  }

  lemma SampleCounts()
    ensures Pow2(0) == 1 && Pow2(1) == 2 && Pow2(2) == 4 && Pow2(3) == 8
    ensures Pow2(4) == 16 && Pow2(5) == 32 && Pow2(6) == 64 && Pow2(7) == 128
  {
    assert Pow2(3) == 8;
    assert Pow2(5) == 2 * Pow2(4) == 4 * Pow2(3);
  }

  lemma MulBounds(a: nat, m: nat, b: nat, n: nat)
    requires 0 < a <= m && 0 < b <= n
    ensures 0 < a * b <= m * n
  {
    MulMono(a, b, n);
    MulMono(n, a, m);
    assert a * b > 0;
  }

  ghost predicate AllIndexable(fifo: seq<Tuple>) {
    forall i :: 0 <= i < |fifo| ==> fifo[i].Indexable()
  }

  ghost predicate AllEncodable(fifo: seq<Tuple>) {
    forall i :: 0 <= i < |fifo| ==> fifo[i].Encodable()
  }

  ghost predicate AllValidated(ts: seq<Tuple>) {
    forall i :: 0 <= i < |ts| ==> ts[i].Validated()
  }

  /** What has passed the validation has a duration and fits its words. */
  lemma ValidatedFits(ts: seq<Tuple>)
    requires AllValidated(ts)
    ensures AllIndexable(ts) && AllEncodable(ts)
  {
  }

  /** The lists of field values of a parameter set, which belong together index by index. */
  datatype Fields = Fields(coeffA: seq<int16>, coeffB: seq<int16>, coeffC: seq<int32>, step: seq<uint8>,
                           freq: seq<uint8>, shiftA: seq<uint8>, shiftB: seq<uint8>) {
    predicate LengthsMatch() {
      |coeffA| == |coeffB| == |coeffC| == |step| == |freq| == |shiftA| == |shiftB|
    }

    function Tuples(): (ts: seq<Tuple>)
      requires LengthsMatch()
      ensures |ts| == |coeffA|
    {
      seq(|coeffA|, i requires 0 <= i < |coeffA| =>
        Tuple(coeffA[i], coeffB[i], coeffC[i], step[i], freq[i], shiftA[i], shiftB[i]))
    }

    /** What is accepted. */
    ghost predicate Sound() {
      LengthsMatch() && AllValidated(Tuples())
    }
  }

  /** What is accepted, in the lists. */
  lemma SoundMeans(f: Fields)
    ensures f.Sound() <==>
      && |f.coeffA| == |f.coeffB| == |f.coeffC| && |f.coeffA| == |f.step| == |f.freq| == |f.shiftA| == |f.shiftB|
      && forall i :: 0 <= i < |f.coeffA| ==> f.step[i] < 8 && f.freq[i] < 8 && f.shiftA[i] <= 48 && f.shiftB[i] <= 48
  {
    if f.LengthsMatch() {
      forall i | 0 <= i < |f.coeffA|
        ensures f.Tuples()[i].Validated() <==>
          f.step[i] < 8 && f.freq[i] < 8 && f.shiftA[i] <= 48 && f.shiftB[i] <= 48
      {
      }
    }
  }

  lemma SoundFits(f: Fields)
    requires f.Sound()
    ensures f.LengthsMatch() && AllIndexable(f.Tuples()) && AllEncodable(f.Tuples())
  {
    ValidatedFits(f.Tuples());
  }

  function TotalDuration(fifo: seq<Tuple>): (d: nat)
    requires AllIndexable(fifo)
  {
    if fifo == [] then 0 else TotalDuration(fifo[..|fifo| - 1]) + fifo[|fifo| - 1].Duration()
  }

  lemma {:induction false} TotalSplit(fifo: seq<Tuple>)
    requires AllIndexable(fifo) && fifo != []
    ensures TotalDuration(fifo) == fifo[0].Duration() + TotalDuration(fifo[1..])
  {
    if |fifo| > 1 {
      TotalSplit(fifo[..|fifo| - 1]);
      assert fifo[1..][..|fifo| - 2] == fifo[..|fifo| - 1][1..];
    } else {
      assert fifo[..0] == [] && fifo[1..] == [];
    }
  }

  lemma TotalAppend(fifo: seq<Tuple>, t: Tuple)
    requires AllIndexable(fifo) && t.Indexable()
    ensures AllIndexable(fifo + [t]) && TotalDuration(fifo + [t]) == TotalDuration(fifo) + t.Duration()
  {
    assert (fifo + [t])[..|fifo|] == fifo;
  }

  /** The fill level is zero only if nothing is queued. */
  lemma ZeroMeansEmpty(fifo: seq<Tuple>)
    requires AllIndexable(fifo)
    ensures TotalDuration(fifo) == 0 <==> fifo == []
  {
  }

  // ----- the three words of a buffer slot

  datatype Slot = Slot(coeffAB: uint32, coeffC: uint32, control: uint32)

  /** Conversion of a signed value to uint32_t. */
  function ToUint32(x: int): uint32 {
    x % 0x1_0000_0000
  }

  function Encode(t: Tuple): (s: Slot) {
    var a := ToUint32(t.coeffA) * 0x1_0000 % 0x1_0000_0000;
    var b := And(ToUint32(t.coeffB), 0xFFFF);
    EncodeWords(t);
    Slot(Or(a, b), ToUint32(t.coeffC), ControlWord(t))
  }

  function ControlWord(t: Tuple): nat {
    Or(Or(Or(And(t.step, 0x7), And(t.freq, 0x7) * 8), And(t.shiftB, 0x3F) * 64), And(t.shiftA, 0x3F) * 4096)
  }

  function Signed(x: nat, half: nat): int
    requires x < 2 * half
  {
    if x >= half then x - 2 * half else x
  }

  /** How the register map says the words are read: coeff_a in the upper half, and the fields of the control word. */
  function Decode(s: Slot): Tuple {
    Tuple(
      Signed(s.coeffAB / 0x1_0000, 0x8000),
      Signed(s.coeffAB % 0x1_0000, 0x8000),
      Signed(s.coeffC, 0x8000_0000),
      s.control % 8, s.control / 8 % 8, s.control / 4096 % 64, s.control / 64 % 64)
  }

  lemma MaskRest(x: nat, k: nat, m: nat) returns (h: nat)
    requires m == Pow2(k)
    ensures x == m * h + And(x, m - 1) && And(x, m - 1) < m
  {
    AndLowMask(x, k);
    SplitWord(x, k);
    h := HighBits(x, k);
  }

  lemma Low3(x: nat)
    ensures And(x, 0x7) == x % 8
  {
    hide And;
    assert Pow2(3) == 8;
    var h := MaskRest(x, 3, 8);
  }

  lemma Low6(x: nat)
    ensures And(x, 0x3F) == x % 64
  {
    hide And;
    assert Pow2(6) == 64;
    var h := MaskRest(x, 6, 64);
  }

  lemma Low16(x: nat)
    ensures And(x, 0xFFFF) == x % 0x1_0000
  {
    hide And, Pow2;
    Pow2Words();
    var h := MaskRest(x, 16, 0x1_0000);
  }

  /** Or with a field whose bits start above low. */
  lemma OrField(low: nat, high: nat, p: nat, k: nat)
    requires p == Pow2(k) && low < p
    ensures Or(low, high * p) == low + high * p && Or(high * p, low) == low + high * p
  {
    assert high * p == p * high;
    OrDisjoint(high, low, k);
    OrCommutes(low, p * high);
  }

  lemma ControlSum(step: nat, freq: nat, shiftB: nat, shiftA: nat)
    requires step < 8 && freq < 8 && shiftB < 64
    ensures Or(Or(Or(step, freq * 8), shiftB * 64), shiftA * 4096) == step + freq * 8 + shiftB * 64 + shiftA * 4096
  {
    assert Pow2(3) == 8 && Pow2(6) == 64 && Pow2(12) == 4096;
    OrField(step, freq, 8, 3);
    OrField(step + freq * 8, shiftB, 64, 6);
    OrField(step + freq * 8 + shiftB * 64, shiftA, 4096, 12);
  }

  /** Shifting a 32-bit word left by 16 keeps its lower half. */
  lemma ShiftKeepsLow(u: nat)
    ensures u * 0x1_0000 % 0x1_0000_0000 == u % 0x1_0000 * 0x1_0000
  {
    var q, r := u / 0x1_0000, u % 0x1_0000;
    assert u * 0x1_0000 == q * 0x1_0000_0000 + r * 0x1_0000;
  }

  lemma HalfOfWord(x: int)
    ensures ToUint32(x) % 0x1_0000 == x % 0x1_0000
  {
    var q := x / 0x1_0000_0000;
    assert x == q * 0x1_0000_0000 + ToUint32(x);
  }

  /** The packed words as sums of their fields. */
  lemma EncodeWords(t: Tuple)
    ensures ControlWord(t) == t.step % 8 + t.freq % 8 * 8 + t.shiftB % 64 * 64 + t.shiftA % 64 * 4096
    ensures Or(ToUint32(t.coeffA) * 0x1_0000 % 0x1_0000_0000, And(ToUint32(t.coeffB), 0xFFFF))
         == t.coeffA % 0x1_0000 * 0x1_0000 + t.coeffB % 0x1_0000
  {
    Low3(t.step);
    Low3(t.freq);
    Low6(t.shiftA);
    Low6(t.shiftB);
    ControlSum(t.step % 8, t.freq % 8, t.shiftB % 64, t.shiftA % 64);
    Low16(ToUint32(t.coeffB));
    HalfOfWord(t.coeffB);
    HalfOfWord(t.coeffA);
    ShiftKeepsLow(ToUint32(t.coeffA));
    Pow2Words();
    OrField(t.coeffB % 0x1_0000, t.coeffA % 0x1_0000, 0x1_0000, 16);
  }

  lemma EncodeFields(t: Tuple)
    ensures var s := Encode(t);
      && s.coeffAB == t.coeffA % 0x1_0000 * 0x1_0000 + t.coeffB % 0x1_0000
      && s.coeffC == t.coeffC % 0x1_0000_0000
      && s.control == t.step % 8 + t.freq % 8 * 8 + t.shiftB % 64 * 64 + t.shiftA % 64 * 4096
  {
    EncodeWords(t);
  }

  lemma SignedBack(x: int16)
    ensures Signed(x % 0x1_0000, 0x8000) == x
  {
  }

  lemma SignedBack32(x: int32)
    ensures Signed(x % 0x1_0000_0000, 0x8000_0000) == x
  {
  }

  lemma ControlBack(step: nat, freq: nat, shiftB: nat, shiftA: nat)
    requires step < 8 && freq < 8 && shiftB < 64 && shiftA < 64
    ensures var c := step + freq * 8 + shiftB * 64 + shiftA * 4096;
      c % 8 == step && c / 8 % 8 == freq && c / 64 % 64 == shiftB && c / 4096 % 64 == shiftA
  {
    var c := step + freq * 8 + shiftB * 64 + shiftA * 4096;
    assert c / 8 == freq + shiftB * 8 + shiftA * 512;
    assert c / 64 == shiftB + shiftA * 64;
    assert c / 4096 == shiftA;
  }

  /** The microcontroller reads back the tuple that was packed, exactly if its fields fit. */
  lemma DecodeEncode(t: Tuple)
    ensures Decode(Encode(t)) == t <==> t.Encodable()
  {
    hide Encode;
    EncodeFields(t);
    SignedBack(t.coeffA);
    SignedBack(t.coeffB);
    SignedBack32(t.coeffC);
    ControlBack(t.step % 8, t.freq % 8, t.shiftB % 64, t.shiftA % 64);
  }
}
