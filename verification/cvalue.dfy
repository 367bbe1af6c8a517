/** `build_cvalue_table_from`: the C-value of every candidate term.
    The frequency table and the containing-term table come from
    `build_frequency_table` and `build_containing_term_table`, whose code is not
    part of this model; they are inputs here. `math.log2` is the parameter `lg`. */
module CValue {
  import opened Tables

  /** A frequency-table entry `[frequency, num_word]`. */
  datatype Frequency = Frequency(count: nat, numWord: nat)

  type FrequencyTable = Table<string, Frequency>

  /** term -> the terms that contain it */
  type ContainingTable = map<string, seq<string>>

  /** What the C-value pass relies on: keys are distinct, every term spans at
      least one word (so `log2` is defined), has an entry in the containing-term
      table, and each of its containing terms is itself a frequency-table key. */
  ghost predicate Consistent(freq: FrequencyTable, containing: ContainingTable)
  {
    && DistinctKeys(freq)
    && (forall i | 0 <= i < |freq| :: freq[i].1.numWord >= 1 && freq[i].0 in containing)
    && (forall i | 0 <= i < |freq| && freq[i].0 in containing ::
          forall c | c in containing[freq[i].0] :: c in Keys(freq))
  }

  /** `sum(frequency_table[c][0] for c in containers)`: no containing term
      occurs more often than all of them together. */
  function TotalFrequency(containers: seq<string>, freq: FrequencyTable): (total: nat)
    requires forall c | c in containers :: c in Keys(freq)
    ensures forall j | 0 <= j < |containers| :: Lookup(freq, containers[j]).count <= total
  {
    if containers == [] then 0
    else Lookup(freq, containers[0]).count + TotalFrequency(containers[1..], freq)
  }

  /** `(1 / len(containing_words)) * total_fb` */
  function MeanContainerFrequency(containers: seq<string>, freq: FrequencyTable): real
    requires |containers| > 0
    requires forall c | c in containers :: c in Keys(freq)
  {
    (1.0 / |containers| as real) * TotalFrequency(containers, freq) as real
  }

  /** The C-value of a term with entry `f` and containing terms `containers`.
      With `log2(num_word) >= 0`, containing terms can only lower it. */
  function CValueOf(f: Frequency, containers: seq<string>, freq: FrequencyTable, lg: int -> real): (r: real)
    requires forall c | c in containers :: c in Keys(freq)
    ensures lg(f.numWord) >= 0.0 ==> r <= lg(f.numWord) * f.count as real
  {
    if |containers| == 0 then lg(f.numWord) * f.count as real
    else
      var d := MeanContainerFrequency(containers, freq);
      ReciprocalTimes(|containers| as real, TotalFrequency(containers, freq) as real);
      ScaledDiscount(lg(f.numWord), f.count as real, d);
      lg(f.numWord) * (f.count as real - d)
  }

  /** The C-value table has exactly the frequency table's keys, in its order. */
  function CValueTable(freq: FrequencyTable, containing: ContainingTable, lg: int -> real): (r: Table<string, real>)
    requires Consistent(freq, containing)
    ensures Keys(r) == Keys(freq)
    ensures DistinctKeys(r)
    ensures forall i | 0 <= i < |freq| :: r[i].1 == CValueOf(freq[i].1, containing[freq[i].0], freq, lg)
  {
    seq(|freq|, i requires 0 <= i < |freq| => (freq[i].0, CValueOf(freq[i].1, containing[freq[i].0], freq, lg)))
  }

  /** A term that no other term contains scores `log2(num_word) * frequency`. */
  lemma NonNestedCValue(freq: FrequencyTable, containing: ContainingTable, lg: int -> real, i: nat)
    requires Consistent(freq, containing) && i < |freq|
    requires containing[freq[i].0] == []
    ensures CValueTable(freq, containing, lg)[i] == (freq[i].0, lg(freq[i].1.numWord) * freq[i].1.count as real)
  {
    var r := CValueTable(freq, containing, lg);
    assert r[i].0 == freq[i].0 by { assert Keys(r)[i] == Keys(freq)[i]; }
    assert r[i].1 == CValueOf(freq[i].1, [], freq, lg);
    assert CValueOf(freq[i].1, [], freq, lg) == lg(freq[i].1.numWord) * freq[i].1.count as real;
  }

  /** A nested term is discounted by the mean frequency of the terms containing
      it: `log2(num_word) * (frequency - mean)`. */
  lemma NestedCValue(freq: FrequencyTable, containing: ContainingTable, lg: int -> real, i: nat)
    requires Consistent(freq, containing) && i < |freq|
    requires |containing[freq[i].0]| > 0
    ensures CValueTable(freq, containing, lg)[i].1 ==
      lg(freq[i].1.numWord) * (freq[i].1.count as real - MeanContainerFrequency(containing[freq[i].0], freq))
  {
    assert CValueTable(freq, containing, lg)[i].1 == CValueOf(freq[i].1, containing[freq[i].0], freq, lg);
  }

  /** The mean times the number of containing terms is their total frequency. */
  lemma MeanIsAverage(containers: seq<string>, freq: FrequencyTable)
    requires |containers| > 0 && forall c | c in containers :: c in Keys(freq)
    ensures MeanContainerFrequency(containers, freq) * |containers| as real == TotalFrequency(containers, freq) as real
    ensures MeanContainerFrequency(containers, freq) >= 0.0
  {
    var m, total := |containers| as real, TotalFrequency(containers, freq) as real;
    assert MeanContainerFrequency(containers, freq) == (1.0 / m) * total;
    ReciprocalTimes(m, total);
  }

  lemma ReciprocalTimes(m: real, x: real)
    requires m > 0.0
    ensures (1.0 / m) * x * m == x
    ensures x >= 0.0 ==> (1.0 / m) * x >= 0.0
  {
    assert (1.0 / m) * x == x / m;
  }

  /** With `log2(num_word) >= 0`, being nested never raises a term's score above
      the score it would have if no other term contained it. */
  lemma NestingOnlyDiscounts(freq: FrequencyTable, containing: ContainingTable, lg: int -> real, i: nat)
    requires Consistent(freq, containing) && i < |freq|
    requires lg(freq[i].1.numWord) >= 0.0
    ensures CValueTable(freq, containing, lg)[i].1 <= lg(freq[i].1.numWord) * freq[i].1.count as real
  {
    assert CValueTable(freq, containing, lg)[i].1 == CValueOf(freq[i].1, containing[freq[i].0], freq, lg);
  }

  lemma ScaledDiscount(l: real, f: real, d: real)
    requires d >= 0.0
    ensures l >= 0.0 ==> l * (f - d) <= l * f
  {
    assert l * (f - d) == l * f - l * d;
  }

  /** Single-word terms score zero, since `log2(1) == 0`. */
  lemma SingleWordScoresZero(freq: FrequencyTable, containing: ContainingTable, lg: int -> real, i: nat)
    requires Consistent(freq, containing) && i < |freq|
    requires lg(1) == 0.0 && freq[i].1.numWord == 1
    ensures CValueTable(freq, containing, lg)[i].1 == 0.0
  {
  }

  /** The nested terms of the sample corpus: 5ミリメートル (2 words, 3 times)
      inside 5ミリメートル角 (3 words, twice) inside 5ミリメートル角程度 (4 words,
      once) score 1.5, log2(3) and 2.0. */
  lemma NestedExample(lg: int -> real)
    requires lg(2) == 1.0 && lg(4) == 2.0
    ensures var t1, t2, t3 := "5ミリメートル", "5ミリメートル角", "5ミリメートル角程度";
      var freq := [(t1, Frequency(3, 2)), (t2, Frequency(2, 3)), (t3, Frequency(1, 4))];
      var containing := map[t1 := [t2, t3], t2 := [t3], t3 := []];
      Consistent(freq, containing) &&
      CValueTable(freq, containing, lg) == [(t1, 1.5), (t2, lg(3)), (t3, 2.0)]
  {
    var t1, t2, t3 := "5ミリメートル", "5ミリメートル角", "5ミリメートル角程度";
    var freq := [(t1, Frequency(3, 2)), (t2, Frequency(2, 3)), (t3, Frequency(1, 4))];
    var containing := map[t1 := [t2, t3], t2 := [t3], t3 := []];
    assert t1 != t2 && t1 != t3 && t2 != t3 by { assert |t1| == 7 && |t2| == 8 && |t3| == 10; }
    assert Keys(freq) == [t1, t2, t3];
    assert Lookup(freq, t2) == Frequency(2, 3);
    assert Lookup(freq, t3) == Frequency(1, 4);
    assert TotalFrequency([t3], freq) == 1;
    assert TotalFrequency([t2, t3], freq) == 3 by { assert [t2, t3][1..] == [t3]; }
    assert Consistent(freq, containing);
    var r := CValueTable(freq, containing, lg);
    assert MeanContainerFrequency([t2, t3], freq) == 1.5;
    assert MeanContainerFrequency([t3], freq) == 1.0;
    assert r[0].1 == lg(2) * (3.0 - 1.5);
    assert r[1].1 == lg(3) * (2.0 - 1.0);
    assert r[2].1 == lg(4) * 1.0;
    assert r[0] == (t1, 1.5);
    assert r[1] == (t2, lg(3));
    assert r[2] == (t3, 2.0);
  }
}
