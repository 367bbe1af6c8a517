/** `build_context_factor_table_from`: the context-word table inverted into one
    weighted sum per term. Each association `[term, count]` of a context word
    with `m` associations contributes `m / num_terms * count` to its term. */
module ContextFactor {
  import opened Tables
  import opened ContextWords
  import opened Labels
  import opened CValue

  /** `sum(xs)` */
  function Sum(xs: seq<real>): real
  {
    if xs == [] then 0.0 else xs[0] + Sum(xs[1..])
  }

  lemma {:induction false} SumSnoc(xs: seq<real>, y: real)
    ensures Sum(xs + [y]) == Sum(xs) + y
  {
    if xs != [] {
      assert (xs + [y])[1..] == xs[1..] + [y];
      SumSnoc(xs[1..], y);
    } else {
      assert Sum([y]) == y + Sum([]);
    }
  }

  /** `len(context_words_table[context_word]) / num_terms` */
  function Weight(assoc: Associations, numTerms: nat): real
    requires numTerms > 0
  {
    |assoc| as real / numTerms as real
  }

  /** `weight * num_frequency` */
  function Scaled(weight: real, count: int): real
  {
    weight * count as real
  }

  /** The values one context word appends, each with its term: one per
      associated term, in the association's order. */
  function EntryContributions(assoc: Associations, weight: real): (cs: seq<(string, real)>)
    ensures |cs| == |assoc|
    ensures forall i | 0 <= i < |assoc| :: cs[i].0 == assoc[i].0
  {
    seq(|assoc|, i requires 0 <= i < |assoc| => (assoc[i].0, Scaled(weight, assoc[i].1)))
  }

  /** Every value the first loop appends, in order. */
  function Contributions(ctx: ContextTable, numTerms: nat): seq<(string, real)>
    requires |ctx| > 0 ==> numTerms > 0
  {
    if ctx == [] then []
    else EntryContributions(ctx[0].1, Weight(ctx[0].1, numTerms)) + Contributions(ctx[1..], numTerms)
  }

  type Inverse = Table<string, seq<real>>

  /** Lines 130-133 applied to each contribution in turn: a new term gets a
      one-element list, a known term has the value appended to its list. */
  function Group(t: Inverse, cs: seq<(string, real)>): (r: Inverse)
    requires DistinctKeys(t)
    ensures DistinctKeys(r)
    decreases |cs|
  {
    if cs == [] then t
    else
      var term := cs[0].0;
      Group(Put(t, term, if term in Keys(t) then Lookup(t, term) + [cs[0].1] else [cs[0].1]), cs[1..])
  }

  /** The context-factor table of a context-word table: each grouped list
      replaced by its sum, keys unchanged and in the same order, so it is a
      dictionary with one entry per term. */
  function ContextFactorOf(ctx: ContextTable, numTerms: nat): (cf: Table<string, real>)
    requires |ctx| > 0 ==> numTerms > 0
    ensures DistinctKeys(cf)
  {
    var inverse := Group([], Contributions(ctx, numTerms));
    var cf := seq(|inverse|, j requires 0 <= j < |inverse| => (inverse[j].0, Sum(inverse[j].1)));
    assert Keys(cf) == Keys(inverse);
    cf
  }

  // ---------------------------------------------------------------------------
  // An independent definition of each term's factor

  /** The part of a term's factor contributed by one context word. */
  function EntrySum(assoc: Associations, term: string, weight: real): real
  {
    if assoc == [] then 0.0
    else (if assoc[0].0 == term then Scaled(weight, assoc[0].1) else 0.0) + EntrySum(assoc[1..], term, weight)
  }

  /** `Σ len(list) / num_terms * count` over every association `[term, count]`. */
  function WeightedSum(ctx: ContextTable, term: string, numTerms: nat): real
    requires |ctx| > 0 ==> numTerms > 0
  {
    if ctx == [] then 0.0
    else EntrySum(ctx[0].1, term, Weight(ctx[0].1, numTerms)) + WeightedSum(ctx[1..], term, numTerms)
  }

  /** Whether some context word is associated with `term`. */
  ghost predicate Associated(ctx: ContextTable, term: string)
  {
    exists i, j | 0 <= i < |ctx| && 0 <= j < |ctx[i].1| :: ctx[i].1[j].0 == term
  }

  /** The sum of the contributions to `term`. */
  function SumFor(cs: seq<(string, real)>, term: string): real
  {
    if cs == [] then 0.0 else (if cs[0].0 == term then cs[0].1 else 0.0) + SumFor(cs[1..], term)
  }

  lemma {:induction false} SumForAppend(a: seq<(string, real)>, b: seq<(string, real)>, term: string)
    ensures SumFor(a + b, term) == SumFor(a, term) + SumFor(b, term)
  {
    if a != [] {
      assert (a + b)[1..] == a[1..] + b;
      SumForAppend(a[1..], b, term);
    } else {
      assert a + b == b;
    }
  }

  lemma {:induction false} EntrySumIsSumFor(assoc: Associations, term: string, weight: real)
    ensures SumFor(EntryContributions(assoc, weight), term) == EntrySum(assoc, term, weight)
  {
    if assoc != [] {
      EntrySumIsSumFor(assoc[1..], term, weight);
      assert EntryContributions(assoc, weight)[1..] == EntryContributions(assoc[1..], weight);
    }
  }

  lemma {:induction false} ContributionsSum(ctx: ContextTable, term: string, numTerms: nat)
    requires |ctx| > 0 ==> numTerms > 0
    ensures SumFor(Contributions(ctx, numTerms), term) == WeightedSum(ctx, term, numTerms)
  {
    if ctx != [] {
      var e := EntryContributions(ctx[0].1, Weight(ctx[0].1, numTerms));
      var rest := Contributions(ctx[1..], numTerms);
      ContributionsSum(ctx[1..], term, numTerms);
      SumForAppend(e, rest, term);
      EntrySumIsSumFor(ctx[0].1, term, Weight(ctx[0].1, numTerms));
    }
  }

  /** Whether some contribution names `term`. */
  ghost predicate Mentions(cs: seq<(string, real)>, term: string)
  {
    exists i | 0 <= i < |cs| :: cs[i].0 == term
  }

  /** Some contribution names `term` iff some context word is associated with it. */
  lemma {:induction false} ContributionsMention(ctx: ContextTable, term: string, numTerms: nat)
    requires |ctx| > 0 ==> numTerms > 0
    ensures Mentions(Contributions(ctx, numTerms), term) <==> Associated(ctx, term)
  {
    if ctx != [] {
      var e := EntryContributions(ctx[0].1, Weight(ctx[0].1, numTerms));
      var rest := Contributions(ctx[1..], numTerms);
      assert Contributions(ctx, numTerms) == e + rest;
      ContributionsMention(ctx[1..], term, numTerms);
      if Mentions(e + rest, term) {
        var i :| 0 <= i < |e + rest| && (e + rest)[i].0 == term;
        MentionIsAssociated(ctx, e, rest, term, i);
      }
      if Associated(ctx, term) {
        var i, j :| 0 <= i < |ctx| && 0 <= j < |ctx[i].1| && ctx[i].1[j].0 == term;
        AssociatedIsMention(ctx, e, rest, term, i, j);
      }
    }
  }

  lemma MentionIsAssociated(ctx: ContextTable, e: seq<(string, real)>, rest: seq<(string, real)>, term: string, i: nat)
    requires ctx != [] && |e| == |ctx[0].1| && forall p | 0 <= p < |e| :: e[p].0 == ctx[0].1[p].0
    requires Mentions(rest, term) ==> Associated(ctx[1..], term)
    requires i < |e + rest| && (e + rest)[i].0 == term
    ensures Associated(ctx, term)
  {
    if i < |e| {
      assert ctx[0].1[i].0 == term;
    } else {
      assert rest[i - |e|].0 == term;
      var i', j :| 0 <= i' < |ctx[1..]| && 0 <= j < |ctx[1..][i'].1| && ctx[1..][i'].1[j].0 == term;
      assert ctx[i' + 1].1[j].0 == term;
    }
  }

  lemma AssociatedIsMention(ctx: ContextTable, e: seq<(string, real)>, rest: seq<(string, real)>, term: string, i: nat, j: nat)
    requires ctx != [] && |e| == |ctx[0].1| && forall p | 0 <= p < |e| :: e[p].0 == ctx[0].1[p].0
    requires Associated(ctx[1..], term) ==> Mentions(rest, term)
    requires i < |ctx| && j < |ctx[i].1| && ctx[i].1[j].0 == term
    ensures Mentions(e + rest, term)
  {
    var cs := e + rest;
    if i == 0 {
      assert cs[j].0 == term;
    } else {
      assert ctx[1..][i - 1].1[j].0 == term;
      var k :| 0 <= k < |rest| && rest[k].0 == term;
      assert cs[|e| + k].0 == term;
    }
  }

  /** After grouping, a term is a key iff it was one or some contribution names
      it, and its list sums to its old sum plus its contributions. */
  lemma {:induction false} GroupMeaning(t: Inverse, cs: seq<(string, real)>, term: string)
    requires DistinctKeys(t)
    ensures term in Keys(Group(t, cs)) <==> term in Keys(t) || Mentions(cs, term)
    ensures term in Keys(Group(t, cs)) ==>
      Sum(Lookup(Group(t, cs), term)) == (if term in Keys(t) then Sum(Lookup(t, term)) else 0.0) + SumFor(cs, term)
    decreases |cs|
  {
    if cs != [] {
      var k := cs[0].0;
      var v := if k in Keys(t) then Lookup(t, k) + [cs[0].1] else [cs[0].1];
      var t' := Put(t, k, v);
      GroupMeaning(t', cs[1..], term);
      GroupOne(t, k, cs[0].1, term);
      OccursSplit(cs, term);
    }
  }

  /** One grouping step adds `x` to the list of `k`, creating it if needed. */
  lemma GroupOne(t: Inverse, k: string, x: real, term: string)
    requires DistinctKeys(t)
    ensures var t' := Put(t, k, if k in Keys(t) then Lookup(t, k) + [x] else [x]);
      && (term in Keys(t') <==> term in Keys(t) || k == term)
      && (term in Keys(t') ==>
            Sum(Lookup(t', term)) == (if term in Keys(t) then Sum(Lookup(t, term)) else 0.0) + (if k == term then x else 0.0))
  {
    var v := if k in Keys(t) then Lookup(t, k) + [x] else [x];
    PutLookup(t, k, v, term);
    if k in Keys(t) {
      SumSnoc(Lookup(t, k), x);
    } else {
      assert Sum([x]) == x + Sum([]);
    }
  }

  lemma OccursSplit(cs: seq<(string, real)>, term: string)
    requires cs != []
    ensures Mentions(cs, term) <==> cs[0].0 == term || Mentions(cs[1..], term)
  {
    if Mentions(cs, term) {
      var i :| 0 <= i < |cs| && cs[i].0 == term;
      if i > 0 { assert cs[1..][i - 1].0 == term; }
    }
    if Mentions(cs[1..], term) {
      var i :| 0 <= i < |cs[1..]| && cs[1..][i].0 == term;
      assert cs[i + 1].0 == term;
    }
  }

  /** Lines 124-136: the keys of the context-factor table are exactly the terms
      some context word is associated with, each once, and each maps to its
      weighted sum. */
  lemma ContextFactorMeaning(ctx: ContextTable, numTerms: nat, term: string)
    requires |ctx| > 0 ==> numTerms > 0
    ensures DistinctKeys(ContextFactorOf(ctx, numTerms))
    ensures term in Keys(ContextFactorOf(ctx, numTerms)) <==> Associated(ctx, term)
    ensures term in Keys(ContextFactorOf(ctx, numTerms)) ==>
      Lookup(ContextFactorOf(ctx, numTerms), term) == WeightedSum(ctx, term, numTerms)
  {
    var cs := Contributions(ctx, numTerms);
    var inverse := Group([], cs);
    var cf := ContextFactorOf(ctx, numTerms);
    assert Keys(cf) == Keys(inverse);
    GroupMeaning([], cs, term);
    ContributionsSum(ctx, term, numTerms);
    ContributionsMention(ctx, term, numTerms);
    if term in Keys(cf) {
      var j := IndexOf(inverse, term);
      LookupAt(cf, j);
      LookupAt(inverse, j);
    }
  }

  // ---------------------------------------------------------------------------
  // The pass as the source performs it

  /** Lines 129-133 for one context word: append each weighted count to its
      term's list. */
  method AddAssociations(inverse0: Inverse, assoc: Associations, weight: real, ghost rest: seq<(string, real)>)
    returns (inverse: Inverse)
    requires DistinctKeys(inverse0)
    ensures DistinctKeys(inverse)
    ensures Group(inverse, rest) == Group(inverse0, EntryContributions(assoc, weight) + rest)
  {
    inverse := inverse0;
    ghost var all := EntryContributions(assoc, weight);
    for a := 0 to |assoc|
      invariant DistinctKeys(inverse)
      invariant Group(inverse, all[a..] + rest) == Group(inverse0, all + rest)
    {
      var term, numFrequency := assoc[a].0, assoc[a].1;
      AssociationStep(inverse, assoc, weight, a, rest);
      if term !in Keys(inverse) {
        inverse := Put(inverse, term, [Scaled(weight, numFrequency)]);
      } else {
        inverse := Put(inverse, term, Lookup(inverse, term) + [Scaled(weight, numFrequency)]);
      }
    }
    assert all[|assoc|..] + rest == rest;
  }

  lemma AssociationStep(t: Inverse, assoc: Associations, weight: real, a: nat, rest: seq<(string, real)>)
    requires DistinctKeys(t) && a < |assoc|
    ensures var cs, term, x := EntryContributions(assoc, weight), assoc[a].0, Scaled(weight, assoc[a].1);
      Group(t, cs[a..] + rest) ==
      Group(Put(t, term, if term in Keys(t) then Lookup(t, term) + [x] else [x]), cs[a + 1..] + rest)
  {
    var cs := EntryContributions(assoc, weight);
    GroupStep(t, cs[a..], rest);
    assert cs[a..][1..] == cs[a + 1..];
  }

  lemma GroupStep(t: Inverse, cs: seq<(string, real)>, rest: seq<(string, real)>)
    requires DistinctKeys(t) && cs != []
    ensures Group(t, cs + rest) ==
      Group(Put(t, cs[0].0, if cs[0].0 in Keys(t) then Lookup(t, cs[0].0) + [cs[0].1] else [cs[0].1]), cs[1..] + rest)
  {
    assert (cs + rest)[0] == cs[0];
    assert (cs + rest)[1..] == cs[1..] + rest;
  }

  /** Lines 127-133: the grouped weighted counts of every context word. */
  method GroupContributions(ctx: ContextTable, numTerms: nat) returns (inverse: Inverse)
    requires |ctx| > 0 ==> numTerms > 0
    ensures inverse == Group([], Contributions(ctx, numTerms))
  {
    inverse := [];
    for c := 0 to |ctx|
      invariant DistinctKeys(inverse)
      invariant Group(inverse, Contributions(ctx[c..], numTerms)) == Group([], Contributions(ctx, numTerms))
    {
      var weight := |ctx[c].1| as real / numTerms as real;
      assert ctx[c..][1..] == ctx[c + 1..];
      inverse := AddAssociations(inverse, ctx[c].1, weight, Contributions(ctx[c + 1..], numTerms));
    }
    assert ctx[|ctx|..] == [];
  }

  /** Lines 135-136: every list replaced by its sum. */
  method SumLists(inverse: Inverse) returns (cf: Table<string, real>)
    ensures |cf| == |inverse|
    ensures forall j | 0 <= j < |inverse| :: cf[j] == (inverse[j].0, Sum(inverse[j].1))
  {
    cf := [];
    for j := 0 to |inverse|
      invariant |cf| == j
      invariant forall k | 0 <= k < j :: cf[k] == (inverse[k].0, Sum(inverse[k].1))
    {
      cf := cf + [(inverse[j].0, Sum(inverse[j].1))];
    }
  }

  /** Lines 124-136, given the context-word table and `num_terms`. The source
      overwrites each list with its sum in place; here the sums form a second
      table with the same keys in the same order. */
  method InvertContextTable(ctx: ContextTable, numTerms: nat) returns (cf: Table<string, real>)
    requires |ctx| > 0 ==> numTerms > 0
    ensures cf == ContextFactorOf(ctx, numTerms)
    ensures DistinctKeys(cf)
    ensures forall term :: term in Keys(cf) <==> Associated(ctx, term)
    ensures forall j | 0 <= j < |cf| :: cf[j].1 == WeightedSum(ctx, cf[j].0, numTerms)
  {
    var inverse := GroupContributions(ctx, numTerms);
    cf := SumLists(inverse);
    assert cf == ContextFactorOf(ctx, numTerms);
    forall term ensures term in Keys(cf) <==> Associated(ctx, term) {
      ContextFactorMeaning(ctx, numTerms, term);
    }
    forall j | 0 <= j < |cf| ensures cf[j].1 == WeightedSum(ctx, cf[j].0, numTerms) {
      ContextFactorMeaning(ctx, numTerms, cf[j].0);
      LookupAt(cf, j);
    }
  }

  /** `build_context_factor_table_from`, given the frequency table: its size is
      `num_terms`, and its keys are the candidate terms. The division by
      `num_terms` is safe: a non-empty context-word table records some term, so
      the frequency table is not empty. */
  method BuildContextFactorTable(texts: seq<string>, freq: FrequencyTable) returns (cf: Table<string, real>)
    ensures Aligned(AllTags(texts), AllSurfaces(texts))
    ensures |ContextTableOf(AllTags(texts), AllSurfaces(texts), Keys(freq))| > 0 ==> |freq| > 0
    ensures cf == ContextFactorOf(ContextTableOf(AllTags(texts), AllSurfaces(texts), Keys(freq)), |freq|)
  {
    var ctx := BuildContextWordsTable(texts, freq);
    if |ctx| > 0 {
      ContextTableShape(AllTags(texts), AllSurfaces(texts), Keys(freq), 0);
    }
    cf := InvertContextTable(ctx, |freq|);
  }

  // ---------------------------------------------------------------------------
  // The factor of a term as the count of its context words

  /** Every context word has one association, counted once, as the context-word
      pass produces them. */
  ghost predicate SingleAssociations(ctx: ContextTable)
  {
    forall i | 0 <= i < |ctx| :: |ctx[i].1| == 1 && ctx[i].1[0].1 == 1
  }

  /** The number of context words associated with `term`. */
  function ContextCount(ctx: ContextTable, term: string): nat
    requires SingleAssociations(ctx)
  {
    if ctx == [] then 0 else (if ctx[0].1[0].0 == term then 1 else 0) + ContextCount(ctx[1..], term)
  }

  lemma OneMoreOver(c: real, n: real)
    requires n > 0.0
    ensures (1.0 / n) * 1.0 + c / n == (c + 1.0) / n
  {
  }

  /** With one association per context word, a term's factor is the number of
      context words associated with it over the number of terms. */
  lemma {:induction false} FactorIsCount(ctx: ContextTable, term: string, numTerms: nat)
    requires SingleAssociations(ctx) && numTerms > 0
    ensures WeightedSum(ctx, term, numTerms) == ContextCount(ctx, term) as real / numTerms as real
  {
    if ctx != [] {
      FactorIsCount(ctx[1..], term, numTerms);
      var n := numTerms as real;
      var assoc := ctx[0].1;
      assert assoc == [(assoc[0].0, 1)];
      assert Weight(assoc, numTerms) == 1.0 / n;
      assert EntrySum(assoc, term, 1.0 / n) == if assoc[0].0 == term then (1.0 / n) * 1.0 else 0.0;
      OneMoreOver(ContextCount(ctx[1..], term) as real, n);
    }
  }

  /** For the tables the pipeline builds, `cf(t)` is the number of context words
      whose recorded term is `t`, over the number of terms. */
  lemma PipelineFactorIsCount(labels: seq<seq<string>>, words: seq<seq<string>>, freq: FrequencyTable, term: string)
    requires Aligned(labels, words)
    ensures var ctx := ContextTableOf(labels, words, Keys(freq));
      && SingleAssociations(ctx)
      && (|ctx| > 0 ==> |freq| > 0)
      && (term in Keys(ContextFactorOf(ctx, |freq|)) ==>
            Lookup(ContextFactorOf(ctx, |freq|), term) == ContextCount(ctx, term) as real / |freq| as real)
  {
    var ctx := ContextTableOf(labels, words, Keys(freq));
    forall i | 0 <= i < |ctx| ensures |ctx[i].1| == 1 && ctx[i].1[0].1 == 1 {
      ContextTableShape(labels, words, Keys(freq), i);
    }
    if |ctx| > 0 {
      ContextTableShape(labels, words, Keys(freq), 0);
      ContextFactorMeaning(ctx, |freq|, term);
      FactorIsCount(ctx, term, |freq|);
    }
  }

  /** A context word with one association of count 1 contributes `1 / numTerms`. */
  lemma OneContribution(term: string, numTerms: nat)
    requires numTerms > 0
    ensures EntryContributions([(term, 1)], Weight([(term, 1)], numTerms)) == [(term, Scaled(1.0 / numTerms as real, 1))]
  {
  }

  /** The sample corpus: 角 follows 5ミリメートル and 程度 follows 5ミリメートル角;
      with 13 candidate terms each of the two scores 1/13. */
  lemma FactorExample()
    ensures var t1, t2 := "5ミリメートル", "5ミリメートル角";
      ContextFactorOf([("角", [(t1, 1)]), ("程度", [(t2, 1)])], 13) == [(t1, 1.0 / 13.0), (t2, 1.0 / 13.0)]
  {
    var t1, t2 := "5ミリメートル", "5ミリメートル角";
    assert t1 != t2 by { assert |t1| == 7 && |t2| == 8; }
    TwoContextWords("角", "程度", t1, t2, 13);
    assert Scaled(1.0 / 13.0, 1) == 1.0 / 13.0;
  }

  /** Two context words, each recorded once for a different term, give each
      term the factor `1 / numTerms`. */
  lemma TwoContextWords(w1: string, w2: string, t1: string, t2: string, numTerms: nat)
    requires numTerms > 0 && t1 != t2
    ensures var x := Scaled(1.0 / numTerms as real, 1);
      ContextFactorOf([(w1, [(t1, 1)]), (w2, [(t2, 1)])], numTerms) == [(t1, x), (t2, x)]
  {
    var ctx: ContextTable := [(w1, [(t1, 1)]), (w2, [(t2, 1)])];
    var x := Scaled(1.0 / numTerms as real, 1);
    assert Contributions(ctx, numTerms) == [(t1, x), (t2, x)] by {
      OneContribution(t1, numTerms);
      OneContribution(t2, numTerms);
      var rest := ctx[1..];
      assert rest == [(w2, [(t2, 1)])];
      assert rest[1..] == [];
      assert Contributions(rest, numTerms) == [(t2, x)] + [];
    }
    assert Group([], [(t1, x), (t2, x)]) == [(t1, [x]), (t2, [x])] by {
      var g1 := Put([], t1, [x]);
      assert g1 == [(t1, [x])];
      assert Keys(g1) == [t1];
      assert Group([], [(t1, x), (t2, x)]) == Group(g1, [(t2, x)]) by {
        assert [(t1, x), (t2, x)][1..] == [(t2, x)];
      }
      var g2 := Put(g1, t2, [x]);
      assert t2 !in Keys(g1);
      assert g2 == [(t1, [x]), (t2, [x])];
      assert Group(g1, [(t2, x)]) == Group(g2, []) by {
        assert [(t2, x)][1..] == [];
      }
    }
    assert Sum([x]) == x;
  }
}
