/** `build_nc_value_table_from` and `extract_terms_from`: the NC-value of each
    candidate term, and the `k` best terms by NC-value. */
module Ranking {
  import opened Tables
  import opened Labels
  import opened CValue
  import opened ContextWords
  import opened ContextFactor

  type Scores = Table<string, real>

  /** Lines 147-152: every C-value term scores `0.8 * c`, plus `0.2 * cf` when
      it has a context factor. */
  function NcValueTable(cvalues: Scores, cf: Scores): (nc: Scores)
    ensures Keys(nc) == Keys(cvalues)
  {
    seq(|cvalues|, i requires 0 <= i < |cvalues| =>
      var (term, c) := cvalues[i];
      (term, if term !in Keys(cf) then 0.8 * c else 0.8 * c + 0.2 * Lookup(cf, term)))
  }

  /** A term without context words keeps 80% of its C-value; one with context
      words gains a fifth of its factor on top. */
  lemma NcValueSplit(cvalues: Scores, cf: Scores, i: nat)
    requires i < |cvalues|
    ensures var nc := NcValueTable(cvalues, cf);
      && nc[i].0 == cvalues[i].0
      && (cvalues[i].0 !in Keys(cf) ==> nc[i].1 == 0.8 * cvalues[i].1)
      && (cvalues[i].0 in Keys(cf) ==> nc[i].1 - 0.8 * cvalues[i].1 == 0.2 * Lookup(cf, cvalues[i].0))
  {
    assert Keys(NcValueTable(cvalues, cf))[i] == cvalues[i].0;
  }

  /** Every term the context-word pass records is a frequency-table key, so
      every context factor reaches the NC-value table. */
  lemma NoFactorLost(labels: seq<seq<string>>, words: seq<seq<string>>, freq: FrequencyTable, term: string)
    requires Aligned(labels, words)
    ensures var ctx := ContextTableOf(labels, words, Keys(freq));
      (|ctx| > 0 ==> |freq| > 0) && (term in Keys(ContextFactorOf(ctx, |freq|)) ==> term in Keys(freq))
  {
    var ctx := ContextTableOf(labels, words, Keys(freq));
    assert |ctx| > 0 ==> |freq| > 0 by {
      if |ctx| > 0 { ContextTableShape(labels, words, Keys(freq), 0); }
    }
    if term in Keys(ContextFactorOf(ctx, |freq|)) {
      assert term in Keys(freq) by {
        ContextFactorMeaning(ctx, |freq|, term);
        var i, j :| 0 <= i < |ctx| && 0 <= j < |ctx[i].1| && ctx[i].1[j].0 == term;
        ContextTableShape(labels, words, Keys(freq), i);
      }
    }
  }

  /** `build_nc_value_table_from`, given the frequency table, the containing-term
      table and `log2`. */
  method BuildNcValueTable(texts: seq<string>, freq: FrequencyTable, containing: ContainingTable, lg: int -> real)
    returns (nc: Scores)
    requires Consistent(freq, containing)
    ensures Aligned(AllTags(texts), AllSurfaces(texts))
    ensures |ContextTableOf(AllTags(texts), AllSurfaces(texts), Keys(freq))| > 0 ==> |freq| > 0
    ensures nc == NcValueTable(CValueTable(freq, containing, lg),
                               ContextFactorOf(ContextTableOf(AllTags(texts), AllSurfaces(texts), Keys(freq)), |freq|))
    ensures Keys(nc) == Keys(freq)
  {
    var cvalues := CValueTable(freq, containing, lg);
    var cf := BuildContextFactorTable(texts, freq);
    nc := NcValueTable(cvalues, cf);
  }

  // ---------------------------------------------------------------------------
  // `sorted(..., key=lambda x: x[1], reverse=True)`

  /** Non-increasing by score. */
  ghost predicate Descending(s: Scores)
  {
    forall i, j | 0 <= i < j < |s| :: s[i].1 >= s[j].1
  }

  /** Places `x` in front of the first entry whose score is at most its own. */
  function Insert(x: (string, real), r: Scores): (out: Scores)
    ensures |out| == |r| + 1
  {
    if r == [] then [x]
    else if r[0].1 > x.1 then [r[0]] + Insert(x, r[1..])
    else [x] + r
  }

  /** Inserting adds exactly `x` to the entries. */
  lemma {:induction false} InsertPermutes(x: (string, real), r: Scores)
    ensures |Insert(x, r)| == |r| + 1
    ensures multiset(Insert(x, r)) == multiset(r) + multiset{x}
  {
    if r != [] && r[0].1 > x.1 {
      InsertPermutes(x, r[1..]);
      assert r == [r[0]] + r[1..];
    }
  }

  /** Inserting into a descending table keeps it descending. */
  lemma {:induction false} InsertDescending(x: (string, real), r: Scores)
    requires Descending(r)
    ensures Descending(Insert(x, r))
  {
    if r != [] && r[0].1 > x.1 {
      var rest := Insert(x, r[1..]);
      InsertDescending(x, r[1..]);
      InsertPermutes(x, r[1..]);
      forall i | 0 <= i < |rest| ensures r[0].1 >= rest[i].1 {
        assert rest[i] in multiset(r[1..]) + multiset{x};
        if rest[i] != x {
          var p :| 0 <= p < |r[1..]| && r[1..][p] == rest[i];
          assert r[p + 1] == rest[i];
        }
      }
      PrependDescending(r[0], rest);
    } else if r != [] {
      assert forall i | 0 <= i < |r| :: x.1 >= r[i].1;
      PrependDescending(x, r);
    }
  }

  /** An entry scoring at least every entry of a descending table can go in front. */
  lemma PrependDescending(h: (string, real), t: Scores)
    requires Descending(t) && forall i | 0 <= i < |t| :: h.1 >= t[i].1
    ensures Descending([h] + t)
  {
    var out := [h] + t;
    forall i, j | 0 <= i < j < |out| ensures out[i].1 >= out[j].1 {
      if i == 0 { assert out[j] == t[j - 1]; } else { assert out[i] == t[i - 1] && out[j] == t[j - 1]; }
    }
  }

  /** The entries of `s` with score `v`, in order. */
  function WithScore(s: Scores, v: real): Scores
  {
    if s == [] then [] else (if s[0].1 == v then [s[0]] else []) + WithScore(s[1..], v)
  }

  /** The stable descending sort: the first entry goes in front of every later
      entry with an equal or lower score. */
  function SortDescending(s: Scores): (sorted: Scores)
    ensures |sorted| == |s|
  {
    if s == [] then [] else Insert(s[0], SortDescending(s[1..]))
  }

  /** The sort is a descending permutation of its input. */
  lemma {:induction false} SortDescendingMeaning(s: Scores)
    ensures |SortDescending(s)| == |s|
    ensures multiset(SortDescending(s)) == multiset(s)
    ensures Descending(SortDescending(s))
  {
    if s != [] {
      var rest := SortDescending(s[1..]);
      SortDescendingMeaning(s[1..]);
      InsertPermutes(s[0], rest);
      InsertDescending(s[0], rest);
      assert s == [s[0]] + s[1..];
    }
  }

  /** Every entry of the sorted table is an entry of the input. */
  lemma SortedMembers(s: Scores, i: nat)
    requires i < |SortDescending(s)|
    ensures SortDescending(s)[i] in s
  {
    SortDescendingMeaning(s);
    assert SortDescending(s)[i] in multiset(SortDescending(s));
  }

  lemma {:induction false} InsertWithScore(x: (string, real), r: Scores, v: real)
    ensures WithScore(Insert(x, r), v) == (if x.1 == v then [x] else []) + WithScore(r, v)
  {
    var mine := if x.1 == v then [x] else [];
    if r == [] {
      WithScoreCons(x, [], v);
      assert [x] + [] == [x];
    } else if r[0].1 > x.1 {
      var head := if r[0].1 == v then [r[0]] else [];
      assert head == [] || mine == [];
      InsertWithScore(x, r[1..], v);
      WithScoreCons(r[0], Insert(x, r[1..]), v);
      WithScoreCons(r[0], r[1..], v);
      assert [r[0]] + r[1..] == r;
      SwapPrefixes(head, mine, WithScore(r[1..], v));
    } else {
      WithScoreCons(x, r, v);
    }
  }

  /** At most one of two one-entry prefixes is present, so their order does not matter. */
  lemma SwapPrefixes(h: Scores, m: Scores, w: Scores)
    requires h == [] || m == []
    ensures h + (m + w) == m + (h + w)
  {
    if h == [] {
      assert h + (m + w) == m + w == m + (h + w);
    } else {
      assert h + (m + w) == h + w == m + (h + w);
    }
  }

  lemma WithScoreCons(e: (string, real), s: Scores, v: real)
    ensures WithScore([e] + s, v) == (if e.1 == v then [e] else []) + WithScore(s, v)
  {
    assert ([e] + s)[1..] == s;
  }

  /** The sort is stable: entries with equal scores keep their table order. */
  lemma {:induction false} SortIsStable(s: Scores, v: real)
    ensures WithScore(SortDescending(s), v) == WithScore(s, v)
  {
    if s != [] {
      SortIsStable(s[1..], v);
      InsertWithScore(s[0], SortDescending(s[1..]), v);
    }
  }

  lemma {:induction false} WithScoreMembers(s: Scores, v: real)
    ensures forall e | e in WithScore(s, v) :: e in s && e.1 == v
    ensures forall e | e in s && e.1 == v :: e in WithScore(s, v)
  {
    if s != [] {
      WithScoreMembers(s[1..], v);
      assert s == [s[0]] + s[1..];
    }
  }

  /** A descending order that keeps the entries of each score in a given order
      is unique: any two such arrangements of the same entries are equal. So
      `SortDescending` is exactly the stable sort, whatever algorithm computes it. */
  lemma {:induction false} StableSortUnique(a: Scores, b: Scores)
    requires Descending(a) && Descending(b)
    requires forall v :: WithScore(a, v) == WithScore(b, v)
    ensures a == b
    decreases |a| + |b|
  {
    if a == [] && b == [] {
    } else if a == [] {
      WithScoreMembers(b, b[0].1);
      assert false;
    } else if b == [] {
      WithScoreMembers(a, a[0].1);
      assert false;
    } else {
      var v := if a[0].1 >= b[0].1 then a[0].1 else b[0].1;
      WithScoreMembers(a, v);
      WithScoreMembers(b, v);
      if a[0].1 != b[0].1 {
        assert false;
      } else {
        assert WithScore(a, v)[0] == a[0];
        assert WithScore(b, v)[0] == b[0];
        forall u ensures WithScore(a[1..], u) == WithScore(b[1..], u) {
          if u == v {
            assert WithScore(a, v) == [a[0]] + WithScore(a[1..], v);
            assert WithScore(b, v) == [b[0]] + WithScore(b[1..], v);
            assert WithScore(a[1..], v) == WithScore(a, v)[1..];
            assert WithScore(b[1..], v) == WithScore(b, v)[1..];
          } else {
            assert WithScore(a, u) == [] + WithScore(a[1..], u);
            assert WithScore(b, u) == [] + WithScore(b[1..], u);
            assert [] + WithScore(a[1..], u) == WithScore(a[1..], u);
            assert [] + WithScore(b[1..], u) == WithScore(b[1..], u);
          }
        }
        StableSortUnique(a[1..], b[1..]);
        assert a == [a[0]] + a[1..];
        assert b == [b[0]] + b[1..];
      }
    }
  }

  // ---------------------------------------------------------------------------
  // `[term for term, nc_value in sorted_nc_value_table[:k]]`

  /** How many entries `s[:k]` keeps; a negative `k` drops `-k` from the end. */
  function SliceLength(n: nat, k: int): (m: nat)
    ensures m <= n
    ensures 0 <= k <= n ==> m == k
    ensures k >= n ==> m == n
    ensures k < 0 && n + k >= 0 ==> m == n + k
    ensures n + k < 0 ==> m == 0
  {
    if k >= 0 then (if k <= n then k else n)
    else if n + k >= 0 then n + k else 0
  }

  /** The terms of the `k` best entries, best first. */
  function TopTerms(nc: Scores, k: int): (terms: seq<string>)
    ensures |terms| == SliceLength(|nc|, k)
  {
    var sorted := SortDescending(nc);
    Keys(sorted[..SliceLength(|sorted|, k)])
  }

  /** The extracted terms are distinct table keys, as many as `k` asks for,
      ordered best first, and no term left out scores higher than one taken. */
  lemma TopTermsMeaning(nc: Scores, k: int)
    requires DistinctKeys(nc)
    ensures var terms := TopTerms(nc, k);
      && |terms| == SliceLength(|nc|, k)
      && (forall i, j | 0 <= i < j < |terms| :: terms[i] != terms[j])
      && (forall i | 0 <= i < |terms| :: terms[i] in Keys(nc))
      && (forall i, j | 0 <= i < j < |terms| :: Lookup(nc, terms[i]) >= Lookup(nc, terms[j]))
      && (forall e, i | e in nc && e.0 !in terms && 0 <= i < |terms| :: e.1 <= Lookup(nc, terms[i]))
  {
    var sorted := SortDescending(nc);
    var terms := TopTerms(nc, k);
    SortDescendingMeaning(nc);
    assert forall i | 0 <= i < |terms| :: terms[i] == sorted[i].0;
    SortedKeysDistinct(nc);
    TopTermsAreBest(nc, k);
    forall i | 0 <= i < |terms| ensures terms[i] in Keys(nc) && Lookup(nc, terms[i]) == sorted[i].1 {
      SortedEntryScore(nc, i);
    }
    forall e, i | e in nc && e.0 !in terms && 0 <= i < |terms| ensures e.1 <= Lookup(nc, terms[i]) {
      SortedEntryScore(nc, i);
    }
  }

  lemma SortedEntryScore(nc: Scores, i: nat)
    requires DistinctKeys(nc) && i < |SortDescending(nc)|
    ensures SortDescending(nc)[i].0 in Keys(nc) && Lookup(nc, SortDescending(nc)[i].0) == SortDescending(nc)[i].1
  {
    var sorted := SortDescending(nc);
    SortedMembers(nc, i);
    var p :| 0 <= p < |nc| && nc[p] == sorted[i];
    LookupAt(nc, p);
  }

  lemma TopTermsAreBest(nc: Scores, k: int)
    requires DistinctKeys(nc)
    ensures var terms, sorted := TopTerms(nc, k), SortDescending(nc);
      forall e, i | e in nc && e.0 !in terms && 0 <= i < |terms| :: e.1 <= sorted[i].1
  {
    var sorted := SortDescending(nc);
    var terms := TopTerms(nc, k);
    var m := SliceLength(|sorted|, k);
    SortDescendingMeaning(nc);
    assert forall j | 0 <= j < m :: terms[j] == sorted[j].0;
    forall e, i | e in nc && e.0 !in terms && 0 <= i < |terms| ensures e.1 <= sorted[i].1 {
      assert e in multiset(sorted);
      var j :| 0 <= j < |sorted| && sorted[j] == e;
      assert m <= j;
    }
  }

  /** `x` comes before `y` in `s`. */
  ghost predicate Before(s: Scores, x: (string, real), y: (string, real))
  {
    exists p, q | 0 <= p < q < |s| :: s[p] == x && s[q] == y
  }

  /** Two entries with score `v` keep their relative order among the entries
      with that score. */
  lemma {:induction false} BeforeInWithScore(s: Scores, v: real, p: nat, q: nat)
    requires p < q < |s| && s[p].1 == v && s[q].1 == v
    ensures Before(WithScore(s, v), s[p], s[q])
  {
    var w, rest := WithScore(s, v), WithScore(s[1..], v);
    var head := if s[0].1 == v then [s[0]] else [];
    WithScoreSplit(s, v);
    if p == 0 {
      WithScoreMembers(s[1..], v);
      assert s[q] == s[1..][q - 1];
      var r :| 0 <= r < |rest| && rest[r] == s[q];
      assert w[0] == s[p] && w[r + 1] == s[q];
    } else {
      assert s[p] == s[1..][p - 1] && s[q] == s[1..][q - 1];
      BeforeInWithScore(s[1..], v, p - 1, q - 1);
      var p', q' :| 0 <= p' < q' < |rest| && rest[p'] == s[p] && rest[q'] == s[q];
      assert w[p' + |head|] == s[p] && w[q' + |head|] == s[q];
    }
  }

  /** Order among the entries with one score is order in the whole table. */
  lemma {:induction false} BeforeFromWithScore(s: Scores, v: real, x: (string, real), y: (string, real))
    requires Before(WithScore(s, v), x, y)
    ensures Before(s, x, y)
  {
    var w, rest := WithScore(s, v), WithScore(s[1..], v);
    var head := if s[0].1 == v then [s[0]] else [];
    WithScoreSplit(s, v);
    var p, q :| 0 <= p < q < |w| && w[p] == x && w[q] == y;
    if p < |head| {
      assert x == s[0] && y == rest[q - |head|];
      HeadBefore(s, v, y);
    } else {
      assert rest[p - |head|] == x && rest[q - |head|] == y;
      BeforeFromWithScore(s[1..], v, x, y);
      var p', q' :| 0 <= p' < q' < |s[1..]| && s[1..][p'] == x && s[1..][q'] == y;
      assert s[p' + 1] == x && s[q' + 1] == y;
    }
  }

  lemma HeadBefore(s: Scores, v: real, y: (string, real))
    requires s != [] && y in WithScore(s[1..], v)
    ensures Before(s, s[0], y)
  {
    WithScoreMembers(s[1..], v);
    var r :| 0 <= r < |s[1..]| && s[1..][r] == y;
    assert s[r + 1] == y;
  }

  lemma WithScoreSplit(s: Scores, v: real)
    requires s != []
    ensures WithScore(s, v) == (if s[0].1 == v then [s[0]] else []) + WithScore(s[1..], v)
  {
    WithScoreCons(s[0], s[1..], v);
    assert [s[0]] + s[1..] == s;
  }

  /** Ties among the extracted terms come out in table order, as Python's
      stable `sorted` leaves them. */
  lemma TopTermsKeepTableOrder(nc: Scores, k: int)
    requires DistinctKeys(nc)
    ensures var terms := TopTerms(nc, k);
      forall i, j, p, q | 0 <= i < j < |terms| && 0 <= p < |nc| && 0 <= q < |nc| &&
          nc[p].0 == terms[i] && nc[q].0 == terms[j] && nc[p].1 == nc[q].1 :: p < q
  {
    var sorted, terms := SortDescending(nc), TopTerms(nc, k);
    forall i, j, p, q | 0 <= i < j < |terms| && 0 <= p < |nc| && 0 <= q < |nc| &&
        nc[p].0 == terms[i] && nc[q].0 == terms[j] && nc[p].1 == nc[q].1
      ensures p < q
    {
      assert terms[i] == sorted[i].0 && terms[j] == sorted[j].0;
      assert nc[p] == sorted[i] by { SortedAt(nc, i, p); }
      assert nc[q] == sorted[j] by { SortedAt(nc, j, q); }
      var v := sorted[i].1;
      BeforeInWithScore(sorted, v, i, j);
      SortIsStable(nc, v);
      BeforeFromWithScore(nc, v, sorted[i], sorted[j]);
      var p', q' :| 0 <= p' < q' < |nc| && nc[p'] == sorted[i] && nc[q'] == sorted[j];
      assert nc[p'].0 == nc[p].0 && nc[q'].0 == nc[q].0;
    }
  }

  /** `terms` is a ranking of the table `nc`: best first, ties in table order,
      and no entry left out scores above one taken. */
  ghost predicate Ranked(nc: Scores, terms: seq<string>)
  {
    && (forall i, j, p, q | 0 <= i < j < |terms| && 0 <= p < |nc| && 0 <= q < |nc| &&
          nc[p].0 == terms[i] && nc[q].0 == terms[j] :: nc[p].1 > nc[q].1 || (nc[p].1 == nc[q].1 && p < q))
    && (forall p, q, i | 0 <= p < |nc| && 0 <= q < |nc| && 0 <= i < |terms| &&
          nc[p].0 !in terms && nc[q].0 == terms[i] :: nc[p].1 <= nc[q].1)
  }

  /** The extracted terms rank the table. */
  lemma TopTermsRanked(nc: Scores, k: int)
    requires DistinctKeys(nc)
    ensures Ranked(nc, TopTerms(nc, k))
  {
    var terms := TopTerms(nc, k);
    TopTermsMeaning(nc, k);
    TopTermsKeepTableOrder(nc, k);
    forall i, j, p, q | 0 <= i < j < |terms| && 0 <= p < |nc| && 0 <= q < |nc| &&
        nc[p].0 == terms[i] && nc[q].0 == terms[j]
      ensures nc[p].1 > nc[q].1 || (nc[p].1 == nc[q].1 && p < q)
    {
      LookupAt(nc, p);
      LookupAt(nc, q);
    }
    forall p, q, i | 0 <= p < |nc| && 0 <= q < |nc| && 0 <= i < |terms| &&
        nc[p].0 !in terms && nc[q].0 == terms[i]
      ensures nc[p].1 <= nc[q].1
    {
      LookupAt(nc, q);
      assert nc[p] in nc;
    }
  }

  /** The sorted entry with the key at slot `p` of a table with distinct keys
      is that slot's entry. */
  lemma SortedAt(nc: Scores, i: nat, p: nat)
    requires DistinctKeys(nc) && i < |SortDescending(nc)| && p < |nc|
    requires nc[p].0 == SortDescending(nc)[i].0
    ensures nc[p] == SortDescending(nc)[i]
  {
    SortedMembers(nc, i);
    var p0 :| 0 <= p0 < |nc| && nc[p0] == SortDescending(nc)[i];
    assert nc[p0].0 == nc[p].0;
  }

  /** A permutation of a table with distinct keys has distinct keys. */
  lemma SortedKeysDistinct(nc: Scores)
    requires DistinctKeys(nc)
    ensures DistinctKeys(SortDescending(nc))
  {
    var sorted := SortDescending(nc);
    forall i, j | 0 <= i < j < |sorted| ensures sorted[i].0 != sorted[j].0 {
      if sorted[i].0 == sorted[j].0 {
        SortedMembers(nc, i);
        SortedMembers(nc, j);
        var p :| 0 <= p < |nc| && nc[p] == sorted[i];
        var q :| 0 <= q < |nc| && nc[q] == sorted[j];
        assert p == q;
        CountsTwice(sorted, i, j);
        OccursOnce(nc, sorted[i]);
        SortDescendingMeaning(nc);
        assert false;
      }
    }
  }

  lemma CountsTwice(s: Scores, i: nat, j: nat)
    requires i < j < |s| && s[i] == s[j]
    ensures multiset(s)[s[i]] >= 2
  {
    assert s == s[..i] + [s[i]] + s[i + 1..];
    assert s[j] in s[i + 1..] by { assert s[i + 1..][j - i - 1] == s[j]; }
    assert multiset(s) == multiset(s[..i]) + multiset{s[i]} + multiset(s[i + 1..]);
  }

  lemma {:induction false} OccursOnce(nc: Scores, e: (string, real))
    requires DistinctKeys(nc)
    ensures multiset(nc)[e] <= 1
  {
    if nc != [] {
      OccursOnce(nc[1..], e);
      assert nc == [nc[0]] + nc[1..];
      if nc[0] == e {
        assert e !in nc[1..] by {
          forall q | 0 <= q < |nc[1..]| ensures nc[1..][q] != e { assert nc[1..][q] == nc[q + 1]; }
        }
      }
    }
  }

  /** `extract_terms_from`, given the frequency table, the containing-term table
      and `log2`. */
  method ExtractTerms(texts: seq<string>, k: int, freq: FrequencyTable, containing: ContainingTable, lg: int -> real)
    returns (terms: seq<string>)
    requires Consistent(freq, containing)
    ensures Aligned(AllTags(texts), AllSurfaces(texts))
    ensures |ContextTableOf(AllTags(texts), AllSurfaces(texts), Keys(freq))| > 0 ==> |freq| > 0
    ensures terms == TopTerms(NcValueTable(CValueTable(freq, containing, lg),
      ContextFactorOf(ContextTableOf(AllTags(texts), AllSurfaces(texts), Keys(freq)), |freq|)), k)
    ensures |terms| == SliceLength(|freq|, k)
    ensures forall i, j | 0 <= i < j < |terms| :: terms[i] != terms[j]
    ensures forall i | 0 <= i < |terms| :: terms[i] in Keys(freq)
    ensures Ranked(NcValueTable(CValueTable(freq, containing, lg),
      ContextFactorOf(ContextTableOf(AllTags(texts), AllSurfaces(texts), Keys(freq)), |freq|)), terms)
  {
    var nc := BuildNcValueTable(texts, freq, containing, lg);
    assert DistinctKeys(nc) by {
      forall i, j | 0 <= i < j < |nc| ensures nc[i].0 != nc[j].0 {
        assert Keys(nc)[i] == Keys(freq)[i] && Keys(nc)[j] == Keys(freq)[j];
      }
    }
    terms := TopTerms(nc, k);
    TopTermsMeaning(nc, k);
    TopTermsRanked(nc, k);
  }

  /** The sample corpus: with C-values 1.5, log2(3) and 2.0 and factors 1/13 for
      the two shorter terms, the NC-values are 0.8 * 1.5 + 0.2 / 13,
      0.8 * log2(3) + 0.2 / 13 and 1.6. */
  lemma NcValueExample(lg: int -> real)
    requires lg(2) == 1.0 && lg(4) == 2.0
    ensures var t1, t2, t3 := "5ミリメートル", "5ミリメートル角", "5ミリメートル角程度";
      var freq := [(t1, Frequency(3, 2)), (t2, Frequency(2, 3)), (t3, Frequency(1, 4))];
      var containing := map[t1 := [t2, t3], t2 := [t3], t3 := []];
      && Consistent(freq, containing)
      && NcValueTable(CValueTable(freq, containing, lg), ContextFactorOf([("角", [(t1, 1)]), ("程度", [(t2, 1)])], 13))
        == [(t1, 0.8 * 1.5 + 0.2 / 13.0), (t2, 0.8 * lg(3) + 0.2 / 13.0), (t3, 1.6)]
  {
    var t1, t2, t3 := "5ミリメートル", "5ミリメートル角", "5ミリメートル角程度";
    NestedExample(lg);
    FactorExample();
    var cf := [(t1, 1.0 / 13.0), (t2, 1.0 / 13.0)];
    assert t1 != t2 && t1 != t3 && t2 != t3 by { assert |t1| == 7 && |t2| == 8 && |t3| == 10; }
    assert Keys(cf) == [t1, t2];
    assert Lookup(cf, t1) == 1.0 / 13.0;
    assert Lookup(cf, t2) == 1.0 / 13.0 by { assert cf[1..] == [(t2, 1.0 / 13.0)]; }
    var nc := NcValueTable([(t1, 1.5), (t2, lg(3)), (t3, 2.0)], cf);
    assert nc[0] == (t1, 0.8 * 1.5 + 0.2 / 13.0);
    assert nc[1] == (t2, 0.8 * lg(3) + 0.2 / 13.0);
    assert nc[2] == (t3, 1.6);
  }

  /** Three terms in increasing order of score come out in reverse. */
  lemma TopTermsExample(t1: string, t2: string, t3: string, a: real, b: real, c: real)
    requires a < b < c
    ensures TopTerms([(t1, a), (t2, b), (t3, c)], 20) == [t3, t2, t1]
  {
    var e1, e2, e3 := (t1, a), (t2, b), (t3, c);
    SortThree(e1, e2, e3);
    TopTermsOfSorted([e1, e2, e3], [e3, e2, e1], 20);
    assert [e3, e2, e1][..SliceLength(3, 20)] == [e3, e2, e1];
    KeysOfThree(e3, e2, e1);
  }

  lemma TopTermsOfSorted(nc: Scores, sorted: Scores, k: int)
    requires SortDescending(nc) == sorted
    ensures TopTerms(nc, k) == Keys(sorted[..SliceLength(|sorted|, k)])
  {
  }

  lemma KeysOfThree(e1: (string, real), e2: (string, real), e3: (string, real))
    ensures Keys([e1, e2, e3]) == [e1.0, e2.0, e3.0]
  {
    var top := Keys([e1, e2, e3]);
    assert top[0] == e1.0 && top[1] == e2.0 && top[2] == e3.0;
  }

  /** `k = 1` keeps only the best term. */
  lemma TopOneExample(t1: string, t2: string, t3: string, a: real, b: real, c: real)
    requires a < b < c
    ensures TopTerms([(t1, a), (t2, b), (t3, c)], 1) == [t3]
  {
    var e1, e2, e3 := (t1, a), (t2, b), (t3, c);
    var sorted := SortDescending([e1, e2, e3]);
    assert sorted[..SliceLength(3, 1)] == [e3] by { SortThree(e1, e2, e3); }
    assert Keys([e3]) == [t3] by {
      var top := Keys([e3]);
      assert top[0] == t3;
    }
  }

  lemma SortThree(e1: (string, real), e2: (string, real), e3: (string, real))
    requires e1.1 < e2.1 < e3.1
    ensures SortDescending([e1, e2, e3]) == [e3, e2, e1]
  {
    assert [e1, e2, e3][1..] == [e2, e3];
    SortTwo(e2, e3);
    assert [e3, e2][1..] == [e2];
    assert Insert(e1, [e2]) == [e2, e1];
    assert Insert(e1, [e3, e2]) == [e3] + Insert(e1, [e2]);
  }

  lemma SortTwo(e2: (string, real), e3: (string, real))
    requires e2.1 < e3.1
    ensures SortDescending([e2, e3]) == [e3, e2]
  {
    assert [e2, e3][1..] == [e3];
    assert SortDescending([e3]) == [e3];
    assert Insert(e2, [e3]) == [e3] + Insert(e2, []);
  }

  /** For the sample corpus (log2(3) is about 1.585) the longest of the three
      nested terms ranks first and the shortest last. */
  lemma RankingExample(lg: int -> real)
    requires lg(2) == 1.0 && lg(4) == 2.0 && 1.5 < lg(3) < 1.9
    ensures var t1, t2, t3 := "5ミリメートル", "5ミリメートル角", "5ミリメートル角程度";
      var freq := [(t1, Frequency(3, 2)), (t2, Frequency(2, 3)), (t3, Frequency(1, 4))];
      var containing := map[t1 := [t2, t3], t2 := [t3], t3 := []];
      && Consistent(freq, containing)
      && TopTerms(NcValueTable(CValueTable(freq, containing, lg), ContextFactorOf([("角", [(t1, 1)]), ("程度", [(t2, 1)])], 13)), 20) == [t3, t2, t1]
  {
    var t1, t2, t3 := "5ミリメートル", "5ミリメートル角", "5ミリメートル角程度";
    var a, b, c := 0.8 * 1.5 + 0.2 / 13.0, 0.8 * lg(3) + 0.2 / 13.0, 1.6;
    var freq := [(t1, Frequency(3, 2)), (t2, Frequency(2, 3)), (t3, Frequency(1, 4))];
    var containing := map[t1 := [t2, t3], t2 := [t3], t3 := []];
    var cf := ContextFactorOf([("角", [(t1, 1)]), ("程度", [(t2, 1)])], 13);
    assert Consistent(freq, containing) && NcValueTable(CValueTable(freq, containing, lg), cf) == [(t1, a), (t2, b), (t3, c)] by {
      NcValueExample(lg);
    }
    assert TopTerms([(t1, a), (t2, b), (t3, c)], 20) == [t3, t2, t1] by {
      ScoresOrdered(lg(3));
      TopTermsExample(t1, t2, t3, a, b, c);
    }
  }

  lemma ScoresOrdered(l3: real)
    requires 1.5 < l3 < 1.9
    ensures 0.8 * 1.5 + 0.2 / 13.0 < 0.8 * l3 + 0.2 / 13.0 < 1.6
  {
  }
}
