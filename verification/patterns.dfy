/** Part-of-speech categories and the two term patterns of c_nc_csv.py.
    The source matches regular expressions against the concatenated tag
    strings; here each tag is one atomic symbol, mapped to a category. */
module Patterns {

  datatype Category = Noun | Prefix | Adjective | Adverb | Suffix | Other

  const NounTag: string := "名詞"
  const PrefixTag: string := "接頭辞"
  const AdjectiveTag: string := "形容詞"
  const AdverbTag: string := "副詞"
  const SuffixTag: string := "接尾辞"
  const VerbTag: string := "動詞"

  /** The tags the two patterns mention. */
  const PatternTags: set<string> := {NounTag, PrefixTag, AdjectiveTag, AdverbTag, SuffixTag}

  /** The category alphabet of the patterns; every other tag is Other. */
  function CategoryOf(tag: string): (c: Category)
    ensures c == Other <==> tag !in PatternTags
  {
    if tag == NounTag then Noun
    else if tag == PrefixTag then Prefix
    else if tag == AdjectiveTag then Adjective
    else if tag == AdverbTag then Adverb
    else if tag == SuffixTag then Suffix
    else Other
  }

  function Categories(tags: seq<string>): (cs: seq<Category>)
    ensures |cs| == |tags|
    ensures forall i | 0 <= i < |tags| :: cs[i] == CategoryOf(tags[i])
  {
    seq(|tags|, i requires 0 <= i < |tags| => CategoryOf(tags[i]))
  }

  predicate AllIn(s: seq<Category>, cs: set<Category>)
  {
    forall i | 0 <= i < |s| :: s[i] in cs
  }

  /** `(接頭辞)|(形容詞)` */
  predicate IsHead(c: Category) { c == Prefix || c == Adjective }

  const Tails: set<Category> := {Noun, Adverb, Suffix}

  /** `(名詞)+` */
  predicate Nouns(s: seq<Category>) { |s| >= 1 && AllIn(s, {Noun}) }

  /** `(P|J)(N|D|S)+` */
  predicate HeadTails(s: seq<Category>)
  {
    |s| >= 2 && IsHead(s[0]) && AllIn(s[1..], Tails)
  }

  /** `(P|J)(N|D|S)+(名詞)+` */
  predicate HeadTailsNouns(s: seq<Category>)
  {
    |s| >= 3 && IsHead(s[0]) && exists m | 2 <= m < |s| :: AllIn(s[1..m], Tails) && Nouns(s[m..])
  }

  /** `(接頭辞)(名詞)+` */
  predicate PrefixNouns(s: seq<Category>)
  {
    |s| >= 2 && s[0] == Prefix && Nouns(s[1..])
  }

  /** `(接頭辞)(名詞)+(接尾辞)` */
  predicate PrefixNounsSuffix(s: seq<Category>)
  {
    |s| >= 3 && s[0] == Prefix && s[|s| - 1] == Suffix && Nouns(s[1..|s| - 1])
  }

  /** The partial-term pattern (c_nc_csv.py:56), one disjunct per anchored
      alternative, in the source's order. */
  predicate PartialPattern(s: seq<Category>)
    ensures PartialPattern(s) ==> |s| >= 1
  {
    || Nouns(s)
    || (|s| == 1 && IsHead(s[0]))
    || HeadTails(s)
    || HeadTailsNouns(s)
    || s == [Prefix]
    || PrefixNouns(s)
    || PrefixNounsSuffix(s)
  }

  /** The full-term pattern (c_nc_csv.py:55): `(名詞){2,}`, `(P|J)(N|D|S)+(名詞)+`
      or `(接頭辞)(名詞)+(接尾辞)`. The file defines it and never uses it. */
  predicate FullPattern(s: seq<Category>)
    ensures FullPattern(s) ==> |s| >= 2
  {
    || (|s| >= 2 && AllIn(s, {Noun}))
    || HeadTailsNouns(s)
    || PrefixNounsSuffix(s)
  }

  /** A deterministic automaton for the partial pattern. */
  datatype State = Start | InNouns | InHead | Dead

  function Step(q: State, c: Category): State
  {
    match q
    case Start => if c == Noun then InNouns else if IsHead(c) then InHead else Dead
    case InNouns => if c == Noun then InNouns else Dead
    case InHead => if c in Tails then InHead else Dead
    case Dead => Dead
  }

  function Run(q: State, s: seq<Category>): State
    decreases |s|
  {
    if s == [] then q else Run(Step(q, s[0]), s[1..])
  }

  predicate Accepts(s: seq<Category>)
  {
    Run(Start, s) == InNouns || Run(Start, s) == InHead
  }

  lemma {:induction false} RunFrom(q: State, s: seq<Category>)
    ensures q == Dead ==> Run(q, s) == Dead
    ensures q == InNouns ==> Run(q, s) == if AllIn(s, {Noun}) then InNouns else Dead
    ensures q == InHead ==> Run(q, s) == if AllIn(s, Tails) then InHead else Dead
    decreases |s|
  {
    if s != [] {
      RunFrom(Step(q, s[0]), s[1..]);
      if q == Dead { RunFrom(Dead, s[1..]); }
      assert AllIn(s, {Noun}) <==> s[0] == Noun && AllIn(s[1..], {Noun}) by {
        if s[0] == Noun && AllIn(s[1..], {Noun}) {
          forall i | 0 <= i < |s| ensures s[i] in {Noun} { if i > 0 { assert s[i] == s[1..][i - 1]; } }
        }
      }
      assert AllIn(s, Tails) <==> s[0] in Tails && AllIn(s[1..], Tails) by {
        if s[0] in Tails && AllIn(s[1..], Tails) {
          forall i | 0 <= i < |s| ensures s[i] in Tails { if i > 0 { assert s[i] == s[1..][i - 1]; } }
        }
      }
    }
  }

  /** Every alternative but `(名詞)+` is subsumed by `(P|J)(N|D|S)*`. */
  lemma PartialShape(s: seq<Category>)
    ensures PartialPattern(s) <==> Nouns(s) || (|s| >= 1 && IsHead(s[0]) && AllIn(s[1..], Tails))
  {
    if HeadTailsNouns(s) {
      var m :| 2 <= m < |s| && AllIn(s[1..m], Tails) && Nouns(s[m..]);
      forall i | 1 <= i < |s| ensures s[i] in Tails {
        if i < m { assert s[i] == s[1..m][i - 1]; } else { assert s[i] == s[m..][i - m]; }
      }
    }
    if PrefixNouns(s) {
      forall i | 1 <= i < |s| ensures s[i] in Tails { assert s[i] == s[1..][i - 1]; }
    }
    if PrefixNounsSuffix(s) {
      forall i | 1 <= i < |s| ensures s[i] in Tails {
        if i < |s| - 1 { assert s[i] == s[1..|s| - 1][i - 1]; }
      }
    }
    if |s| >= 1 && IsHead(s[0]) && AllIn(s[1..], Tails) && |s| >= 2 {
      assert HeadTails(s);
    }
  }

  /** The automaton accepts exactly the strings of the partial pattern. */
  lemma {:induction false} PartialIsAutomaton(s: seq<Category>)
    ensures PartialPattern(s) <==> Accepts(s)
  {
    PartialShape(s);
    if s != [] {
      RunFrom(Step(Start, s[0]), s[1..]);
      assert Nouns(s) <==> s[0] == Noun && AllIn(s[1..], {Noun}) by {
        if s[0] == Noun && AllIn(s[1..], {Noun}) {
          forall i | 0 <= i < |s| ensures s[i] in {Noun} { if i > 0 { assert s[i] == s[1..][i - 1]; } }
        }
      }
    }
  }

  /** The forward scan tests only the two-tag window: it keeps its buffer
      exactly for the pairs NN, PN, PD, PS, JN, JD and JS. */
  lemma PartialPair(x: Category, y: Category)
    ensures PartialPattern([x, y]) <==>
      (x, y) in {(Noun, Noun), (Prefix, Noun), (Prefix, Adverb), (Prefix, Suffix),
                 (Adjective, Noun), (Adjective, Adverb), (Adjective, Suffix)}
  {
    PartialShape([x, y]);
    assert [x, y][1..] == [y];
    assert AllIn([y], Tails) <==> y in Tails by { assert [y][0] == y; }
    assert Nouns([x, y]) <==> x == Noun && y == Noun by {
      assert [x, y][0] == x && [x, y][1] == y;
    }
  }

  /** Every full term is also a partial one. */
  lemma FullIsPartial(s: seq<Category>)
    ensures FullPattern(s) ==> PartialPattern(s)
  {
    PartialShape(s);
    if PrefixNounsSuffix(s) {
      forall i | 1 <= i < |s| ensures s[i] in Tails {
        if i < |s| - 1 { assert s[i] == s[1..|s| - 1][i - 1]; }
      }
    }
    if HeadTailsNouns(s) {
      var m :| 2 <= m < |s| && AllIn(s[1..m], Tails) && Nouns(s[m..]);
      forall i | 1 <= i < |s| ensures s[i] in Tails {
        if i < m { assert s[i] == s[1..m][i - 1]; } else { assert s[i] == s[m..][i - m]; }
      }
    }
  }

  /** The partial pattern holds of exactly the non-empty prefixes of full terms:
      a scan that still matches it can still grow into a full term. */
  lemma PartialIsFullPrefix(s: seq<Category>)
    ensures PartialPattern(s) <==> |s| >= 1 && exists u :: FullPattern(s + u)
  {
    PartialShape(s);
    if Nouns(s) {
      var w := s + [Noun];
      assert AllIn(w, {Noun}) by {
        forall i | 0 <= i < |w| ensures w[i] in {Noun} { if i < |s| { assert w[i] == s[i]; } }
      }
      assert FullPattern(s + [Noun]);
    } else if |s| >= 1 && IsHead(s[0]) && AllIn(s[1..], Tails) {
      var w := s + [Noun, Noun];
      var middle := w[1..|w| - 1];
      assert AllIn(middle, Tails) by {
        forall i | 0 <= i < |middle| ensures middle[i] in Tails {
          if i < |s| - 1 { assert middle[i] == s[1..][i]; }
        }
      }
      assert Nouns(w[|w| - 1..]) by { assert w[|w| - 1..] == [Noun]; }
      assert HeadTailsNouns(w);
      assert FullPattern(s + [Noun, Noun]);
    }
    if |s| >= 1 && exists u :: FullPattern(s + u) {
      var u :| FullPattern(s + u);
      FullIsPartial(s + u);
      PartialShape(s + u);
      var w := s + u;
      if Nouns(w) {
        assert Nouns(s) by {
          forall i | 0 <= i < |s| ensures s[i] in {Noun} { assert s[i] == w[i]; }
        }
      } else {
        assert s[0] == w[0];
        forall i | 0 <= i < |s| - 1 ensures s[1..][i] in Tails { assert s[1..][i] == w[1..][i]; }
      }
    }
  }
}
