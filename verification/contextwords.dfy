/** `build_context_words_table_from`: two scans over every sentence that record,
    for words next to a candidate term, the term they were seen with.

    The scans are specified by the sequence of writes they perform: each write
    `context_words_table[word] = [[term, 1]]` is a `Write(word, term)`, and the
    table is what those writes leave behind (`Record`). */
module ContextWords {
  import opened Tables
  import opened Patterns
  import opened Labels
  import opened CValue

  /** The value list `[[term, count], ...]` of one context word. */
  type Associations = seq<(string, int)>

  type ContextTable = Table<string, Associations>

  /** `tag in ("名詞", "形容詞", "動詞")` */
  predicate IsContextTag(tag: string)
  {
    tag == NounTag || tag == AdjectiveTag || tag == VerbTag
  }

  /** The string a buffer holds after its words were appended one by one. */
  function Concat(ws: seq<string>): string
  {
    if ws == [] then [] else ws[0] + Concat(ws[1..])
  }

  lemma {:induction false} ConcatSnoc(ws: seq<string>, w: string)
    ensures Concat(ws + [w]) == Concat(ws) + w
  {
    if ws != [] {
      assert (ws + [w])[1..] == ws[1..] + [w];
      ConcatSnoc(ws[1..], w);
    } else {
      assert Concat([w]) == w + Concat([]);
    }
  }

  /** Tag and word lists of the same shape, as the parser returns them. */
  ghost predicate Aligned(labels: seq<seq<string>>, words: seq<seq<string>>)
  {
    |labels| == |words| && forall s | 0 <= s < |labels| :: |labels[s]| == |words[s]|
  }

  /** `context_words_table[word] = [[term, 1]]` */
  datatype Write = Write(word: string, term: string)

  /** The table the writes `ws` leave behind when applied to `t` in order. */
  function Record(t: ContextTable, ws: seq<Write>): (r: ContextTable)
    requires DistinctKeys(t)
    ensures DistinctKeys(r)
    decreases |ws|
  {
    if ws == [] then t else Record(Put(t, ws[0].word, [(ws[0].term, 1)]), ws[1..])
  }

  lemma {:induction false} RecordAppend(t: ContextTable, a: seq<Write>, b: seq<Write>)
    requires DistinctKeys(t)
    ensures Record(t, a + b) == Record(Record(t, a), b)
    decreases |a|
  {
    if a != [] {
      assert (a + b)[1..] == a[1..] + b;
      RecordAppend(Put(t, a[0].word, [(a[0].term, 1)]), a[1..], b);
    } else {
      assert a + b == b;
    }
  }

  // ---------------------------------------------------------------------------
  // The forward scan (context words after a term)

  /** The forward scan keeps its buffer after step `i` iff the two-tag window
      `tags[i] + tags[i + 1]` matches the partial pattern. */
  predicate KeepsForward(tags: seq<string>, i: nat)
    requires i + 1 < |tags|
  {
    PartialPattern([CategoryOf(tags[i]), CategoryOf(tags[i + 1])])
  }

  /** Where the forward word buffer of step `i` starts: the start of the
      maximal run of kept windows that ends at `i`. */
  function RunStart(tags: seq<string>, i: nat): (r: nat)
    requires i < |tags|
    ensures r <= i
  {
    if i == 0 then 0 else if KeepsForward(tags, i - 1) then RunStart(tags, i - 1) else i
  }

  /** The run is maximal: every window inside it is kept and the window just
      before it is not. */
  lemma {:induction false} RunStartMeaning(tags: seq<string>, i: nat)
    requires i < |tags|
    ensures forall j | RunStart(tags, i) <= j < i :: KeepsForward(tags, j)
    ensures RunStart(tags, i) > 0 ==> !KeepsForward(tags, RunStart(tags, i) - 1)
  {
    if i > 0 && KeepsForward(tags, i - 1) {
      RunStartMeaning(tags, i - 1);
    }
  }

  /** The writes of forward steps `i, i + 1, ...` of one sentence: at most one
      per step, so fewer than the words from `i` on. */
  function ForwardWrites(tags: seq<string>, words: seq<string>, terms: seq<string>, i: nat): (ws: seq<Write>)
    requires |tags| == |words|
    ensures i < |words| ==> |ws| < |words| - i
    decreases |words| - i
  {
    if i + 1 >= |words| then []
    else
      var term := Concat(words[RunStart(tags, i)..i + 1]);
      (if term in terms && words[i + 1] !in terms && IsContextTag(tags[i + 1])
       then [Write(words[i + 1], term)] else [])
      + ForwardWrites(tags, words, terms, i + 1)
  }

  /** The forward writes of sentences `s, s + 1, ...` */
  function ForwardFrom(labels: seq<seq<string>>, words: seq<seq<string>>, terms: seq<string>, s: nat): seq<Write>
    requires Aligned(labels, words)
    decreases |labels| - s
  {
    if s >= |labels| then []
    else ForwardWrites(labels[s], words[s], terms, 0) + ForwardFrom(labels, words, terms, s + 1)
  }

  /** `next_tag` after the forward scan: the last tag of the last sentence that
      has at least two tokens (the last sentence whose inner loop ran). */
  function LastPairTag(labels: seq<seq<string>>): Option<string>
  {
    if labels == [] then None
    else
      var last := labels[|labels| - 1];
      if |last| >= 2 then Some(last[|last| - 1]) else LastPairTag(labels[..|labels| - 1])
  }

  /** The stale tag is unbound iff no sentence has two tokens, and otherwise
      it is the last tag of the last sentence that has. */
  lemma {:induction false} LastPairTagMeaning(labels: seq<seq<string>>)
    ensures LastPairTag(labels).None? <==> forall s | 0 <= s < |labels| :: |labels[s]| < 2
    ensures LastPairTag(labels).Some? ==> exists s | 0 <= s < |labels| ::
      |labels[s]| >= 2 && LastPairTag(labels).value == labels[s][|labels[s]| - 1] && ShortAfter(labels, s)
  {
    if labels != [] {
      var n := |labels| - 1;
      var init := labels[..n];
      if |labels[n]| < 2 {
        LastPairTagMeaning(init);
        assert forall s | 0 <= s < n :: init[s] == labels[s];
        if LastPairTag(init).Some? {
          var s :| 0 <= s < |init| && |init[s]| >= 2 && LastPairTag(init).value == init[s][|init[s]| - 1] && ShortAfter(init, s);
          assert ShortAfter(labels, s);
        }
      } else {
        assert ShortAfter(labels, n);
      }
    }
  }

  /** No sentence after `s` has two tokens. */
  predicate ShortAfter(labels: seq<seq<string>>, s: nat)
  {
    forall j | s < j < |labels| :: |labels[j]| < 2
  }

  // ---------------------------------------------------------------------------
  // The backward scan (context words before a term)

  /** Before backward step `i` the buffers hold positions `i + 1 .. BufferEnd(i)`:
      the step that added position `i + 1` kept them iff the accumulated tags
      still matched the partial pattern. The match is decided by the automaton
      `Accepts`, which `BufferEndByPattern` shows agrees with the pattern. */
  function BufferEnd(tags: seq<string>, i: nat): (r: nat)
    requires i < |tags|
    ensures i + 1 <= r <= |tags|
    decreases |tags| - i
  {
    if i + 1 == |tags| then |tags|
    else if Accepts(Categories(tags[i + 1..BufferEnd(tags, i + 1)])) then BufferEnd(tags, i + 1)
    else i + 1
  }

  /** The buffer is kept exactly when its tags match the partial pattern. */
  lemma BufferEndByPattern(tags: seq<string>, i: nat)
    requires i + 1 < |tags|
    ensures var e := BufferEnd(tags, i + 1);
      BufferEnd(tags, i) == if PartialPattern(Categories(tags[i + 1..e])) then e else i + 1
  {
    PartialIsAutomaton(Categories(tags[i + 1..BufferEnd(tags, i + 1)]));
  }

  /** The writes of backward steps `i, i - 1, ..., 1` of one sentence; `admitted`
      is the test of the stale `next_tag`, the same for every step. At most one
      write per step. */
  function BackwardWrites(tags: seq<string>, words: seq<string>, terms: seq<string>, admitted: bool, i: nat): (ws: seq<Write>)
    requires |tags| == |words| && i < |words|
    ensures |ws| <= i
  {
    if i == 0 then []
    else
      var term := Concat(words[i..BufferEnd(tags, i)]);
      (if term in terms && words[i - 1] !in terms && admitted then [Write(words[i - 1], term)] else [])
      + BackwardWrites(tags, words, terms, admitted, i - 1)
  }

  function SentenceBackward(tags: seq<string>, words: seq<string>, terms: seq<string>, admitted: bool): seq<Write>
    requires |tags| == |words|
  {
    if |words| == 0 then [] else BackwardWrites(tags, words, terms, admitted, |words| - 1)
  }

  function BackwardFrom(labels: seq<seq<string>>, words: seq<seq<string>>, terms: seq<string>, admitted: bool, s: nat): seq<Write>
    requires Aligned(labels, words)
    decreases |labels| - s
  {
    if s >= |labels| then []
    else SentenceBackward(labels[s], words[s], terms, admitted) + BackwardFrom(labels, words, terms, admitted, s + 1)
  }

  /** Whether the stale `next_tag` passes the context-tag test. */
  predicate StaleTagAdmits(labels: seq<seq<string>>)
  {
    LastPairTag(labels).Some? && IsContextTag(LastPairTag(labels).value)
  }

  /** Every write of both scans, in the order the source performs them. Each
      records a candidate term against a word that is not one. */
  function Writes(labels: seq<seq<string>>, words: seq<seq<string>>, terms: seq<string>): (ws: seq<Write>)
    requires Aligned(labels, words)
    ensures WritesSound(ws, terms)
  {
    var forward, backward := ForwardFrom(labels, words, terms, 0), BackwardFrom(labels, words, terms, StaleTagAdmits(labels), 0);
    AllWritesSound(labels, words, terms, 0);
    SoundAppend(forward, backward, terms);
    forward + backward
  }

  /** The context-word table of a tagged corpus: a dictionary none of whose
      keys is a candidate term. */
  function ContextTableOf(labels: seq<seq<string>>, words: seq<seq<string>>, terms: seq<string>): (t: ContextTable)
    requires Aligned(labels, words)
    ensures KeysAreNotTerms(t, terms)
  {
    var ws := Writes(labels, words, terms);
    RecordKeepsKeysNotTerms([], ws, terms);
    Record([], ws)
  }

  // ---------------------------------------------------------------------------
  // The scans as the source performs them

  /** No key of the table is a candidate term. */
  ghost predicate KeysAreNotTerms(table: ContextTable, terms: seq<string>)
  {
    DistinctKeys(table) && forall k | k in Keys(table) :: k !in terms
  }

  lemma PutKeepsKeysNotTerms(t: ContextTable, terms: seq<string>, k: string, v: Associations)
    requires KeysAreNotTerms(t, terms) && k !in terms
    ensures KeysAreNotTerms(Put(t, k, v), terms)
  {
    var r := Put(t, k, v);
    forall x | x in Keys(r) ensures x !in terms {
      var j :| 0 <= j < |r| && Keys(r)[j] == x;
      if j < |t| && t[j].0 != k {
        assert Keys(t)[j] == x;
      }
    }
  }

  /** The write both scans share (lines 78-83 and 101-106): a buffered term
      followed (or preceded) by a word that is not a term, with a context tag,
      makes that word a key mapped to `[[term, 1]]`. The `elif` branch cannot
      run: it needs the term to be a key, but keys are context words and no
      context word is a term. */
  method Associate(table0: ContextTable, terms: seq<string>, term: string, word: string, tag: string)
    returns (table: ContextTable)
    requires KeysAreNotTerms(table0, terms)
    ensures KeysAreNotTerms(table, terms)
    ensures table == if term in terms && word !in terms && IsContextTag(tag) then Put(table0, word, [(term, 1)]) else table0
  {
    table := table0;
    if term in terms && word !in terms {
      if IsContextTag(tag) {
        if term !in Keys(table) {
          PutKeepsKeysNotTerms(table, terms, word, [(term, 1)]);
          table := Put(table, word, [(term, 1)]);
        } else {
          assert false;
        }
      }
    }
  }

  /** One sentence of the forward scan (lines 70-89). */
  method ForwardSentence(tags: seq<string>, sentence: seq<string>, terms: seq<string>,
                         table0: ContextTable, nextTag0: Option<string>)
    returns (table: ContextTable, nextTag: Option<string>)
    requires |tags| == |sentence| && KeysAreNotTerms(table0, terms)
    ensures KeysAreNotTerms(table, terms)
    ensures table == Record(table0, ForwardWrites(tags, sentence, terms, 0))
    ensures nextTag == if |sentence| >= 2 then Some(tags[|tags| - 1]) else nextTag0
  {
    table, nextTag := table0, nextTag0;
    var wordBuffer: string := [];
    var tagBuffer: seq<Category> := [];
    var i := 0;
    ghost var start := 0;
    while i + 1 < |sentence|
      invariant i == 0 || i < |sentence|
      invariant KeysAreNotTerms(table, terms)
      invariant 0 < |sentence| ==> start == RunStart(tags, i) && wordBuffer == Concat(sentence[start..i])
      invariant Record(table, ForwardWrites(tags, sentence, terms, i)) == Record(table0, ForwardWrites(tags, sentence, terms, 0))
      invariant nextTag == if i == 0 then nextTag0 else Some(tags[i])
      decreases |sentence| - i
    {
      var j := i + 1;
      var curTag, curWord, next, nextWord := tags[i], sentence[i], tags[j], sentence[j];
      nextTag := Some(next);
      var term := wordBuffer + curWord;
      tagBuffer := [CategoryOf(curTag), CategoryOf(next)];
      var table' := Associate(table, terms, term, nextWord, next);
      var keep := PartialPattern(tagBuffer);
      RunAdvance(tags, sentence, i, j, start, wordBuffer, keep);
      ForwardStep(tags, sentence, terms, i, j, term, table, table');
      table := table';
      tagBuffer := if keep then tagBuffer else [];
      wordBuffer := if keep then term else [];
      start := if keep then start else j;
      i := j;
    }
  }

  /** Forward step `i` appends word `i` to the buffer, which step `j == i + 1`
      keeps iff the window at `i` matches the partial pattern. */
  lemma RunAdvance(tags: seq<string>, words: seq<string>, i: nat, j: nat, start: nat, wb: string, keep: bool)
    requires |tags| == |words| && j == i + 1 && j < |words|
    requires start == RunStart(tags, i) && wb == Concat(words[start..i])
    requires keep == PartialPattern([CategoryOf(tags[i]), CategoryOf(tags[j])])
    ensures wb + words[i] == Concat(words[RunStart(tags, i)..j])
    ensures (if keep then start else j) == RunStart(tags, j)
    ensures (if keep then wb + words[i] else []) == Concat(words[(if keep then start else j)..j])
  {
    RunStartNext(tags, i, j, keep);
    BufferSnoc(words, start, i, j);
  }

  lemma RunStartNext(tags: seq<string>, i: nat, j: nat, keep: bool)
    requires j == i + 1 && j < |tags|
    requires keep == PartialPattern([CategoryOf(tags[i]), CategoryOf(tags[j])])
    ensures RunStart(tags, j) == if keep then RunStart(tags, i) else j
  {
    assert KeepsForward(tags, i) == keep;
  }

  lemma BufferSnoc(words: seq<string>, start: nat, i: nat, j: nat)
    requires start <= i && j == i + 1 && j <= |words|
    ensures Concat(words[start..i]) + words[i] == Concat(words[start..j])
  {
    ConcatSnoc(words[start..i], words[i]);
    assert words[start..j] == words[start..i] + [words[i]];
  }

  /** Forward step `i` writes the buffered term against `words[j]`, `j == i + 1`,
      when the term is a candidate, the word is not, and the tag at `j` is a
      context tag. */
  lemma ForwardStep(tags: seq<string>, words: seq<string>, terms: seq<string>,
                    i: nat, j: nat, term: string, t: ContextTable, t': ContextTable)
    requires |tags| == |words| && j == i + 1 && j < |words| && DistinctKeys(t)
    requires term == Concat(words[RunStart(tags, i)..j])
    requires t' == if term in terms && words[j] !in terms && IsContextTag(tags[j]) then Put(t, words[j], [(term, 1)]) else t
    ensures Record(t', ForwardWrites(tags, words, terms, j)) == Record(t, ForwardWrites(tags, words, terms, i))
  {
    var written := term in terms && words[j] !in terms && IsContextTag(tags[j]);
    var step := if written then [Write(words[j], term)] else [];
    var rest := ForwardWrites(tags, words, terms, j);
    ForwardWritesAt(tags, words, terms, i, j, term);
    RecordAppend(t, step, rest);
    RecordOne(t, step, words[j], term);
  }

  lemma ForwardWritesAt(tags: seq<string>, words: seq<string>, terms: seq<string>, i: nat, j: nat, term: string)
    requires |tags| == |words| && j == i + 1 && j < |words|
    requires term == Concat(words[RunStart(tags, i)..j])
    ensures ForwardWrites(tags, words, terms, i) ==
            (if term in terms && words[j] !in terms && IsContextTag(tags[j]) then [Write(words[j], term)] else [])
            + ForwardWrites(tags, words, terms, j)
  {
  }

  /** Lines 66-89: the forward scan over every sentence. */
  method ForwardPass(labels: seq<seq<string>>, words: seq<seq<string>>, terms: seq<string>)
    returns (table: ContextTable, nextTag: Option<string>)
    requires Aligned(labels, words)
    ensures KeysAreNotTerms(table, terms)
    ensures table == Record([], ForwardFrom(labels, words, terms, 0))
    ensures nextTag == LastPairTag(labels)
  {
    table := [];
    nextTag := None;
    var s := 0;
    while s < |labels|
      invariant s <= |labels|
      invariant KeysAreNotTerms(table, terms)
      invariant Record(table, ForwardFrom(labels, words, terms, s)) == Record([], ForwardFrom(labels, words, terms, 0))
      invariant nextTag == LastPairTag(labels[..s])
    {
      var n := s + 1;
      ghost var before, tagBefore := table, nextTag;
      table, nextTag := ForwardSentence(labels[s], words[s], terms, table, nextTag);
      ForwardPassStep(labels, words, terms, s, n, before, tagBefore, table, nextTag);
      s := n;
    }
    assert labels[..|labels|] == labels;
  }

  /** After sentence `s` of the forward scan, the invariants hold at `n == s + 1`. */
  lemma ForwardPassStep(labels: seq<seq<string>>, words: seq<seq<string>>, terms: seq<string>, s: nat, n: nat,
                        t: ContextTable, tag: Option<string>, t': ContextTable, tag': Option<string>)
    requires Aligned(labels, words) && n == s + 1 && s < |labels| && DistinctKeys(t)
    requires Record(t, ForwardFrom(labels, words, terms, s)) == Record([], ForwardFrom(labels, words, terms, 0))
    requires tag == LastPairTag(labels[..s])
    requires t' == Record(t, ForwardWrites(labels[s], words[s], terms, 0))
    requires tag' == if |words[s]| >= 2 then Some(labels[s][|labels[s]| - 1]) else tag
    ensures Record(t', ForwardFrom(labels, words, terms, n)) == Record([], ForwardFrom(labels, words, terms, 0))
    ensures tag' == LastPairTag(labels[..n])
  {
    ForwardSentenceDone(labels, words, terms, s, n, t);
    LastPairTagExtends(labels, s, n);
  }

  /** Recording sentence `s` and then the sentences after it records them all. */
  lemma ForwardSentenceDone(labels: seq<seq<string>>, words: seq<seq<string>>, terms: seq<string>, s: nat, n: nat,
                             t: ContextTable)
    requires Aligned(labels, words) && n == s + 1 && s < |labels| && DistinctKeys(t)
    ensures Record(t, ForwardFrom(labels, words, terms, s)) ==
            Record(Record(t, ForwardWrites(labels[s], words[s], terms, 0)), ForwardFrom(labels, words, terms, n))
  {
    RecordAppend(t, ForwardWrites(labels[s], words[s], terms, 0), ForwardFrom(labels, words, terms, n));
  }

  /** The stale tag after sentence `s` is its last tag if it has a pair, and
      the earlier one otherwise. */
  lemma LastPairTagExtends(labels: seq<seq<string>>, s: nat, n: nat)
    requires n == s + 1 && s < |labels|
    ensures LastPairTag(labels[..n]) ==
            if |labels[s]| >= 2 then Some(labels[s][|labels[s]| - 1]) else LastPairTag(labels[..s])
  {
    assert labels[..n][..s] == labels[..s];
  }

  lemma {:induction false} LastPairTagFound(labels: seq<seq<string>>, s: nat)
    requires s < |labels| && |labels[s]| >= 2
    ensures LastPairTag(labels).Some?
  {
    var last := labels[|labels| - 1];
    if |last| < 2 {
      assert s < |labels| - 1;
      assert labels[..|labels| - 1][s] == labels[s];
      LastPairTagFound(labels[..|labels| - 1], s);
    }
  }

  /** One sentence of the backward scan (lines 94-112). `nextTag` is the stale
      `next_tag`; it is bound whenever this loop runs, since a sentence of two
      or more tokens also ran the forward loop. The regular-expression match of
      line 108 is run on the automaton `Accepts`. */
  method BackwardSentence(tags: seq<string>, sentence: seq<string>, terms: seq<string>,
                          nextTag: Option<string>, table0: ContextTable)
    returns (table: ContextTable)
    requires |tags| == |sentence| && KeysAreNotTerms(table0, terms)
    requires |sentence| >= 2 ==> nextTag.Some?
    ensures KeysAreNotTerms(table, terms)
    ensures table == Record(table0, SentenceBackward(tags, sentence, terms, nextTag.Some? && IsContextTag(nextTag.value)))
  {
    ghost var admitted := nextTag.Some? && IsContextTag(nextTag.value);
    table := table0;
    if |sentence| == 0 {
      return;
    }
    var wordBuffer: string := [];
    var tagBuffer: seq<Category> := [];
    var i := |sentence| - 1;
    ghost var end := |sentence|;
    while i > 0
      invariant 0 <= i < |sentence|
      invariant KeysAreNotTerms(table, terms)
      invariant end == BufferEnd(tags, i)
      invariant wordBuffer == Concat(sentence[i + 1..end])
      invariant tagBuffer == Categories(tags[i + 1..end])
      invariant Record(table, BackwardWrites(tags, sentence, terms, admitted, i)) ==
                Record(table0, BackwardWrites(tags, sentence, terms, admitted, |sentence| - 1))
    {
      var j := i - 1;
      var curTag, curWord, prevWord := tags[i], sentence[i], sentence[j];
      var term := curWord + wordBuffer;
      var cats := [CategoryOf(curTag)] + tagBuffer;
      var table' := Associate(table, terms, term, prevWord, nextTag.value);
      var keep := Accepts(cats);
      BufferAdvance(tags, sentence, i, j, end, wordBuffer, tagBuffer, keep);
      BackwardStep(tags, sentence, terms, admitted, i, j, term, table, table');
      table := table';
      wordBuffer := if keep then term else [];
      tagBuffer := if keep then cats else [];
      end := if keep then end else i;
      i := j;
    }
    assert BackwardWrites(tags, sentence, terms, admitted, 0) == [];
  }

  /** Backward step `i` prepends position `i` to both buffers and keeps them
      for step `j == i - 1` iff their tags still match the partial pattern. */
  lemma BufferAdvance(tags: seq<string>, words: seq<string>, i: nat, j: nat, end: nat,
                      wb: string, tb: seq<Category>, keep: bool)
    requires |tags| == |words| && i == j + 1 && i < |words|
    requires end == BufferEnd(tags, i) && wb == Concat(words[i + 1..end]) && tb == Categories(tags[i + 1..end])
    requires keep == Accepts([CategoryOf(tags[i])] + tb)
    ensures words[i] + wb == Concat(words[i..BufferEnd(tags, i)])
    ensures (if keep then end else i) == BufferEnd(tags, j)
    ensures (if keep then words[i] + wb else []) == Concat(words[j + 1..if keep then end else i])
    ensures (if keep then [CategoryOf(tags[i])] + tb else []) == Categories(tags[j + 1..if keep then end else i])
  {
    assert words[i..end][1..] == words[i + 1..end];
    assert tags[i..end][1..] == tags[i + 1..end];
    assert Categories(tags[i..end]) == [CategoryOf(tags[i])] + tb;
  }

  /** Backward step `i` writes the buffered term against `words[j]`, `j == i - 1`,
      when the term is a candidate, the word is not, and the stale tag admits it. */
  lemma BackwardStep(tags: seq<string>, words: seq<string>, terms: seq<string>, admitted: bool,
                     i: nat, j: nat, term: string, t: ContextTable, t': ContextTable)
    requires |tags| == |words| && i == j + 1 && i < |words| && DistinctKeys(t)
    requires term == Concat(words[i..BufferEnd(tags, i)])
    requires t' == if term in terms && words[j] !in terms && admitted then Put(t, words[j], [(term, 1)]) else t
    ensures Record(t', BackwardWrites(tags, words, terms, admitted, j)) ==
            Record(t, BackwardWrites(tags, words, terms, admitted, i))
  {
    var written := term in terms && words[j] !in terms && admitted;
    var step := if written then [Write(words[j], term)] else [];
    var rest := BackwardWrites(tags, words, terms, admitted, j);
    BackwardWritesAt(tags, words, terms, admitted, i, j, term);
    RecordAppend(t, step, rest);
    RecordOne(t, step, words[j], term);
  }

  lemma BackwardWritesAt(tags: seq<string>, words: seq<string>, terms: seq<string>, admitted: bool,
                         i: nat, j: nat, term: string)
    requires |tags| == |words| && i == j + 1 && i < |words|
    requires term == Concat(words[i..BufferEnd(tags, i)])
    ensures BackwardWrites(tags, words, terms, admitted, i) ==
            (if term in terms && words[j] !in terms && admitted then [Write(words[j], term)] else [])
            + BackwardWrites(tags, words, terms, admitted, j)
  {
  }

  lemma RecordOne(t: ContextTable, step: seq<Write>, word: string, term: string)
    requires DistinctKeys(t) && (step == [] || step == [Write(word, term)])
    ensures Record(t, step) == if step == [] then t else Put(t, word, [(term, 1)])
  {
    if step != [] { assert step[1..] == []; }
  }

  /** Lines 92-112: the backward scan over every sentence, starting from the
      table the forward scan left. It tests `next_tag`, which still holds the
      value the forward scan left in it. */
  method BackwardPass(labels: seq<seq<string>>, words: seq<seq<string>>, terms: seq<string>,
                      nextTag: Option<string>, table0: ContextTable)
    returns (table: ContextTable)
    requires Aligned(labels, words) && KeysAreNotTerms(table0, terms)
    requires nextTag == LastPairTag(labels)
    ensures KeysAreNotTerms(table, terms)
    ensures table == Record(table0, BackwardFrom(labels, words, terms, StaleTagAdmits(labels), 0))
  {
    table := table0;
    ghost var admitted := StaleTagAdmits(labels);
    assert admitted == (nextTag.Some? && IsContextTag(nextTag.value));
    for s := 0 to |labels|
      invariant KeysAreNotTerms(table, terms)
      invariant Record(table, BackwardFrom(labels, words, terms, admitted, s)) ==
                Record(table0, BackwardFrom(labels, words, terms, admitted, 0))
    {
      if |words[s]| >= 2 {
        LastPairTagFound(labels, s);
      }
      ghost var before := table;
      table := BackwardSentence(labels[s], words[s], terms, nextTag, table);
      SentenceDone(labels, words, terms, admitted, s, before);
    }
  }

  /** Recording sentence `s` and then the sentences after it records them all. */
  lemma SentenceDone(labels: seq<seq<string>>, words: seq<seq<string>>, terms: seq<string>, admitted: bool,
                     s: nat, t: ContextTable)
    requires Aligned(labels, words) && s < |labels| && DistinctKeys(t)
    ensures Record(t, BackwardFrom(labels, words, terms, admitted, s)) ==
            Record(Record(t, SentenceBackward(labels[s], words[s], terms, admitted)),
                   BackwardFrom(labels, words, terms, admitted, s + 1))
  {
    RecordAppend(t, SentenceBackward(labels[s], words[s], terms, admitted),
                 BackwardFrom(labels, words, terms, admitted, s + 1));
  }

  /** `build_context_words_table_from`: parse the texts, then run both scans
      against the keys of the frequency table. */
  method BuildContextWordsTable(texts: seq<string>, freq: FrequencyTable) returns (table: ContextTable)
    ensures Aligned(AllTags(texts), AllSurfaces(texts))
    ensures table == ContextTableOf(AllTags(texts), AllSurfaces(texts), Keys(freq))
  {
    var labels, words := MorphologicalLabels(texts);
    var terms := Keys(freq);
    var nextTag;
    table, nextTag := ForwardPass(labels, words, terms);
    table := BackwardPass(labels, words, terms, nextTag, table);
    RecordAppend([], ForwardFrom(labels, words, terms, 0), BackwardFrom(labels, words, terms, StaleTagAdmits(labels), 0));
  }

  // ---------------------------------------------------------------------------
  // What the table means

  /** The term of the last write for word `w`, if any. */
  function LastTermFor(ws: seq<Write>, w: string): (r: Option<string>)
    ensures r.Some? ==> exists i | 0 <= i < |ws| :: ws[i] == Write(w, r.value) && LaterWritesMiss(ws, w, i)
    ensures r.None? ==> forall i | 0 <= i < |ws| :: ws[i].word != w
  {
    if ws == [] then None
    else match LastTermFor(ws[1..], w)
      case Some(t) =>
        var i :| 0 <= i < |ws[1..]| && ws[1..][i] == Write(w, t) && LaterWritesMiss(ws[1..], w, i);
        assert ws[i + 1] == Write(w, t);
        assert LaterWritesMiss(ws, w, i + 1) by {
          forall j | i + 1 < j < |ws| ensures ws[j].word != w { assert ws[j] == ws[1..][j - 1]; }
        }
        Some(t)
      case None =>
        assert forall j | 1 <= j < |ws| :: ws[j].word != w by {
          forall j | 1 <= j < |ws| ensures ws[j].word != w { assert ws[j] == ws[1..][j - 1]; }
        }
        if ws[0].word == w then
          assert LaterWritesMiss(ws, w, 0);
          Some(ws[0].term)
        else None
  }

  predicate LaterWritesMiss(ws: seq<Write>, w: string, i: nat)
  {
    forall j | i < j < |ws| :: ws[j].word != w
  }

  /** Every write overwrites: after a sequence of writes a word is a key iff it
      was one already or some write named it, and the last write for it wins. */
  lemma {:induction false} RecordLastWins(t: ContextTable, ws: seq<Write>, w: string)
    requires DistinctKeys(t)
    ensures w in Keys(Record(t, ws)) <==> w in Keys(t) || LastTermFor(ws, w).Some?
    ensures LastTermFor(ws, w).Some? ==> Lookup(Record(t, ws), w) == [(LastTermFor(ws, w).value, 1)]
    ensures LastTermFor(ws, w).None? && w in Keys(t) ==> Lookup(Record(t, ws), w) == Lookup(t, w)
    decreases |ws|
  {
    if ws != [] {
      var t' := Put(t, ws[0].word, [(ws[0].term, 1)]);
      PutLookup(t, ws[0].word, [(ws[0].term, 1)], w);
      RecordLastWins(t', ws[1..], w);
    }
  }

  /** Every write of the scans records a term next to a word that is not one. */
  ghost predicate WritesSound(ws: seq<Write>, terms: seq<string>)
  {
    forall i | 0 <= i < |ws| :: ws[i].term in terms && ws[i].word !in terms
  }

  /** Sound writes never make a candidate term a key. */
  lemma {:induction false} RecordKeepsKeysNotTerms(t: ContextTable, ws: seq<Write>, terms: seq<string>)
    requires KeysAreNotTerms(t, terms) && WritesSound(ws, terms)
    ensures KeysAreNotTerms(Record(t, ws), terms)
    decreases |ws|
  {
    if ws != [] {
      PutKeepsKeysNotTerms(t, terms, ws[0].word, [(ws[0].term, 1)]);
      assert WritesSound(ws[1..], terms) by {
        forall i | 0 <= i < |ws[1..]| ensures ws[1..][i].term in terms && ws[1..][i].word !in terms {
          assert ws[1..][i] == ws[i + 1];
        }
      }
      RecordKeepsKeysNotTerms(Put(t, ws[0].word, [(ws[0].term, 1)]), ws[1..], terms);
    }
  }

  lemma {:induction false} ForwardWritesSound(tags: seq<string>, words: seq<string>, terms: seq<string>, i: nat)
    requires |tags| == |words|
    ensures WritesSound(ForwardWrites(tags, words, terms, i), terms)
    decreases |words| - i
  {
    if i + 1 < |words| {
      var j, term := i + 1, Concat(words[RunStart(tags, i)..i + 1]);
      ForwardWritesSound(tags, words, terms, j);
      ForwardWritesAt(tags, words, terms, i, j, term);
      var step := if term in terms && words[j] !in terms && IsContextTag(tags[j]) then [Write(words[j], term)] else [];
      SoundAppend(step, ForwardWrites(tags, words, terms, j), terms);
    }
  }

  lemma SoundAppend(a: seq<Write>, b: seq<Write>, terms: seq<string>)
    requires WritesSound(a, terms) && WritesSound(b, terms)
    ensures WritesSound(a + b, terms)
  {
    forall k | 0 <= k < |a + b| ensures (a + b)[k].term in terms && (a + b)[k].word !in terms {
      if k >= |a| { assert (a + b)[k] == b[k - |a|]; }
    }
  }

  lemma {:induction false} BackwardWritesSound(tags: seq<string>, words: seq<string>, terms: seq<string>, admitted: bool, i: nat)
    requires |tags| == |words| && i < |words|
    ensures WritesSound(BackwardWrites(tags, words, terms, admitted, i), terms)
  {
    if i > 0 {
      var j, term := i - 1, Concat(words[i..BufferEnd(tags, i)]);
      BackwardWritesSound(tags, words, terms, admitted, j);
      BackwardWritesAt(tags, words, terms, admitted, i, j, term);
      var step := if term in terms && words[j] !in terms && admitted then [Write(words[j], term)] else [];
      SoundAppend(step, BackwardWrites(tags, words, terms, admitted, j), terms);
    }
  }

  lemma {:induction false} AllWritesSound(labels: seq<seq<string>>, words: seq<seq<string>>, terms: seq<string>, s: nat)
    requires Aligned(labels, words)
    ensures WritesSound(ForwardFrom(labels, words, terms, s), terms)
    ensures forall admitted: bool :: WritesSound(BackwardFrom(labels, words, terms, admitted, s), terms)
    decreases |labels| - s
  {
    if s < |labels| {
      AllWritesSound(labels, words, terms, s + 1);
      ForwardWritesSound(labels[s], words[s], terms, 0);
      SoundAppend(ForwardWrites(labels[s], words[s], terms, 0), ForwardFrom(labels, words, terms, s + 1), terms);
      forall admitted: bool ensures WritesSound(BackwardFrom(labels, words, terms, admitted, s), terms) {
        SentenceBackwardSound(labels[s], words[s], terms, admitted);
        SoundAppend(SentenceBackward(labels[s], words[s], terms, admitted),
                    BackwardFrom(labels, words, terms, admitted, s + 1), terms);
      }
    }
  }

  lemma SentenceBackwardSound(tags: seq<string>, words: seq<string>, terms: seq<string>, admitted: bool)
    requires |tags| == |words|
    ensures WritesSound(SentenceBackward(tags, words, terms, admitted), terms)
  {
    if |words| > 0 {
      BackwardWritesSound(tags, words, terms, admitted, |words| - 1);
    }
  }

  /** The context-word table: a word is a key iff one of the scans recorded a
      term next to it, and it maps to `[[term, 1]]` for the last such term.
      Keys are never terms, and the recorded term always is one. */
  lemma ContextTableMeaning(labels: seq<seq<string>>, words: seq<seq<string>>, terms: seq<string>, w: string)
    requires Aligned(labels, words)
    ensures var table, last := ContextTableOf(labels, words, terms), LastTermFor(Writes(labels, words, terms), w);
      && (w in Keys(table) <==> last.Some?)
      && (last.Some? ==> Lookup(table, w) == [(last.value, 1)] && last.value in terms && w !in terms)
  {
    var ws := Writes(labels, words, terms);
    RecordLastWins([], ws, w);
    AllWritesSound(labels, words, terms, 0);
    assert WritesSound(ws, terms);
  }

  /** Every entry of the context-word table has the shape `word: [[term, 1]]`
      with `term` a candidate term and `word` not one. */
  lemma ContextTableShape(labels: seq<seq<string>>, words: seq<seq<string>>, terms: seq<string>, i: nat)
    requires Aligned(labels, words) && i < |ContextTableOf(labels, words, terms)|
    ensures var e := ContextTableOf(labels, words, terms)[i];
      e.0 !in terms && |e.1| == 1 && e.1[0].0 in terms && e.1[0].1 == 1
  {
    var table := ContextTableOf(labels, words, terms);
    LookupAt(table, i);
    ContextTableMeaning(labels, words, terms, table[i].0);
  }

  lemma {:induction false} NoBackwardWrites(labels: seq<seq<string>>, words: seq<seq<string>>, terms: seq<string>, s: nat)
    requires Aligned(labels, words)
    ensures BackwardFrom(labels, words, terms, false, s) == []
    decreases |labels| - s
  {
    if s < |labels| {
      NoBackwardWrites(labels, words, terms, s + 1);
      if |words[s]| > 0 {
        NoBackwardSentenceWrites(labels[s], words[s], terms, |words[s]| - 1);
      }
    }
  }

  lemma {:induction false} NoBackwardSentenceWrites(tags: seq<string>, words: seq<string>, terms: seq<string>, i: nat)
    requires |tags| == |words| && i < |words|
    ensures BackwardWrites(tags, words, terms, false, i) == []
  {
    if i > 0 {
      NoBackwardSentenceWrites(tags, words, terms, i - 1);
    }
  }

  /** Because the backward scan tests the stale `next_tag`, it records nothing
      at all unless the last tag of the last sentence with two or more tokens
      is a noun, adjective or verb tag. */
  lemma StaleTagSilencesBackwardScan(labels: seq<seq<string>>, words: seq<seq<string>>, terms: seq<string>)
    requires Aligned(labels, words) && !StaleTagAdmits(labels)
    ensures ContextTableOf(labels, words, terms) == Record([], ForwardFrom(labels, words, terms, 0))
  {
    NoBackwardWrites(labels, words, terms, 0);
    assert Writes(labels, words, terms) == ForwardFrom(labels, words, terms, 0);
  }

  /** The sentence 5 ミリメートル 角 程度 に (four nouns and a particle) with the
      nested terms 5ミリメートル, 5ミリメートル角 and 5ミリメートル角程度: the
      forward scan records 角 after the first and 程度 after the second, and
      the backward scan records nothing, since the stale tag is the particle's. */
  lemma ContextExample()
    ensures var t1, t2, t3 := "5ミリメートル", "5ミリメートル角", "5ミリメートル角程度";
      var labels := [[NounTag, NounTag, NounTag, NounTag, "助詞"]];
      var words := [["5", "ミリメートル", "角", "程度", "に"]];
      Aligned(labels, words) &&
      ContextTableOf(labels, words, [t1, t2, t3]) == [("角", [(t1, 1)]), ("程度", [(t2, 1)])]
  {
    var t1, t2, t3 := "5ミリメートル", "5ミリメートル角", "5ミリメートル角程度";
    var terms := [t1, t2, t3];
    var tags := [NounTag, NounTag, NounTag, NounTag, "助詞"];
    var sentence := ["5", "ミリメートル", "角", "程度", "に"];
    var labels, words := [tags], [sentence];
    assert Aligned(labels, words);
    ExampleForwardWrites();
    assert ForwardFrom(labels, words, terms, 0) == [Write("角", t1), Write("程度", t2)];
    assert LastPairTag(labels) == Some("助詞");
    assert "助詞" != NounTag && "助詞" != AdjectiveTag && "助詞" != VerbTag;
    StaleTagSilencesBackwardScan(labels, words, terms);
    ExampleRecord(t1, t2);
  }

  lemma ExampleRecord(t1: string, t2: string)
    ensures Record([], [Write("角", t1), Write("程度", t2)]) == [("角", [(t1, 1)]), ("程度", [(t2, 1)])]
  {
    var r1 := Put([], "角", [(t1, 1)]);
    assert r1 == [("角", [(t1, 1)])];
    assert Keys(r1) == ["角"];
    assert "程度" !in Keys(r1);
    var r2 := Put(r1, "程度", [(t2, 1)]);
    assert r2 == [("角", [(t1, 1)]), ("程度", [(t2, 1)])];
    assert Record(r1, [Write("程度", t2)]) == Record(r2, []);
    assert Record([], [Write("角", t1), Write("程度", t2)]) == Record(r1, [Write("程度", t2)]);
  }

  lemma ExampleForwardWrites()
    ensures var t1, t2, t3 := "5ミリメートル", "5ミリメートル角", "5ミリメートル角程度";
      var tags := [NounTag, NounTag, NounTag, NounTag, "助詞"];
      var sentence := ["5", "ミリメートル", "角", "程度", "に"];
      ForwardWrites(tags, sentence, [t1, t2, t3], 0) == [Write("角", t1), Write("程度", t2)]
  {
    var t1, t2, t3 := "5ミリメートル", "5ミリメートル角", "5ミリメートル角程度";
    var terms := [t1, t2, t3];
    var tags := [NounTag, NounTag, NounTag, NounTag, "助詞"];
    var sentence := ["5", "ミリメートル", "角", "程度", "に"];
    assert |t1| == 7 && |t2| == 8 && |t3| == 10;
    assert "5" !in terms && "角" !in terms && "程度" !in terms && "に" !in terms;
    PartialPair(Noun, Noun);
    assert KeepsForward(tags, 0) && KeepsForward(tags, 1) && KeepsForward(tags, 2);
    assert RunStart(tags, 1) == 0 && RunStart(tags, 2) == 0 && RunStart(tags, 3) == 0;
    assert Concat(sentence[0..1]) == "5";
    assert Concat(sentence[0..2]) == t1 by { ConcatSnoc(sentence[0..1], sentence[1]); assert sentence[0..2] == sentence[0..1] + [sentence[1]]; }
    assert Concat(sentence[0..3]) == t2 by { ConcatSnoc(sentence[0..2], sentence[2]); assert sentence[0..3] == sentence[0..2] + [sentence[2]]; }
    assert Concat(sentence[0..4]) == t3 by { ConcatSnoc(sentence[0..3], sentence[3]); assert sentence[0..4] == sentence[0..3] + [sentence[3]]; }
    assert ForwardWrites(tags, sentence, terms, 3) == [];
    assert ForwardWrites(tags, sentence, terms, 2) == [Write("程度", t2)];
    assert ForwardWrites(tags, sentence, terms, 1) == [Write("角", t1), Write("程度", t2)];
  }
}
