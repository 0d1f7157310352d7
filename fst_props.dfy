/** What `lexicon_to_fst_no_sil` promises about the transducer it builds:
    when it fails and with which error, how many states it allocates, the
    private chain of every pronunciation, the single terminating arc and the
    stable sort by source state. */
module FstProperties {
  import opened Lexicon
  import opened Arcs
  import opened SelfLoops
  import opened FstBuilder

  // ---------------------------------------------------------------------------
  // Success and failure

  /** The entry has tokens, its word is in the word table and every token is
      in the token table. */
  predicate Resolvable(e: Entry, token2id: map<Token, int>, word2id: map<Word, int>) {
    |e.pron| > 0 && e.word in word2id && forall k :: 0 <= k < |e.pron| ==> e.pron[k] in token2id
  }

  /** `<unk>` has token id 0 and `<eps>` has word id 0. */
  predicate ReservedIdsOk(token2id: map<Token, int>, word2id: map<Word, int>) {
    "<unk>" in token2id && token2id["<unk>"] == 0 && "<eps>" in word2id && word2id["<eps>"] == 0
  }

  /** `#0` is in both tables whenever self-loops are asked for. */
  predicate DisambigZeroOk(token2id: map<Token, int>, word2id: map<Word, int>, needSelfLoops: bool) {
    needSelfLoops ==> "#0" in token2id && "#0" in word2id
  }

  lemma ResolveEntryOkIff(e: Entry, token2id: map<Token, int>, word2id: map<Word, int>)
    ensures ResolveEntry(e, token2id, word2id).Ok? <==> Resolvable(e, token2id, word2id)
    ensures ResolveEntry(e, token2id, word2id).Ok? ==>
              var x := ResolveEntry(e, token2id, word2id).value;
              x.wordId == word2id[e.word] && |x.tokenIds| == |e.pron|
              && forall k :: 0 <= k < |e.pron| ==> x.tokenIds[k] == token2id[e.pron[k]]
  {
  }

  /** The lexicon resolves exactly when every entry does, and then the `i`-th
      result holds the ids of the `i`-th entry. */
  lemma {:induction false} ResolveAllOkIff(lex: seq<Entry>, token2id: map<Token, int>, word2id: map<Word, int>)
    ensures ResolveAll(lex, token2id, word2id).Ok? <==> forall i :: 0 <= i < |lex| ==> Resolvable(lex[i], token2id, word2id)
    ensures ResolveAll(lex, token2id, word2id).Ok? ==>
              var rs := ResolveAll(lex, token2id, word2id).value;
              |rs| == |lex|
              && forall i :: 0 <= i < |lex| ==> rs[i] == ResolveEntry(lex[i], token2id, word2id).value
    decreases |lex|
  {
    if |lex| > 0 {
      var prev := lex[..|lex| - 1];
      var last := lex[|lex| - 1];
      ResolveAllOkIff(prev, token2id, word2id);
      ResolveEntryOkIff(last, token2id, word2id);
      forall i | 0 <= i < |prev| ensures prev[i] == lex[i] { }
      if ResolveAll(lex, token2id, word2id).Ok? {
        var rs := ResolveAll(lex, token2id, word2id).value;
        assert rs == ResolveAll(prev, token2id, word2id).value + [ResolveEntry(last, token2id, word2id).value];
      }
    }
  }

  /** A lexicon that does not resolve fails with the error of its first
      entry that does not. */
  lemma {:induction false} ResolveAllFirstError(lex: seq<Entry>, token2id: map<Token, int>, word2id: map<Word, int>)
    requires ResolveAll(lex, token2id, word2id).Err?
    ensures exists i :: 0 <= i < |lex| && !Resolvable(lex[i], token2id, word2id)
              && (forall j :: 0 <= j < i ==> Resolvable(lex[j], token2id, word2id))
              && ResolveAll(lex, token2id, word2id).error == ResolveEntry(lex[i], token2id, word2id).error
    decreases |lex|
  {
    var prev := lex[..|lex| - 1];
    var last := lex[|lex| - 1];
    ResolveEntryOkIff(last, token2id, word2id);
    forall i | 0 <= i < |prev| ensures prev[i] == lex[i] { }
    if ResolveAll(prev, token2id, word2id).Err? {
      ResolveAllFirstError(prev, token2id, word2id);
      var i :| 0 <= i < |prev| && !Resolvable(prev[i], token2id, word2id)
               && (forall j :: 0 <= j < i ==> Resolvable(prev[j], token2id, word2id))
               && ResolveAll(prev, token2id, word2id).error == ResolveEntry(prev[i], token2id, word2id).error;
      assert lex[i] == prev[i];
    } else {
      ResolveAllOkIff(prev, token2id, word2id);
      assert !Resolvable(lex[|lex| - 1], token2id, word2id);
    }
  }

  /** `lexicon_to_fst_no_sil` succeeds exactly when the reserved ids are 0,
      every entry has tokens and all its symbols are in the tables, and `#0`
      is in both tables if self-loops are asked for. */
  lemma BuildFstOkIff(lex: seq<Entry>, token2id: map<Token, int>, word2id: map<Word, int>, needSelfLoops: bool)
    ensures BuildFst(lex, token2id, word2id, needSelfLoops).Ok? <==>
              ReservedIdsOk(token2id, word2id)
              && (forall i :: 0 <= i < |lex| ==> Resolvable(lex[i], token2id, word2id))
              && DisambigZeroOk(token2id, word2id, needSelfLoops)
  {
    ResolveAllOkIff(lex, token2id, word2id);
  }

  /** With valid reserved ids, the failure on a lexicon with a bad entry is
      that of the first bad entry: an empty pronunciation, else the missing
      word, else the first missing token. */
  lemma BuildFstFirstError(lex: seq<Entry>, token2id: map<Token, int>, word2id: map<Word, int>, needSelfLoops: bool, i: nat)
    requires ReservedIdsOk(token2id, word2id)
    requires i < |lex| && !Resolvable(lex[i], token2id, word2id)
    requires forall j :: 0 <= j < i ==> Resolvable(lex[j], token2id, word2id)
    ensures BuildFst(lex, token2id, word2id, needSelfLoops) == Err(ResolveEntry(lex[i], token2id, word2id).error)
    ensures |lex[i].pron| == 0 ==> BuildFst(lex, token2id, word2id, needSelfLoops) == Err(EmptyPronunciation(lex[i].word))
    ensures |lex[i].pron| > 0 && lex[i].word !in word2id ==>
              BuildFst(lex, token2id, word2id, needSelfLoops) == Err(MissingSymbol(WordTable, lex[i].word))
  {
    ResolveAllOkIff(lex, token2id, word2id);
    ResolveAllFirstError(lex, token2id, word2id);
    var i' :| 0 <= i' < |lex| && !Resolvable(lex[i'], token2id, word2id)
              && (forall j :: 0 <= j < i' ==> Resolvable(lex[j], token2id, word2id))
              && ResolveAll(lex, token2id, word2id).error == ResolveEntry(lex[i'], token2id, word2id).error;
    assert !(i' < i) && !(i < i');
  }

  // ---------------------------------------------------------------------------
  // State allocation

  /** The number of tokens in the lexicon. */
  function TokenCount(lex: seq<Entry>): nat {
    if |lex| == 0 then 0 else TokenCount(lex[..|lex| - 1]) + |lex[|lex| - 1].pron|
  }

  /** One fresh state per token but the last of each pronunciation, and one
      arc per token. */
  lemma {:induction false} StateAndArcCount(lex: seq<Entry>, token2id: map<Token, int>, word2id: map<Word, int>)
    requires ResolveAll(lex, token2id, word2id).Ok?
    ensures NextState(ResolveAll(lex, token2id, word2id).value) == 1 + TokenCount(lex) - |lex|
    ensures |LexArcs(ResolveAll(lex, token2id, word2id).value)| == TokenCount(lex)
    decreases |lex|
  {
    if |lex| > 0 {
      var prev := lex[..|lex| - 1];
      var last := lex[|lex| - 1];
      StateAndArcCount(prev, token2id, word2id);
      ResolveEntryOkIff(last, token2id, word2id);
      var rs := ResolveAll(lex, token2id, word2id).value;
      var rs' := ResolveAll(prev, token2id, word2id).value;
      assert rs == rs' + [ResolveEntry(last, token2id, word2id).value];
      assert rs[..|rs| - 1] == rs';
    }
  }

  // ---------------------------------------------------------------------------
  // The chains

  /** Within one chain starting at fresh state `first`, state `s` has exactly
      one outgoing and one incoming arc when it is one of the chain's fresh
      states, and none when it lies below `first`. */
  lemma WordArcsStates(x: Resolved, first: int, s: int)
    requires |x.tokenIds| > 0 && first >= 1 && s >= 1
    ensures s < first ==> FilterSrc(WordArcs(x, first), s) == [] && FilterDst(WordArcs(x, first), s) == []
    ensures first <= s < first + |x.tokenIds| - 1 ==>
              |FilterSrc(WordArcs(x, first), s)| == 1 && |FilterDst(WordArcs(x, first), s)| == 1
  {
    var w := WordArcs(x, first);
    if s < first {
      FilterSrcNone(w, s);
      FilterDstNone(w, s);
    } else if s < first + |x.tokenIds| - 1 {
      FilterSrcSingle(w, s - first + 1, s);
      FilterDstSingle(w, s - first, s);
    }
  }

  /** Every fresh state lies on exactly one chain: one arc leaves it and one
      arc enters it. */
  lemma {:induction false} FreshStatesPrivate(rs: seq<Resolved>, s: int)
    requires AllChainsNonEmpty(rs) && 1 <= s < NextState(rs)
    ensures |FilterSrc(LexArcs(rs), s)| == 1 && |FilterDst(LexArcs(rs), s)| == 1
    decreases |rs|
  {
    var prev := rs[..|rs| - 1];
    var last := rs[|rs| - 1];
    var first := NextState(prev);
    LexArcsShape(prev);
    FilterSrcAppend(LexArcs(prev), WordArcs(last, first), s);
    FilterDstAppend(LexArcs(prev), WordArcs(last, first), s);
    WordArcsStates(last, first, s);
    if s < first {
      FreshStatesPrivate(prev, s);
    } else {
      FilterSrcNone(LexArcs(prev), s);
      FilterDstNone(LexArcs(prev), s);
    }
  }

  /** The only arcs of a chain that start and end in the same state are at
      the loop state (a one-token pronunciation). */
  lemma {:induction false} LexArcsLoopsAtZero(rs: seq<Resolved>)
    requires AllChainsNonEmpty(rs)
    ensures forall a :: a in LexArcs(rs) && a.src == a.dst ==> a.src == LoopState
    decreases |rs|
  {
    if |rs| > 0 {
      var prev := rs[..|rs| - 1];
      LexArcsLoopsAtZero(prev);
      LexArcsShape(prev);
      var w := WordArcs(rs[|rs| - 1], NextState(prev));
      forall a | a in w && a.src == a.dst ensures a.src == LoopState {
        var i :| 0 <= i < |w| && w[i] == a;
      }
    }
  }

  /** The self-loops that the builder adds to the word arcs: one `#0` loop on
      the loop state when some word id is not epsilon, none otherwise. */
  function AddedLoops(rs: seq<Resolved>, token2id: map<Token, int>, word2id: map<Word, int>, needSelfLoops: bool): (loops: seq<Arc>)
    requires DisambigZeroOk(token2id, word2id, needSelfLoops)
    ensures forall a :: a in loops ==> a.src == LoopState && a.dst == LoopState
  {
    if needSelfLoops && HasWordOutput(rs) then [SelfLoop(LoopState, token2id["#0"], word2id["#0"])] else []
  }

  lemma UnsortedShape(rs: seq<Resolved>, token2id: map<Token, int>, word2id: map<Word, int>, needSelfLoops: bool)
    requires AllChainsNonEmpty(rs) && DisambigZeroOk(token2id, word2id, needSelfLoops)
    ensures NextState(rs) >= 1
    ensures UnsortedArcs(rs, token2id, word2id, needSelfLoops)
            == LexArcs(rs) + AddedLoops(rs, token2id, word2id, needSelfLoops) + [Terminal(NextState(rs))]
  {
    LexArcsShape(rs);
    if needSelfLoops {
      OnlyLoopStateNeedsSelfLoop(rs);
      SelfLoopArcsBelow(LexArcs(rs), token2id["#0"], word2id["#0"], NextState(rs));
    }
  }

  lemma ResolveAllPrefix(lex: seq<Entry>, token2id: map<Token, int>, word2id: map<Word, int>, rs: seq<Resolved>, i: nat)
    requires ResolveAll(lex, token2id, word2id) == Ok(rs) && i <= |lex|
    ensures |rs| == |lex| && |lex[..i]| == i
    ensures ResolveAll(lex[..i], token2id, word2id) == Ok(rs[..i])
  {
    ResolveAllOkIff(lex, token2id, word2id);
    ResolveAllOkIff(lex[..i], token2id, word2id);
    assert ResolveAll(lex[..i], token2id, word2id).value == rs[..i];
  }

  lemma {:induction false} LexArcsPrefix(rs: seq<Resolved>, j: nat)
    requires j <= |rs|
    ensures |LexArcs(rs[..j])| <= |LexArcs(rs)| && LexArcs(rs)[..|LexArcs(rs[..j])|] == LexArcs(rs[..j])
    decreases |rs| - j
  {
    if j < |rs| {
      LexArcsPrefix(rs, j + 1);
      assert rs[..j + 1][..j] == rs[..j];
      assert LexArcs(rs[..j + 1])[..|LexArcs(rs[..j])|] == LexArcs(rs[..j]);
    } else {
      assert rs[..j] == rs;
    }
  }

  /** The arcs of entry `i` follow those of the entries before it. */
  lemma ChainAt(rs: seq<Resolved>, i: nat)
    requires i < |rs|
    ensures var off := |LexArcs(rs[..i])|;
            off + |rs[i].tokenIds| <= |LexArcs(rs)|
            && LexArcs(rs)[off..off + |rs[i].tokenIds|] == WordArcs(rs[i], NextState(rs[..i]))
  {
    LexArcsPrefix(rs, i + 1);
    assert rs[..i + 1][..i] == rs[..i];
    var w := WordArcs(rs[i], NextState(rs[..i]));
    assert LexArcs(rs[..i + 1]) == LexArcs(rs[..i]) + w;
    assert LexArcs(rs[..i + 1])[|LexArcs(rs[..i])|..] == w;
  }

  /** Arc `k` of entry `i`, given its first fresh state `first`, its length
      `n`, and the ids `tokenId` and `wordId` it was resolved to. */
  lemma ChainArcs(rs: seq<Resolved>, i: nat, k: nat, first: int, n: nat, tokenId: int, wordId: int)
    requires i < |rs| && k < |rs[i].tokenIds|
    requires first == NextState(rs[..i]) && n == |rs[i].tokenIds|
    requires tokenId == rs[i].tokenIds[k] && wordId == rs[i].wordId
    ensures |LexArcs(rs[..i])| + n <= |LexArcs(rs)|
    ensures LexArcs(rs)[|LexArcs(rs[..i])| + k] == ChainArc(first, n, k, tokenId, wordId)
  {
    ChainAt(rs, i);
    var off := |LexArcs(rs[..i])|;
    assert LexArcs(rs)[off..off + |rs[i].tokenIds|][k] == LexArcs(rs)[off + k];
  }

  /** The `i`-th entry's arcs, in the order the builder appends them, form its
      chain: they start after the arcs of the entries before it, arc `k`
      reads the id of token `k`, only the first outputs the word id, and the
      chain leaves the loop state, passes through the fresh states
      `first .. first + n - 2` with `first = 1 + (tokens before it) - i`, and
      returns to the loop state. */
  lemma EntryChain(lex: seq<Entry>, token2id: map<Token, int>, word2id: map<Word, int>, rs: seq<Resolved>, i: nat, k: nat)
    requires ResolveAll(lex, token2id, word2id) == Ok(rs)
    requires i < |lex| && k < |lex[i].pron|
    ensures |rs| == |lex| && Resolvable(lex[i], token2id, word2id)
    ensures |LexArcs(rs[..i])| + |lex[i].pron| <= |LexArcs(rs)|
    ensures LexArcs(rs)[|LexArcs(rs[..i])| + k]
            == ChainArc(1 + TokenCount(lex[..i]) - i, |lex[i].pron|, k, token2id[lex[i].pron[k]], word2id[lex[i].word])
  {
    ResolvedAt(lex, token2id, word2id, rs, i, k);
    ResolveAllPrefix(lex, token2id, word2id, rs, i);
    StateAndArcCount(lex[..i], token2id, word2id);
    ChainArcs(rs, i, k, 1 + TokenCount(lex[..i]) - i, |lex[i].pron|, token2id[lex[i].pron[k]], word2id[lex[i].word]);
  }

  /** The ids the builder looks up for entry `i` and its token `k`. */
  lemma ResolvedAt(lex: seq<Entry>, token2id: map<Token, int>, word2id: map<Word, int>, rs: seq<Resolved>, i: nat, k: nat)
    requires ResolveAll(lex, token2id, word2id) == Ok(rs)
    requires i < |lex| && k < |lex[i].pron|
    ensures |rs| == |lex| && Resolvable(lex[i], token2id, word2id)
    ensures rs[i].wordId == word2id[lex[i].word] && |rs[i].tokenIds| == |lex[i].pron|
    ensures rs[i].tokenIds[k] == token2id[lex[i].pron[k]]
  {
    ResolveAllOkIff(lex, token2id, word2id);
    ResolveEntryOkIff(lex[i], token2id, word2id);
  }

  // ---------------------------------------------------------------------------
  // The built transducer

  /** The resolved entries of a lexicon that resolves. */
  function ResolvedLexicon(lex: seq<Entry>, token2id: map<Token, int>, word2id: map<Word, int>): seq<Resolved>
    requires ResolveAll(lex, token2id, word2id).Ok?
  {
    ResolveAll(lex, token2id, word2id).value
  }

  /** Some entry's word id is not epsilon. */
  predicate SomeWordNotEpsilon(lex: seq<Entry>, word2id: map<Word, int>) {
    exists i :: 0 <= i < |lex| && lex[i].word in word2id && word2id[lex[i].word] != Epsilon
  }

  /** A successful build is the compiled transducer of the resolved lexicon. */
  lemma BuildFstCompiled(lex: seq<Entry>, token2id: map<Token, int>, word2id: map<Word, int>, needSelfLoops: bool, fst: Fst)
    requires BuildFst(lex, token2id, word2id, needSelfLoops) == Ok(fst)
    ensures ResolveAll(lex, token2id, word2id).Ok? && DisambigZeroOk(token2id, word2id, needSelfLoops)
    ensures AllChainsNonEmpty(ResolvedLexicon(lex, token2id, word2id))
    ensures fst == Compiled(ResolvedLexicon(lex, token2id, word2id), token2id, word2id, needSelfLoops)
  {
    ResolvedNonEmpty(lex, token2id, word2id);
  }

  lemma CompiledParts(rs: seq<Resolved>, token2id: map<Token, int>, word2id: map<Word, int>, needSelfLoops: bool)
    requires AllChainsNonEmpty(rs) && DisambigZeroOk(token2id, word2id, needSelfLoops)
    ensures Compiled(rs, token2id, word2id, needSelfLoops).finalState == NextState(rs) >= 1
    ensures Compiled(rs, token2id, word2id, needSelfLoops).arcs
            == SortBySrc(LexArcs(rs) + AddedLoops(rs, token2id, word2id, needSelfLoops) + [Terminal(NextState(rs))])
  {
    UnsortedShape(rs, token2id, word2id, needSelfLoops);
  }

  /** State 0 has an arc with a word output exactly when some entry's word
      id is not epsilon. */
  lemma WordOutputIff(lex: seq<Entry>, token2id: map<Token, int>, word2id: map<Word, int>)
    requires ResolveAll(lex, token2id, word2id).Ok?
    ensures HasWordOutput(ResolvedLexicon(lex, token2id, word2id)) <==> SomeWordNotEpsilon(lex, word2id)
  {
    ResolveAllOkIff(lex, token2id, word2id);
    var rs := ResolvedLexicon(lex, token2id, word2id);
    forall i | 0 <= i < |lex| ensures lex[i].word in word2id && rs[i].wordId == word2id[lex[i].word] {
      ResolveEntryOkIff(lex[i], token2id, word2id);
    }
  }

  /** The arcs leaving `s` after the sort are those of each part in turn,
      and as many arcs enter `s` as before it. */
  lemma SortedParts(a: seq<Arc>, b: seq<Arc>, t: Arc, s: int)
    ensures FilterSrc(SortBySrc(a + b + [t]), s) == FilterSrc(a, s) + FilterSrc(b, s) + FilterSrc([t], s)
    ensures |FilterDst(SortBySrc(a + b + [t]), s)| == |FilterDst(a, s)| + |FilterDst(b, s)| + |FilterDst([t], s)|
  {
    SortBySrcStable(a + b + [t], s);
    FilterSrcAppend(a + b, [t], s);
    FilterSrcAppend(a, b, s);
    InDegreePermutation(SortBySrc(a + b + [t]), a + b + [t], s);
    FilterDstAppend(a + b, [t], s);
    FilterDstAppend(a, b, s);
  }

  /** The terminating arc after the sort, given word arcs below the final
      state and self-loops on the loop state: it is the one arc into the
      final state, which no arc leaves. */
  lemma TerminalAfterSort(lexArcs: seq<Arc>, loops: seq<Arc>, final: int)
    requires final >= 1
    requires forall a :: a in lexArcs ==> a.src < final && a.dst < final
    requires forall a :: a in loops ==> a.src == LoopState && a.dst == LoopState
    ensures |FilterDst(SortBySrc(lexArcs + loops + [Terminal(final)]), final)| == 1
    ensures forall a :: a in SortBySrc(lexArcs + loops + [Terminal(final)]) && a.dst == final ==> a == Terminal(final)
    ensures FilterSrc(SortBySrc(lexArcs + loops + [Terminal(final)]), final) == []
  {
    var all := lexArcs + loops + [Terminal(final)];
    SortBySrcMembers(all);
    SortedParts(lexArcs, loops, Terminal(final), final);
    FilterDstNone(lexArcs, final);
    FilterSrcNone(lexArcs, final);
    FilterDstNone(loops, final);
    FilterSrcNone(loops, final);
    assert FilterDst([Terminal(final)], final) == [Terminal(final)];
    assert FilterSrc([Terminal(final)], final) == [];
  }

  /** The terminating arc is the last arc leaving the loop state. */
  lemma TerminalLastFromLoopState(lexArcs: seq<Arc>, loops: seq<Arc>, final: int)
    requires final >= 1
    requires forall a :: a in loops ==> a.src == LoopState
    ensures FilterSrc(SortBySrc(lexArcs + loops + [Terminal(final)]), LoopState)
            == FilterSrc(lexArcs, LoopState) + loops + [Terminal(final)]
  {
    SortedParts(lexArcs, loops, Terminal(final), LoopState);
    LoopsKept(loops);
    assert FilterSrc([Terminal(final)], LoopState) == [Terminal(final)];
  }

  lemma {:induction false} LoopsKept(loops: seq<Arc>)
    requires forall a :: a in loops ==> a.src == LoopState
    ensures FilterSrc(loops, LoopState) == loops
    decreases |loops|
  {
    if |loops| > 0 {
      LoopsKept(loops[1..]);
    }
  }

  // ---------------------------------------------------------------------------
  // The compiled transducer of a resolved lexicon

  lemma CompiledSize(rs: seq<Resolved>, token2id: map<Token, int>, word2id: map<Word, int>, needSelfLoops: bool)
    requires AllChainsNonEmpty(rs) && DisambigZeroOk(token2id, word2id, needSelfLoops)
    ensures |Compiled(rs, token2id, word2id, needSelfLoops).arcs|
            == |LexArcs(rs)| + (if needSelfLoops && HasWordOutput(rs) then 1 else 0) + 1
  {
    CompiledParts(rs, token2id, word2id, needSelfLoops);
    var arcs := Compiled(rs, token2id, word2id, needSelfLoops).arcs;
    assert |arcs| == |multiset(arcs)|;
  }

  /** Every arc before the sort runs within `[0, final_state]`, and only
      arcs at the loop state start and end in the same state. */
  lemma PartsInRange(rs: seq<Resolved>, token2id: map<Token, int>, word2id: map<Word, int>, needSelfLoops: bool)
    requires AllChainsNonEmpty(rs) && DisambigZeroOk(token2id, word2id, needSelfLoops)
    ensures forall a :: a in LexArcs(rs) + AddedLoops(rs, token2id, word2id, needSelfLoops) + [Terminal(NextState(rs))] ==>
              0 <= a.src <= NextState(rs) && 0 <= a.dst <= NextState(rs) && (a.src == a.dst ==> a.src == LoopState)
  {
    LexArcsShape(rs);
    LexArcsLoopsAtZero(rs);
  }

  lemma CompiledStatesInRange(rs: seq<Resolved>, token2id: map<Token, int>, word2id: map<Word, int>, needSelfLoops: bool)
    requires AllChainsNonEmpty(rs) && DisambigZeroOk(token2id, word2id, needSelfLoops)
    ensures var c := Compiled(rs, token2id, word2id, needSelfLoops);
            forall a :: a in c.arcs ==>
              0 <= a.src <= c.finalState && 0 <= a.dst <= c.finalState
              && (a.src == a.dst ==> a.src == LoopState)
  {
    CompiledParts(rs, token2id, word2id, needSelfLoops);
    PartsInRange(rs, token2id, word2id, needSelfLoops);
    SortBySrcMembers(LexArcs(rs) + AddedLoops(rs, token2id, word2id, needSelfLoops) + [Terminal(NextState(rs))]);
  }

  lemma CompiledTerminal(rs: seq<Resolved>, token2id: map<Token, int>, word2id: map<Word, int>, needSelfLoops: bool)
    requires AllChainsNonEmpty(rs) && DisambigZeroOk(token2id, word2id, needSelfLoops)
    ensures var c := Compiled(rs, token2id, word2id, needSelfLoops);
            |FilterDst(c.arcs, c.finalState)| == 1
            && (forall a :: a in c.arcs && a.dst == c.finalState ==> a == Terminal(c.finalState))
            && FilterSrc(c.arcs, c.finalState) == []
  {
    CompiledParts(rs, token2id, word2id, needSelfLoops);
    LexArcsShape(rs);
    TerminalAfterSort(LexArcs(rs), AddedLoops(rs, token2id, word2id, needSelfLoops), NextState(rs));
  }

  lemma CompiledLoopStateArcs(rs: seq<Resolved>, token2id: map<Token, int>, word2id: map<Word, int>, needSelfLoops: bool)
    requires AllChainsNonEmpty(rs) && DisambigZeroOk(token2id, word2id, needSelfLoops)
    ensures var c := Compiled(rs, token2id, word2id, needSelfLoops);
            FilterSrc(c.arcs, LoopState)
            == FilterSrc(LexArcs(rs), LoopState) + AddedLoops(rs, token2id, word2id, needSelfLoops) + [Terminal(c.finalState)]
  {
    CompiledParts(rs, token2id, word2id, needSelfLoops);
    TerminalLastFromLoopState(LexArcs(rs), AddedLoops(rs, token2id, word2id, needSelfLoops), NextState(rs));
  }

  /** Neither the added loops nor the terminating arc touch a fresh state. */
  lemma PartsOffFresh(rs: seq<Resolved>, token2id: map<Token, int>, word2id: map<Word, int>, needSelfLoops: bool, s: int)
    requires DisambigZeroOk(token2id, word2id, needSelfLoops)
    requires 1 <= s < NextState(rs)
    ensures FilterSrc(AddedLoops(rs, token2id, word2id, needSelfLoops), s) == []
    ensures FilterDst(AddedLoops(rs, token2id, word2id, needSelfLoops), s) == []
    ensures FilterSrc([Terminal(NextState(rs))], s) == [] && FilterDst([Terminal(NextState(rs))], s) == []
  {
  }

  lemma CompiledPrivateChains(rs: seq<Resolved>, token2id: map<Token, int>, word2id: map<Word, int>, needSelfLoops: bool, s: int)
    requires AllChainsNonEmpty(rs) && DisambigZeroOk(token2id, word2id, needSelfLoops)
    requires 1 <= s < NextState(rs)
    ensures var c := Compiled(rs, token2id, word2id, needSelfLoops);
            |FilterSrc(c.arcs, s)| == 1 && |FilterDst(c.arcs, s)| == 1
  {
    CompiledParts(rs, token2id, word2id, needSelfLoops);
    FreshStatesPrivate(rs, s);
    PartsOffFresh(rs, token2id, word2id, needSelfLoops, s);
    SortedParts(LexArcs(rs), AddedLoops(rs, token2id, word2id, needSelfLoops), Terminal(NextState(rs)), s);
  }
}
