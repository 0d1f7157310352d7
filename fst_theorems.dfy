/** What `lexicon_to_fst_no_sil` promises about the transducer it returns:
    its size and final state, the range of its states, the single
    terminating arc, the private chains and the stable sort. */
module FstTheorems {
  import opened Lexicon
  import opened Arcs
  import opened SelfLoops
  import opened FstBuilder
  import opened FstProperties

  /** The final state is `1 + (number of tokens) - (number of entries)`, and
      there is one arc per token, one `#0` self-loop if self-loops are asked
      for and some word id is not epsilon, and the terminating arc. */
  lemma FstSize(lex: seq<Entry>, token2id: map<Token, int>, word2id: map<Word, int>, needSelfLoops: bool, fst: Fst)
    requires BuildFst(lex, token2id, word2id, needSelfLoops) == Ok(fst)
    ensures fst.finalState == 1 + TokenCount(lex) - |lex|
    ensures |fst.arcs| == TokenCount(lex) + (if needSelfLoops && SomeWordNotEpsilon(lex, word2id) then 1 else 0) + 1
  {
    BuildFstCompiled(lex, token2id, word2id, needSelfLoops, fst);
    WordOutputIff(lex, token2id, word2id);
    StateAndArcCount(lex, token2id, word2id);
    CompiledSize(ResolvedLexicon(lex, token2id, word2id), token2id, word2id, needSelfLoops);
  }

  /** Every arc runs between states in `[0, final_state]`, and the only arcs
      from a state to itself are at the loop state. */
  lemma FstStatesInRange(lex: seq<Entry>, token2id: map<Token, int>, word2id: map<Word, int>, needSelfLoops: bool, fst: Fst)
    requires BuildFst(lex, token2id, word2id, needSelfLoops) == Ok(fst)
    ensures forall a :: a in fst.arcs ==>
              0 <= a.src <= fst.finalState && 0 <= a.dst <= fst.finalState
              && (a.src == a.dst ==> a.src == LoopState)
  {
    BuildFstCompiled(lex, token2id, word2id, needSelfLoops, fst);
    CompiledStatesInRange(ResolvedLexicon(lex, token2id, word2id), token2id, word2id, needSelfLoops);
  }

  /** Exactly one arc enters the final state: the terminating arc
      `(0, final_state, -1, -1, 0)`. No arc leaves the final state, and the
      arcs leaving the loop state are the first arcs of the chains in lexicon
      order, then the `#0` self-loop if one was added, and last the
      terminating arc. */
  lemma FstTerminal(lex: seq<Entry>, token2id: map<Token, int>, word2id: map<Word, int>, needSelfLoops: bool, fst: Fst)
    requires BuildFst(lex, token2id, word2id, needSelfLoops) == Ok(fst)
    ensures ResolveAll(lex, token2id, word2id).Ok? && DisambigZeroOk(token2id, word2id, needSelfLoops)
    ensures |FilterDst(fst.arcs, fst.finalState)| == 1
    ensures forall a :: a in fst.arcs && a.dst == fst.finalState ==> a == Terminal(fst.finalState)
    ensures FilterSrc(fst.arcs, fst.finalState) == []
    ensures var rs := ResolvedLexicon(lex, token2id, word2id);
            FilterSrc(fst.arcs, LoopState)
            == FilterSrc(LexArcs(rs), LoopState) + AddedLoops(rs, token2id, word2id, needSelfLoops) + [Terminal(fst.finalState)]
  {
    BuildFstCompiled(lex, token2id, word2id, needSelfLoops, fst);
    CompiledTerminal(ResolvedLexicon(lex, token2id, word2id), token2id, word2id, needSelfLoops);
    CompiledLoopStateArcs(ResolvedLexicon(lex, token2id, word2id), token2id, word2id, needSelfLoops);
  }

  /** Every fresh state `1 <= s < final_state` lies on one private chain:
      exactly one arc leaves it and exactly one enters it, so the pronunciations
      share no state but the loop state. */
  lemma FstPrivateChains(lex: seq<Entry>, token2id: map<Token, int>, word2id: map<Word, int>, needSelfLoops: bool, fst: Fst, s: int)
    requires BuildFst(lex, token2id, word2id, needSelfLoops) == Ok(fst)
    requires 1 <= s < fst.finalState
    ensures |FilterSrc(fst.arcs, s)| == 1 && |FilterDst(fst.arcs, s)| == 1
  {
    BuildFstCompiled(lex, token2id, word2id, needSelfLoops, fst);
    CompiledPrivateChains(ResolvedLexicon(lex, token2id, word2id), token2id, word2id, needSelfLoops, s);
  }

  /** The arcs are sorted by source state, stably: the arcs of each source
      state keep the order in which the builder appended them, which makes
      the arc list the one Python's `sorted` returns. */
  lemma FstSortedStably(lex: seq<Entry>, token2id: map<Token, int>, word2id: map<Word, int>, needSelfLoops: bool, fst: Fst)
    requires BuildFst(lex, token2id, word2id, needSelfLoops) == Ok(fst)
    ensures ResolveAll(lex, token2id, word2id).Ok? && DisambigZeroOk(token2id, word2id, needSelfLoops)
    ensures SortedBySrc(fst.arcs)
    ensures forall k :: FilterSrc(fst.arcs, k) == FilterSrc(UnsortedArcs(ResolvedLexicon(lex, token2id, word2id), token2id, word2id, needSelfLoops), k)
  {
    BuildFstCompiled(lex, token2id, word2id, needSelfLoops, fst);
    var unsorted := UnsortedArcs(ResolvedLexicon(lex, token2id, word2id), token2id, word2id, needSelfLoops);
    SortBySrcIsStableSort(unsorted, fst.arcs);
  }
}
