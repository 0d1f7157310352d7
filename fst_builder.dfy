/** `lexicon_to_fst_no_sil`: compiles a lexicon into the arcs of a transducer
    from tokens to words. Every pronunciation gets a private chain of fresh
    states that leaves loop state 0 and returns to it; the first arc of the
    chain outputs the word, the others epsilon. A single terminating arc
    leads from state 0 to a fresh final state, and the arcs are sorted by
    source state. */
module FstBuilder {
  import opened Lexicon
  import opened Arcs
  import opened SelfLoops

  /** An entry after the symbol-table lookups: its word id and token ids. */
  datatype Resolved = Resolved(wordId: int, tokenIds: seq<int>)

  /** The sorted arc list and the final state, from which the source builds a `k2.Fsa`. */
  datatype Fst = Fst(arcs: seq<Arc>, finalState: int)

  // ---------------------------------------------------------------------------
  // Symbol lookups

  /** `[token2id[i] for i in prons]`: fails on the first token missing from the table. */
  function LookupTokens(tokens: seq<Token>, token2id: map<Token, int>): (r: Result<seq<int>>)
    ensures r.Ok? <==> forall i :: 0 <= i < |tokens| ==> tokens[i] in token2id
    ensures r.Ok? ==> |r.value| == |tokens| && forall i :: 0 <= i < |tokens| ==> r.value[i] == token2id[tokens[i]]
    ensures r.Err? ==> exists i :: 0 <= i < |tokens| && tokens[i] !in token2id
                         && (forall j :: 0 <= j < i ==> tokens[j] in token2id)
                         && r.error == MissingSymbol(TokenTable, tokens[i])
  {
    if |tokens| == 0 then Ok([])
    else if tokens[0] !in token2id then Err(MissingSymbol(TokenTable, tokens[0]))
    else
      match LookupTokens(tokens[1..], token2id)
      case Err(e) =>
        var i :| 0 <= i < |tokens[1..]| && tokens[1..][i] !in token2id
                 && (forall j :: 0 <= j < i ==> tokens[1..][j] in token2id)
                 && e == MissingSymbol(TokenTable, tokens[1..][i]);
        assert tokens[i + 1] !in token2id;
        Err(e)
      case Ok(ids) => Ok([token2id[tokens[0]]] + ids)
  }

  /** The checks and lookups for one entry, in the order the source makes them. */
  function ResolveEntry(e: Entry, token2id: map<Token, int>, word2id: map<Word, int>): Result<Resolved> {
    if |e.pron| == 0 then Err(EmptyPronunciation(e.word))
    else if e.word !in word2id then Err(MissingSymbol(WordTable, e.word))
    else
      match LookupTokens(e.pron, token2id)
      case Err(err) => Err(err)
      case Ok(ids) => Ok(Resolved(word2id[e.word], ids))
  }

  /** Resolves the entries in order and stops at the first failure. */
  function ResolveAll(lex: seq<Entry>, token2id: map<Token, int>, word2id: map<Word, int>): Result<seq<Resolved>> {
    if |lex| == 0 then Ok([])
    else
      match ResolveAll(lex[..|lex| - 1], token2id, word2id)
      case Err(e) => Err(e)
      case Ok(rs) =>
        match ResolveEntry(lex[|lex| - 1], token2id, word2id)
        case Err(e) => Err(e)
        case Ok(x) => Ok(rs + [x])
  }

  // ---------------------------------------------------------------------------
  // Arcs

  /** Arc `k` of a chain of `n` arcs whose fresh states start at `first`: it
      reads `tokenId`, goes from state 0 (k = 0) or `first + k - 1` to state 0
      (the last arc) or `first + k`, and outputs `wordId` on the first arc
      only. */
  function ChainArc(first: int, n: nat, k: nat, tokenId: int, wordId: int): Arc {
    Arc(if k == 0 then LoopState else first + k - 1,
        if k == n - 1 then LoopState else first + k,
        tokenId,
        if k == 0 then wordId else Epsilon,
        0)
  }

  /** The chain of one pronunciation whose fresh states start at `first`. */
  function WordArcs(x: Resolved, first: int): seq<Arc> {
    var n := |x.tokenIds|;
    seq(n, i requires 0 <= i < n => ChainArc(first, n, i, x.tokenIds[i], x.wordId))
  }

  /** `next_state` after the given entries: one fresh state per token but the last. */
  function NextState(rs: seq<Resolved>): int {
    if |rs| == 0 then 1
    else NextState(rs[..|rs| - 1]) + |rs[|rs| - 1].tokenIds| - 1
  }

  /** The word arcs of the given entries, in the order the source appends them. */
  function LexArcs(rs: seq<Resolved>): seq<Arc> {
    if |rs| == 0 then []
    else LexArcs(rs[..|rs| - 1]) + WordArcs(rs[|rs| - 1], NextState(rs[..|rs| - 1]))
  }

  /** The self-loops of `arcs` for the states below `n`, ordered by state. */
  function SelfLoopArcs(arcs: seq<Arc>, disambigPhone: int, disambigWord: int, n: nat): seq<Arc> {
    if n == 0 then []
    else
      SelfLoopArcs(arcs, disambigPhone, disambigWord, n - 1)
      + (if n - 1 in StatesNeedingSelfLoops(arcs) then [SelfLoop(n - 1, disambigPhone, disambigWord)] else [])
  }

  /** The terminating arc into the final state. */
  function Terminal(finalState: int): Arc {
    Arc(LoopState, finalState, -1, -1, 0)
  }

  /** Whether some entry's word id is not epsilon, i.e. state 0 has an arc with a word output. */
  predicate HasWordOutput(rs: seq<Resolved>) {
    exists i :: 0 <= i < |rs| && rs[i].wordId != Epsilon
  }

  /** What `lexicon_to_fst_no_sil` computes, failures included. */
  function BuildFst(lex: seq<Entry>, token2id: map<Token, int>, word2id: map<Word, int>, needSelfLoops: bool): Result<Fst> {
    if "<unk>" !in token2id then Err(MissingSymbol(TokenTable, "<unk>"))
    else if token2id["<unk>"] != 0 then Err(ReservedIdMismatch(TokenTable, "<unk>"))
    else if "<eps>" !in word2id then Err(MissingSymbol(WordTable, "<eps>"))
    else if word2id["<eps>"] != 0 then Err(ReservedIdMismatch(WordTable, "<eps>"))
    else
      match ResolveAll(lex, token2id, word2id)
      case Err(e) => Err(e)
      case Ok(rs) =>
        if needSelfLoops && "#0" !in token2id then Err(MissingSymbol(TokenTable, "#0"))
        else if needSelfLoops && "#0" !in word2id then Err(MissingSymbol(WordTable, "#0"))
        else Ok(Compiled(rs, token2id, word2id, needSelfLoops))
  }

  /** The transducer of a resolved lexicon: the sorted arcs and the final state. */
  function Compiled(rs: seq<Resolved>, token2id: map<Token, int>, word2id: map<Word, int>, needSelfLoops: bool): Fst
    requires needSelfLoops ==> "#0" in token2id && "#0" in word2id
  {
    Fst(SortBySrc(UnsortedArcs(rs, token2id, word2id, needSelfLoops)), NextState(rs))
  }

  /** The arc list before the sort: the word arcs, the self-loops if asked
      for, and the terminating arc. */
  function UnsortedArcs(rs: seq<Resolved>, token2id: map<Token, int>, word2id: map<Word, int>,
                        needSelfLoops: bool): seq<Arc>
    requires needSelfLoops ==> "#0" in token2id && "#0" in word2id
  {
    var finalState := NextState(rs);
    var loops := if needSelfLoops && finalState >= 0
                 then SelfLoopArcs(LexArcs(rs), token2id["#0"], word2id["#0"], finalState)
                 else [];
    LexArcs(rs) + loops + [Terminal(finalState)]
  }

  // ---------------------------------------------------------------------------
  // The builder itself

  /** The arcs of one entry, from the body of the loop over the lexicon:
      `len(prons) - 1` arcs into fresh states, then the last arc back to the
      loop state. */
  method EmitWordArcs(arcs: seq<Arc>, nextState: int, wordId: int, tokenIds: seq<int>)
    returns (arcs': seq<Arc>, nextState': int)
    requires |tokenIds| > 0
    ensures arcs' == arcs + WordArcs(Resolved(wordId, tokenIds), nextState)
    ensures nextState' == nextState + |tokenIds| - 1
  {
    var loopState, eps := LoopState, Epsilon;
    ghost var x, first := Resolved(wordId, tokenIds), nextState;
    var curState := loopState;
    arcs', nextState' := arcs, nextState;
    for i := 0 to |tokenIds| - 1
      invariant arcs' == arcs + WordArcs(x, first)[..i]
      invariant nextState' == first + i
      invariant curState == if i == 0 then loopState else first + i - 1
    {
      assert WordArcs(x, first)[..i + 1] == WordArcs(x, first)[..i] + [WordArcs(x, first)[i]];
      if i == 0 {
        arcs' := arcs' + [Arc(curState, nextState', tokenIds[i], wordId, 0)];
      } else {
        arcs' := arcs' + [Arc(curState, nextState', tokenIds[i], eps, 0)];
      }
      curState := nextState';
      nextState' := nextState' + 1;
    }
    // now for the last token of this word
    var i := |tokenIds| - 1;
    var w := if i == 0 then wordId else eps;
    arcs' := arcs' + [Arc(curState, loopState, tokenIds[i], w, 0)];
    assert WordArcs(x, first) == WordArcs(x, first)[..i] + [WordArcs(x, first)[i]];
  }

  /** Models `lexicon_to_fst_no_sil` up to the sorted arc list. */
  method LexiconToFstNoSil(lexicon: seq<Entry>, token2id: map<Token, int>, word2id: map<Word, int>,
                           needSelfLoops: bool) returns (r: Result<Fst>)
    ensures r == BuildFst(lexicon, token2id, word2id, needSelfLoops)
  {
    var loopState := LoopState;
    var nextState := 1;
    var arcs: seq<Arc> := [];

    if "<unk>" !in token2id { return Err(MissingSymbol(TokenTable, "<unk>")); }
    if token2id["<unk>"] != 0 { return Err(ReservedIdMismatch(TokenTable, "<unk>")); }
    if "<eps>" !in word2id { return Err(MissingSymbol(WordTable, "<eps>")); }
    if word2id["<eps>"] != 0 { return Err(ReservedIdMismatch(WordTable, "<eps>")); }

    ghost var rs: seq<Resolved> := [];
    for k := 0 to |lexicon|
      invariant ResolveAll(lexicon[..k], token2id, word2id) == Ok(rs)
      invariant arcs == LexArcs(rs) && nextState == NextState(rs)
    {
      assert lexicon[..k + 1][..k] == lexicon[..k];
      var word, prons := lexicon[k].word, lexicon[k].pron;
      if |prons| == 0 {
        assert ResolveAll(lexicon[..k + 1], token2id, word2id) == Err(EmptyPronunciation(word));
        ResolveAllStopsAtFirstError(lexicon, k + 1, token2id, word2id);
        return Err(EmptyPronunciation(word));
      }
      if word !in word2id {
        assert ResolveAll(lexicon[..k + 1], token2id, word2id) == Err(MissingSymbol(WordTable, word));
        ResolveAllStopsAtFirstError(lexicon, k + 1, token2id, word2id);
        return Err(MissingSymbol(WordTable, word));
      }
      var wordId := word2id[word];
      var ids := LookupTokens(prons, token2id);
      if ids.Err? {
        assert ResolveAll(lexicon[..k + 1], token2id, word2id) == Err(ids.error);
        ResolveAllStopsAtFirstError(lexicon, k + 1, token2id, word2id);
        return Err(ids.error);
      }
      ghost var x := Resolved(wordId, ids.value);
      arcs, nextState := EmitWordArcs(arcs, nextState, wordId, ids.value);
      rs := rs + [x];
    }
    assert lexicon[..|lexicon|] == lexicon;
    ResolvedNonEmpty(lexicon, token2id, word2id);

    if needSelfLoops {
      if "#0" !in token2id { return Err(MissingSymbol(TokenTable, "#0")); }
      if "#0" !in word2id { return Err(MissingSymbol(WordTable, "#0")); }
      var disambigPhone, disambigWord := token2id["#0"], word2id["#0"];
      var withLoops := AddSelfLoops(arcs, disambigPhone, disambigWord);
      SelfLoopsOfLexArcs(rs, disambigPhone, disambigWord, withLoops);
      arcs := withLoops;
    }

    var finalState := nextState;
    arcs := arcs + [Arc(loopState, finalState, -1, -1, 0)];
    r := Ok(Fst(SortBySrc(arcs), finalState));
    assert ResolveAll(lexicon, token2id, word2id) == Ok(rs);
    assert arcs == UnsortedArcs(rs, token2id, word2id, needSelfLoops);
  }

  // ---------------------------------------------------------------------------
  // Lemmas used by the builder

  /** Once a prefix of the lexicon fails to resolve, the whole lexicon fails with the same error. */
  lemma {:induction false} ResolveAllStopsAtFirstError(lex: seq<Entry>, k: nat, token2id: map<Token, int>, word2id: map<Word, int>)
    requires k <= |lex| && ResolveAll(lex[..k], token2id, word2id).Err?
    ensures ResolveAll(lex, token2id, word2id) == ResolveAll(lex[..k], token2id, word2id)
    decreases |lex| - k
  {
    if k < |lex| {
      assert lex[..k + 1][..k] == lex[..k];
      ResolveAllStopsAtFirstError(lex, k + 1, token2id, word2id);
    } else {
      assert lex[..k] == lex;
    }
  }

  /** Every resolved entry has at least one token. */
  predicate AllChainsNonEmpty(rs: seq<Resolved>) {
    forall i :: 0 <= i < |rs| ==> |rs[i].tokenIds| > 0
  }

  lemma {:induction false} ResolvedNonEmpty(lex: seq<Entry>, token2id: map<Token, int>, word2id: map<Word, int>)
    requires ResolveAll(lex, token2id, word2id).Ok?
    ensures |ResolveAll(lex, token2id, word2id).value| == |lex|
    ensures AllChainsNonEmpty(ResolveAll(lex, token2id, word2id).value)
    decreases |lex|
  {
    if |lex| > 0 {
      ResolvedNonEmpty(lex[..|lex| - 1], token2id, word2id);
    }
  }

  /** Word outputs appear only on arcs leaving state 0, and every state is
      in [0, NextState). */
  lemma {:induction false} LexArcsShape(rs: seq<Resolved>)
    requires AllChainsNonEmpty(rs)
    ensures NextState(rs) >= 1
    ensures forall a :: a in LexArcs(rs) ==> 0 <= a.src < NextState(rs) && 0 <= a.dst < NextState(rs)
    ensures forall a :: a in LexArcs(rs) && a.olabel != Epsilon ==> a.src == LoopState
    decreases |rs|
  {
    if |rs| > 0 {
      var prev := rs[..|rs| - 1];
      LexArcsShape(prev);
      assert LexArcs(rs) == LexArcs(prev) + WordArcs(rs[|rs| - 1], NextState(prev));
    }
  }

  /** Only the loop state can need a self-loop, and it needs one exactly when some word id is not epsilon. */
  lemma {:induction false} OnlyLoopStateNeedsSelfLoop(rs: seq<Resolved>)
    requires AllChainsNonEmpty(rs)
    ensures StatesNeedingSelfLoops(LexArcs(rs)) == if HasWordOutput(rs) then {LoopState} else {}
    decreases |rs|
  {
    LexArcsShape(rs);
    if |rs| > 0 {
      var prev := rs[..|rs| - 1];
      var last := rs[|rs| - 1];
      OnlyLoopStateNeedsSelfLoop(prev);
      var w := WordArcs(last, NextState(prev));
      assert LexArcs(rs) == LexArcs(prev) + w;
      assert w[0].olabel == last.wordId && w[0].src == LoopState;
      assert HasWordOutput(rs) <==> HasWordOutput(prev) || last.wordId != Epsilon;
      if last.wordId != Epsilon {
        assert LoopState in StatesNeedingSelfLoops(LexArcs(rs));
      }
      if HasWordOutput(prev) {
        var i :| 0 <= i < |prev| && prev[i].wordId != Epsilon;
        assert rs[i] == prev[i];
        assert LoopState in StatesNeedingSelfLoops(LexArcs(prev));
        var a :| a in LexArcs(prev) && a.olabel != Epsilon && a.src == LoopState;
        assert a in LexArcs(rs);
      }
    }
  }

  lemma {:induction false} SelfLoopArcsBelow(arcs: seq<Arc>, disambigPhone: int, disambigWord: int, n: nat)
    requires n >= 1 && StatesNeedingSelfLoops(arcs) <= {LoopState}
    ensures SelfLoopArcs(arcs, disambigPhone, disambigWord, n) ==
              if LoopState in StatesNeedingSelfLoops(arcs) then [SelfLoop(LoopState, disambigPhone, disambigWord)] else []
    decreases n
  {
    if n > 1 {
      SelfLoopArcsBelow(arcs, disambigPhone, disambigWord, n - 1);
    }
  }

  /** Whatever order `AddSelfLoops` chose, on word arcs it adds the ordered loops of `SelfLoopArcs`. */
  lemma SelfLoopsOfLexArcs(rs: seq<Resolved>, disambigPhone: int, disambigWord: int, withLoops: seq<Arc>)
    requires AllChainsNonEmpty(rs)
    requires var arcs := LexArcs(rs);
      |withLoops| == |arcs| + |StatesNeedingSelfLoops(arcs)|
      && withLoops[..|arcs|] == arcs
      && forall k :: |arcs| <= k < |withLoops| ==>
           withLoops[k] == SelfLoop(withLoops[k].src, disambigPhone, disambigWord) && withLoops[k].src in StatesNeedingSelfLoops(arcs)
    ensures NextState(rs) >= 0
    ensures withLoops == LexArcs(rs) + SelfLoopArcs(LexArcs(rs), disambigPhone, disambigWord, NextState(rs))
  {
    var arcs := LexArcs(rs);
    LexArcsShape(rs);
    OnlyLoopStateNeedsSelfLoop(rs);
    SelfLoopArcsBelow(arcs, disambigPhone, disambigWord, NextState(rs));
    assert withLoops == withLoops[..|arcs|] + withLoops[|arcs|..];
    if HasWordOutput(rs) {
      assert |withLoops[|arcs|..]| == 1;
      assert withLoops[|arcs|..] == [withLoops[|arcs|]];
    }
  }
}
