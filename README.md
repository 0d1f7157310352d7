# Lexicon compilation for k2 decoding (SpeechBrain `prepare_lang_bpe`)

This project models the core of SpeechBrain's `prepare_lang_bpe.py` in
Dafny. That module prepares the lexicon transducer `L` that k2 decoding
composes with the language model. The model covers four functions:

- `add_disambig_symbols` appends `#1`, `#2`, ... to every pronunciation that
  occurs more than once or is a proper prefix of another pronunciation.
  When every input pronunciation has tokens and no input token already has
  the form `#k`, the result has pairwise distinct pronunciations, none of
  them a prefix of another. An input token of the form `#k` can defeat this
  (`DisambigProperties.HashTokenInputCollides`). `#0` stays reserved for the
  language model.
- `generate_id_map` numbers a symbol list.
- `add_self_loops` adds a `#0:#0` self-loop to every state that has an
  outgoing arc with a word output.
- `lexicon_to_fst_no_sil` builds the lexicon transducer. It checks the
  reserved ids and looks up every symbol. It gives each pronunciation a
  private chain of fresh states that leaves and re-enters loop state 0, and
  it can add the `#0` self-loops. It then appends the terminating arc into a
  fresh final state and sorts the arcs stably by source state.

Modules:

- `Lexicon`: tokens, entries, errors, and `Result`.
- `PhoneKey`: the space-joined dictionary keys and `str.split`.
- `Symbols`: the `#k` tokens.
- `Disambig` and `DisambigProperties`: the disambiguation pass and what it
  guarantees.
- `IdMap`: `generate_id_map`.
- `Arcs`: arcs, filters, and the stable sort.
- `SelfLoops`: `add_self_loops`.
- `FstBuilder`: `lexicon_to_fst_no_sil`.
- `FstProperties` and `FstTheorems`: what the builder guarantees.

The source's loops are imperative methods. Each method is proved against a
specification function (`Disambiguated`/`MaxIndex`, `StatesNeedingSelfLoops`,
`BuildFst`), and the lemmas prove the promised properties about those
functions. The source's failures become `Err` results:

- an `IndexError` from `prons.pop()` on an empty pronunciation;
- the `assert`s on `<unk>`, `<eps>` and non-empty pronunciations in
  `lexicon_to_fst_no_sil`;
- a `KeyError` from a symbol-table lookup.

## Model

| member | source | states |
|---|---|---|
| Disambig.CountPronunciations | speechbrain/decoders/prepare_lang_bpe.py:80-84 | the `count` table maps every pronunciation to its number of entries (absent keys read 0) |
| Disambig.MarkPrefixesOf | speechbrain/decoders/prepare_lang_bpe.py:90-94 | popping tokens off a copy marks exactly the non-empty proper prefixes of one pronunciation |
| Disambig.MarkProperPrefixes | speechbrain/decoders/prepare_lang_bpe.py:86-94 | fails with the word of the first entry without tokens (where `pop` raises); otherwise `issubseq` holds exactly the non-empty proper prefixes of some pronunciation |
| Disambig.PrefixOfSomeExtend | speechbrain/decoders/prepare_lang_bpe.py:89-94 | one more entry extends the prefix set by exactly that entry's proper prefixes |
| Disambig.DisambiguateEntry | speechbrain/decoders/prepare_lang_bpe.py:108-125 | one loop step keeps a unique, prefix-free entry, and otherwise appends its next `#n`; `last_used_disambig_symbol_of` and `max_disambig` stay equal to their specifications after the step |
| Disambig.AddDisambigSymbols | speechbrain/decoders/prepare_lang_bpe.py:62-126 | fails exactly at the first entry without tokens; otherwise returns the disambiguated lexicon and the largest index used |
| DisambigProperties.DisambiguatedShape | speechbrain/decoders/prepare_lang_bpe.py:108-125 | same length and words; each pronunciation is unchanged or gains exactly one `#k` with `1 <= k <= max_disambig` |
| DisambigProperties.UnchangedIff | speechbrain/decoders/prepare_lang_bpe.py:111-113 | an entry is unchanged if and only if its pronunciation occurs once and is not a proper prefix of another |
| DisambigProperties.OccurrenceOrder | speechbrain/decoders/prepare_lang_bpe.py:115-123 | among equal pronunciations the indices start at 1, strictly increase in lexicon order, and never exceed the number of occurrences |
| DisambigProperties.OccurrenceBounds | speechbrain/decoders/prepare_lang_bpe.py:115-119 | the index of an entry lies between 1 and its pronunciation's count |
| DisambigProperties.CountAtLeastTwo | speechbrain/decoders/prepare_lang_bpe.py:111 | two entries with one pronunciation give it count at least 2, so both are disambiguated |
| DisambigProperties.NeverHashZero | speechbrain/decoders/prepare_lang_bpe.py:103-105 | `#0` is never appended |
| DisambigProperties.MaxIndexBounds | speechbrain/decoders/prepare_lang_bpe.py:121-122 | `max_disambig` bounds every index used |
| DisambigProperties.MaxIndexAttained | speechbrain/decoders/prepare_lang_bpe.py:105-122 | `max_disambig` is 0 if and only if nothing was disambiguated; otherwise some entry carries `#max_disambig` |
| DisambigProperties.TokensOfResult | speechbrain/decoders/prepare_lang_bpe.py:124-125 | every output token is an input token of that entry or one of `#1` .. `#max_disambig` |
| DisambigProperties.PairUnambiguous | speechbrain/decoders/prepare_lang_bpe.py:63-65 | for two distinct entries the outputs differ, and neither is a proper prefix of the other |
| DisambigProperties.HashTokenInputCollides | speechbrain/decoders/prepare_lang_bpe.py:108-125 | for the input `A a #1`, `B a`, `C a` the outputs of `A` and `B` are both `a #1`, so the guarantee needs inputs free of `#k` tokens |
| DisambigProperties.DisambiguatedIsPrefixFree | speechbrain/decoders/prepare_lang_bpe.py:63-65 | with non-empty pronunciations free of `#k` tokens, the output pronunciations are pairwise distinct and prefix-free |
| PhoneKey.SplitJoin | speechbrain/decoders/prepare_lang_bpe.py:84 | `" ".join` followed by `split()` returns a pronunciation of non-empty, whitespace-free tokens unchanged, so keys may be token sequences |
| PhoneKey.JoinInjective | speechbrain/decoders/prepare_lang_bpe.py:109 | two valid pronunciations share a key if and only if they are equal |
| PhoneKey.JoinEmpty | speechbrain/decoders/prepare_lang_bpe.py:110 | the key is `""` if and only if the pronunciation has no tokens |
| PhoneKey.AppendedKeySplits | speechbrain/decoders/prepare_lang_bpe.py:124-125 | appending `" #k"` to the key and splitting it appends exactly one token |
| Symbols.DisambigToken | speechbrain/decoders/prepare_lang_bpe.py:124 | `#k` has the reserved `#`-digits shape and is a valid token |
| Symbols.DisambigTokenInjective | speechbrain/decoders/prepare_lang_bpe.py:124 | `#a == #b` if and only if `a == b` |
| Symbols.ParseDecimalString | speechbrain/decoders/prepare_lang_bpe.py:124 | the decimal rendering of `k` parses back to `k` |
| IdMap.GenerateIdMap | speechbrain/decoders/prepare_lang_bpe.py:129-138 | the keys are the symbols; each maps to a position holding it, and to its last occurrence |
| IdMap.IdMapOfDistinct | speechbrain/decoders/prepare_lang_bpe.py:129-138 | for unique symbols, the map inverts the enumeration and is injective |
| SelfLoops.CollectStates | speechbrain/decoders/prepare_lang_bpe.py:165-169 | the set holds exactly the sources of arcs with a non-epsilon output |
| SelfLoops.LoopsFor | speechbrain/decoders/prepare_lang_bpe.py:171-173 | whatever the set's iteration order, there is exactly one `#0` self-loop per state, each on a distinct state |
| SelfLoops.AddSelfLoops | speechbrain/decoders/prepare_lang_bpe.py:141-175 | the input arcs come first, unchanged, then exactly one `#0:#0` self-loop per state needing one |
| FstBuilder.LookupTokens | speechbrain/decoders/prepare_lang_bpe.py:214 | succeeds if and only if every token is in the table, with the ids in order; otherwise fails on the first missing token |
| FstBuilder.EmitWordArcs | speechbrain/decoders/prepare_lang_bpe.py:211-228 | appends the pronunciation's chain and allocates `n - 1` fresh states |
| FstBuilder.LexiconToFstNoSil | speechbrain/decoders/prepare_lang_bpe.py:178-241 | returns the specification `BuildFst`, failures included |
| FstBuilder.ResolveAllStopsAtFirstError | speechbrain/decoders/prepare_lang_bpe.py:209-214 | the first failing entry decides the error of the whole lexicon |
| FstBuilder.LexArcsShape | speechbrain/decoders/prepare_lang_bpe.py:209-228 | word outputs occur only on arcs leaving state 0, and every state is below `next_state` |
| FstBuilder.OnlyLoopStateNeedsSelfLoop | speechbrain/decoders/prepare_lang_bpe.py:165-169 | on the builder's arcs only state 0 needs a self-loop, exactly when some word id is non-zero |
| FstBuilder.SelfLoopsOfLexArcs | speechbrain/decoders/prepare_lang_bpe.py:230-235 | whatever order `add_self_loops` picks, on the builder's arcs it adds the same loops |
| FstProperties.ResolveAllOkIff | speechbrain/decoders/prepare_lang_bpe.py:209-214 | the lexicon resolves if and only if every entry has tokens and all its symbols are known; then entry `i` resolves to its looked-up ids |
| FstProperties.ResolveAllFirstError | speechbrain/decoders/prepare_lang_bpe.py:209-214 | a failure is the error of the first unresolvable entry |
| FstProperties.BuildFstOkIff | speechbrain/decoders/prepare_lang_bpe.py:204-232 | the builder succeeds if and only if `<unk>`/`<eps>` are 0, every entry resolves, and `#0` is in both tables when self-loops are asked for |
| FstProperties.BuildFstFirstError | speechbrain/decoders/prepare_lang_bpe.py:209-214 | with valid reserved ids, the error is the first bad entry's: an empty pronunciation, else its missing word, else its first missing token |
| FstProperties.StateAndArcCount | speechbrain/decoders/prepare_lang_bpe.py:216-228 | `next_state = 1 + tokens - entries`, with one arc per token |
| FstProperties.WordArcsStates | speechbrain/decoders/prepare_lang_bpe.py:216-228 | in one chain, each fresh state has one arc in and one out |
| FstProperties.FreshStatesPrivate | speechbrain/decoders/prepare_lang_bpe.py:209-228 | every fresh state lies on exactly one chain |
| FstProperties.LexArcsLoopsAtZero | speechbrain/decoders/prepare_lang_bpe.py:216-228 | a word arc from a state to itself is at state 0 (a one-token pronunciation) |
| FstProperties.UnsortedShape | speechbrain/decoders/prepare_lang_bpe.py:230-238 | before the sort: the word arcs, at most one `#0` loop on state 0, then the terminating arc |
| FstProperties.ResolveAllPrefix | speechbrain/decoders/prepare_lang_bpe.py:209-214 | a prefix of the lexicon resolves to the prefix of the resolved entries |
| FstProperties.LexArcsPrefix | speechbrain/decoders/prepare_lang_bpe.py:209-228 | the arcs of the first `j` entries are a prefix of all word arcs |
| FstProperties.ChainAt | speechbrain/decoders/prepare_lang_bpe.py:209-228 | the arcs of entry `i` come right after those of the entries before it |
| FstProperties.ChainArcs | speechbrain/decoders/prepare_lang_bpe.py:216-228 | arc `k` of entry `i` is the `k`-th chain arc from its first fresh state |
| FstProperties.EntryChain | speechbrain/decoders/prepare_lang_bpe.py:209-228 | arc `k` of entry `i` runs from 0 or `first + k - 1` to `first + k` or 0, where `first = 1 + tokens before - i`; it reads that token's id and outputs the word id only on the first arc |
| FstProperties.ResolvedAt | speechbrain/decoders/prepare_lang_bpe.py:213-214 | entry `i` resolves to `word2id[word]` and `token2id` of each token |
| FstProperties.BuildFstCompiled | speechbrain/decoders/prepare_lang_bpe.py:178-241 | a successful build is the compiled transducer of the resolved lexicon |
| FstProperties.WordOutputIff | speechbrain/decoders/prepare_lang_bpe.py:165-169 | state 0 has an arc with a word output if and only if some entry's word id is non-zero |
| FstProperties.SortedParts | speechbrain/decoders/prepare_lang_bpe.py:241 | after the sort, the arcs leaving a state are those of each appended part in turn, and its in-degree is unchanged |
| FstProperties.TerminalAfterSort | speechbrain/decoders/prepare_lang_bpe.py:237-241 | after the sort, the terminating arc alone enters the final state, and nothing leaves it |
| FstProperties.TerminalLastFromLoopState | speechbrain/decoders/prepare_lang_bpe.py:237-241 | the terminating arc is the last arc out of state 0 |
| FstProperties.LoopsKept | speechbrain/decoders/prepare_lang_bpe.py:230-235 | loops on state 0 are all among the arcs leaving state 0, in order |
| FstProperties.CompiledSize | speechbrain/decoders/prepare_lang_bpe.py:216-238 | arc count = word arcs + added loops + 1 |
| FstProperties.CompiledStatesInRange | speechbrain/decoders/prepare_lang_bpe.py:199-241 | all states lie in `[0, final_state]`; loops are at state 0 only |
| FstProperties.CompiledTerminal | speechbrain/decoders/prepare_lang_bpe.py:237-241 | exactly one arc enters the final state, and none leaves it |
| FstProperties.CompiledLoopStateArcs | speechbrain/decoders/prepare_lang_bpe.py:230-241 | arcs out of state 0, in order: the chain starts, the `#0` loop, the terminating arc |
| FstProperties.CompiledPrivateChains | speechbrain/decoders/prepare_lang_bpe.py:209-241 | every fresh state keeps one arc in and one out after loops and the sort |
| FstTheorems.FstSize | speechbrain/decoders/prepare_lang_bpe.py:199-241 | `final_state = 1 + Σ(len(prons) - 1)`; the arc count is tokens + (1 if a `#0` loop was added) + 1 |
| FstTheorems.FstStatesInRange | speechbrain/decoders/prepare_lang_bpe.py:199-241 | every arc runs within `[0, final_state]`, and only state 0 has self-loops |
| FstTheorems.FstTerminal | speechbrain/decoders/prepare_lang_bpe.py:237-241 | exactly one arc, `(0, final, -1, -1, 0)`, enters the final state, and none leaves it; state 0's arcs are the chain starts, then the loop, then the terminating arc |
| FstTheorems.FstPrivateChains | speechbrain/decoders/prepare_lang_bpe.py:209-228 | each fresh state has exactly one incoming and one outgoing arc in the result |
| FstTheorems.FstSortedStably | speechbrain/decoders/prepare_lang_bpe.py:241 | the result is sorted by source state, and each state's arcs keep their appended order |
| Arcs.InsertSorted | speechbrain/decoders/prepare_lang_bpe.py:241 | inserting into a sorted list keeps it sorted |
| Arcs.SortBySrcSorted | speechbrain/decoders/prepare_lang_bpe.py:241 | the sort's output is sorted by source state |
| Arcs.SortBySrc | speechbrain/decoders/prepare_lang_bpe.py:241 | the sort's output is a permutation of its input |
| Arcs.SortBySrcStable | speechbrain/decoders/prepare_lang_bpe.py:241 | the sort keeps each source state's arcs in input order |
| Arcs.SortedWithSameFiltersEqual | speechbrain/decoders/prepare_lang_bpe.py:241 | two sorted lists with the same per-state arcs are equal, so the stable sort is unique |
| Arcs.SortBySrcIsStableSort | speechbrain/decoders/prepare_lang_bpe.py:241 | `SortBySrc` returns exactly what Python's stable `sorted(key=arc[0])` returns |
| Arcs.SortBySrcMembers | speechbrain/decoders/prepare_lang_bpe.py:241 | the sort neither adds nor drops arcs |
| Arcs.InDegreePermutation | speechbrain/decoders/prepare_lang_bpe.py:241 | permuting arcs keeps every state's in-degree |

## Left out

- The rest of `prepare_lang_bpe.py` is not part of this model: `write_lexicon` (speechbrain/decoders/prepare_lang_bpe.py:28-39) and `write_mapping` (:42-59) write text files, and `generate_lexicon` (:250-274) calls a SentencePiece model loaded from a file. `read_lexicon` is not defined in that file.
- The driver `main` in `recipes/LibriSpeech/ASR/transformer/generate_lexicon.py` is not part of this model. It reads the symbol tables, drops the reserved words, adds `#0` .. `#max_disambig` to the token table after asserting they are new, and saves the two transducers: file I/O and table bookkeeping around the modelled functions.
- The `[final_state]` row that the source appends before the sort, and the rendering of the arcs as k2 text with `k2.Fsa.from_str`, are left out. That row is k2's marker for the final state rather than an arc, so the model returns the final state as a field of `Fst`.
- `Disambig.AddDisambigSymbols` requires that every token is non-empty and free of whitespace (`ValidLexicon`). Only then do the space-joined keys of the source behave like the token sequences the model uses as keys (`PhoneKey.SplitJoin`). The model does not capture keys of malformed tokens colliding. It also does not capture the source's `assert phnseq != ""` (prepare_lang_bpe.py:110): that assertion fails only for a pronunciation made of empty tokens, such as `[""]`, and the requires excludes such an input rather than returning an `Err` for it.
- `PhoneKey.IsWhitespace` is the full set of characters for which Python's `str.isspace()` holds, so `PhoneKey.Split` splits where `str.split()` does. The functions `PhoneKey.Join` (`" ".join`) and `PhoneKey.Split` have no contracts of their own; the `PhoneKey` rows of the table state their properties.
- `SelfLoops.AddSelfLoops` does not fix the order of the added loops, because the source iterates a Python `set`. The model chooses each next state nondeterministically and proves only what holds for every order. `FstBuilder.SelfLoopsOfLexArcs` shows that at most one loop arises on the builder's arcs, so the builder's result is determined.
- Symbol tables are modelled as maps (the source's `dict`). A missing key is an `Err(MissingSymbol(...))` result, in place of Python's `KeyError`.
- Arc weights are the integer 0 that the source writes. Floating-point scores are not modelled.
