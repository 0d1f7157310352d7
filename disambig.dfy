/** `add_disambig_symbols`: appends `#1`, `#2`, ... to the pronunciations that
    occur more than once or are a proper prefix of another pronunciation, so
    that afterwards all pronunciations differ and none is a prefix of another
    (the scheme of Kaldi's `add_lex_disambig.pl`). */
module Disambig {
  import opened Lexicon
  import opened PhoneKey
  import opened Symbols

  // ---------------------------------------------------------------------------
  // Specification

  /** How many entries of `lex` have pronunciation `p` (the `count` table). */
  function Count(lex: seq<Entry>, p: Pron): nat {
    if |lex| == 0 then 0
    else Count(lex[..|lex| - 1], p) + (if lex[|lex| - 1].pron == p then 1 else 0)
  }

  predicate IsProperPrefix(p: Pron, q: Pron) {
    |p| < |q| && p == q[..|p|]
  }

  /** `p` is a non-empty proper prefix of some entry's pronunciation (the `issubseq` table). */
  predicate IsPrefixOfSome(lex: seq<Entry>, p: Pron) {
    |p| > 0 && exists j :: 0 <= j < |lex| && IsProperPrefix(p, lex[j].pron)
  }

  /** Entries with pronunciation `p` get a disambiguation token unless `p`
      occurs exactly once and prefixes no other pronunciation. */
  predicate NeedsDisambig(lex: seq<Entry>, p: Pron) {
    Count(lex, p) != 1 || IsPrefixOfSome(lex, p)
  }

  /** Which occurrence of its pronunciation, counting from 1, entry `i` is. */
  function Occurrence(lex: seq<Entry>, i: nat): nat
    requires i < |lex|
  {
    Count(lex[..i + 1], lex[i].pron)
  }

  function DisambiguatedEntry(lex: seq<Entry>, i: nat): Entry
    requires i < |lex|
  {
    if NeedsDisambig(lex, lex[i].pron)
    then Entry(lex[i].word, lex[i].pron + [DisambigToken(Occurrence(lex, i))])
    else lex[i]
  }

  /** The lexicon the pass returns. */
  function Disambiguated(lex: seq<Entry>): seq<Entry> {
    seq(|lex|, i requires 0 <= i < |lex| => DisambiguatedEntry(lex, i))
  }

  /** The running `max_disambig` after the first `k` entries. */
  function MaxIndex(lex: seq<Entry>, k: nat): nat
    requires k <= |lex|
  {
    if k == 0 then 0
    else
      var m := MaxIndex(lex, k - 1);
      if NeedsDisambig(lex, lex[k - 1].pron) && Occurrence(lex, k - 1) > m
      then Occurrence(lex, k - 1) else m
  }

  /** The `last_used_disambig_symbol_of` table after the first `k` entries. */
  function LastUsed(lex: seq<Entry>, k: nat, p: Pron): nat
    requires k <= |lex|
  {
    if NeedsDisambig(lex, p) then Count(lex[..k], p) else 0
  }

  /** Index of the first entry without tokens, or `|lex|` when there is none. */
  function FirstEmptyPron(lex: seq<Entry>): (k: nat)
    ensures k <= |lex|
    ensures forall j :: 0 <= j < k ==> |lex[j].pron| > 0
    ensures k < |lex| ==> |lex[k].pron| == 0
  {
    if |lex| == 0 then 0
    else if |lex[0].pron| == 0 then 0
    else 1 + FirstEmptyPron(lex[1..])
  }

  predicate ValidLexicon(lex: seq<Entry>) {
    forall i :: 0 <= i < |lex| ==> ValidPron(lex[i].pron)
  }

  // ---------------------------------------------------------------------------
  // The pass itself

  /** Step (1) of `add_disambig_symbols`: the `count` table. */
  method CountPronunciations(lexicon: seq<Entry>) returns (count: map<Pron, nat>)
    ensures forall p :: GetOrZero(count, p) == Count(lexicon, p)
  {
    count := map[];
    for k := 0 to |lexicon|
      invariant forall p :: GetOrZero(count, p) == Count(lexicon[..k], p)
    {
      assert lexicon[..k + 1][..k] == lexicon[..k];
      var p := lexicon[k].pron;
      count := count[p := GetOrZero(count, p) + 1];
    }
    assert lexicon[..|lexicon|] == lexicon;
  }

  /** The inner `while prons:` loop of step (2): adds every non-empty proper
      prefix of `pron`, longest first. */
  method MarkPrefixesOf(pron: Pron, issubseq: set<Pron>) returns (marked: set<Pron>)
    requires |pron| > 0
    ensures forall p :: p in marked <==> p in issubseq || (0 < |p| < |pron| && p == pron[..|p|])
  {
    marked := issubseq;
    var prons := pron[..|pron| - 1];
    while |prons| > 0
      invariant |prons| < |pron| && prons == pron[..|prons|]
      invariant forall p :: p in marked <==> p in issubseq || (|prons| < |p| < |pron| && p == pron[..|p|])
    {
      marked := marked + {prons};
      prons := prons[..|prons| - 1];
    }
  }

  /** Step (2) of `add_disambig_symbols`: the `issubseq` table, built by popping
      tokens off a copy of each pronunciation. Fails on the first entry
      without tokens, where `prons.pop()` raises. */
  method MarkProperPrefixes(lexicon: seq<Entry>) returns (r: Result<set<Pron>>)
    ensures FirstEmptyPron(lexicon) < |lexicon| ==>
              r == Err(EmptyPronunciation(lexicon[FirstEmptyPron(lexicon)].word))
    ensures FirstEmptyPron(lexicon) == |lexicon| ==>
              r.Ok? && forall p :: p in r.value <==> IsPrefixOfSome(lexicon, p)
  {
    var issubseq: set<Pron> := {};
    for k := 0 to |lexicon|
      invariant k <= FirstEmptyPron(lexicon)
      invariant forall p :: p in issubseq <==> IsPrefixOfSome(lexicon[..k], p)
    {
      var pron := lexicon[k].pron;
      if |pron| == 0 {
        return Err(EmptyPronunciation(lexicon[k].word));
      }
      var before := issubseq;
      issubseq := MarkPrefixesOf(pron, issubseq);
      PrefixOfSomeExtend(lexicon, k, before, issubseq);
    }
    assert lexicon[..|lexicon|] == lexicon;
    r := Ok(issubseq);
  }

  /** One iteration of step (3) for entry `k`: keeps the entry when its
      pronunciation is unique and prefixes nothing, and otherwise appends the
      next `#n` of that pronunciation and updates `last_used_disambig_symbol_of`
      and `max_disambig`. */
  method DisambiguateEntry(lexicon: seq<Entry>, k: nat, count: map<Pron, nat>, issubseq: set<Pron>,
                           lastUsed: map<Pron, nat>, maxDisambig: nat)
    returns (entry: Entry, lastUsed': map<Pron, nat>, maxDisambig': nat)
    requires k < |lexicon| && |lexicon[k].pron| > 0
    requires forall p :: GetOrZero(count, p) == Count(lexicon, p)
    requires forall p :: p in issubseq <==> IsPrefixOfSome(lexicon, p)
    requires forall p :: GetOrZero(lastUsed, p) == LastUsed(lexicon, k, p)
    requires maxDisambig == MaxIndex(lexicon, k)
    ensures entry == DisambiguatedEntry(lexicon, k)
    ensures forall p :: GetOrZero(lastUsed', p) == LastUsed(lexicon, k + 1, p)
    ensures maxDisambig' == MaxIndex(lexicon, k + 1)
  {
    CountSnoc(lexicon, k);
    LastUsedSnoc(lexicon, k);
    var firstAllowedDisambig := 1;
    var word, prons := lexicon[k].word, lexicon[k].pron;
    if prons !in issubseq && GetOrZero(count, prons) == 1 {
      assert !NeedsDisambig(lexicon, prons);
      return Entry(word, prons), lastUsed, maxDisambig;
    }
    assert NeedsDisambig(lexicon, prons);
    var curDisambig := GetOrZero(lastUsed, prons);
    if curDisambig == 0 {
      curDisambig := firstAllowedDisambig;
    } else {
      curDisambig := curDisambig + 1;
    }
    assert curDisambig == Occurrence(lexicon, k);
    maxDisambig' := maxDisambig;
    if curDisambig > maxDisambig' {
      maxDisambig' := curDisambig;
    }
    lastUsed' := lastUsed[prons := curDisambig];
    entry := Entry(word, prons + [DisambigToken(curDisambig)]);
  }

  /** Models `add_disambig_symbols`. The counting tables are keyed by the
      token sequence; PhoneKey.SplitJoin shows this agrees with the
      space-joined string keys for valid tokens, and
      PhoneKey.AppendedKeySplits that re-splitting the extended key appends
      exactly the new token. */
  method AddDisambigSymbols(lexicon: seq<Entry>) returns (r: Result<(seq<Entry>, nat)>)
    requires ValidLexicon(lexicon)
    ensures FirstEmptyPron(lexicon) < |lexicon| ==>
              r == Err(EmptyPronunciation(lexicon[FirstEmptyPron(lexicon)].word))
    ensures FirstEmptyPron(lexicon) == |lexicon| ==>
              r == Ok((Disambiguated(lexicon), MaxIndex(lexicon, |lexicon|)))
  {
    var count := CountPronunciations(lexicon);
    var marked := MarkProperPrefixes(lexicon);
    if marked.Err? {
      return Err(marked.error);
    }
    var issubseq := marked.value;

    var ans: seq<Entry> := [];
    var firstAllowedDisambig := 1;
    var maxDisambig := firstAllowedDisambig - 1;
    var lastUsedDisambigSymbolOf: map<Pron, nat> := map[];
    for k := 0 to |lexicon|
      invariant |ans| == k
      invariant forall j :: 0 <= j < k ==> ans[j] == DisambiguatedEntry(lexicon, j)
      invariant forall p :: GetOrZero(lastUsedDisambigSymbolOf, p) == LastUsed(lexicon, k, p)
      invariant maxDisambig == MaxIndex(lexicon, k)
    {
      var entry;
      entry, lastUsedDisambigSymbolOf, maxDisambig :=
        DisambiguateEntry(lexicon, k, count, issubseq, lastUsedDisambigSymbolOf, maxDisambig);
      ans := ans + [entry];
    }
    assert ans == Disambiguated(lexicon);
    r := Ok((ans, maxDisambig));
  }

  // ---------------------------------------------------------------------------
  // Lemmas used by the pass

  lemma CountSnoc(lex: seq<Entry>, k: nat)
    requires k < |lex|
    ensures forall p :: Count(lex[..k + 1], p) == Count(lex[..k], p) + (if lex[k].pron == p then 1 else 0)
  {
    assert lex[..k + 1][..k] == lex[..k];
  }

  lemma LastUsedSnoc(lex: seq<Entry>, k: nat)
    requires k < |lex|
    ensures forall p ::
      LastUsed(lex, k + 1, p) == LastUsed(lex, k, p) + (if lex[k].pron == p && NeedsDisambig(lex, p) then 1 else 0)
  {
    CountSnoc(lex, k);
  }

  /** Entry `k` adds to the prefixes seen so far exactly the non-empty proper prefixes of its pronunciation. */
  lemma PrefixOfSomeSnoc(lex: seq<Entry>, k: nat, p: Pron)
    requires k < |lex|
    ensures IsPrefixOfSome(lex[..k + 1], p) <==>
      IsPrefixOfSome(lex[..k], p) || (0 < |p| && IsProperPrefix(p, lex[k].pron))
  {
    var prefix, longer := lex[..k], lex[..k + 1];
    assert forall j :: 0 <= j < k ==> longer[j] == prefix[j];
    assert longer[k] == lex[k];
  }

  lemma PrefixOfSomeExtend(lex: seq<Entry>, k: nat, before: set<Pron>, after: set<Pron>)
    requires k < |lex|
    requires forall p :: p in before <==> IsPrefixOfSome(lex[..k], p)
    requires forall p :: p in after <==>
      p in before || (0 < |p| < |lex[k].pron| && p == lex[k].pron[..|p|])
    ensures forall p :: p in after <==> IsPrefixOfSome(lex[..k + 1], p)
  {
    forall p
      ensures p in after <==> IsPrefixOfSome(lex[..k + 1], p)
    {
      PrefixOfSomeSnoc(lex, k, p);
    }
  }
}
