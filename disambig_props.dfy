/** What `add_disambig_symbols` promises about the lexicon it returns. */
module DisambigProperties {
  import opened Lexicon
  import opened Symbols
  import opened Disambig

  /** No input token already has the reserved shape `#<digits>`. */
  predicate NoDisambigTokens(lex: seq<Entry>) {
    forall i, k :: 0 <= i < |lex| && 0 <= k < |lex[i].pron| ==> !IsDisambigSymbol(lex[i].pron[k])
  }

  // ---------------------------------------------------------------------------
  // Counting

  lemma {:induction false} CountMono(lex: seq<Entry>, m: nat, n: nat, p: Pron)
    requires m <= n <= |lex|
    ensures Count(lex[..m], p) <= Count(lex[..n], p)
    decreases n - m
  {
    if m < n {
      CountSnoc(lex, n - 1);
      CountMono(lex, m, n - 1, p);
    }
  }

  /** A later occurrence of `p` at `j` has strictly more occurrences of `p` up to and including it. */
  lemma CountGrows(lex: seq<Entry>, m: nat, j: nat)
    requires m <= j < |lex|
    ensures Count(lex[..m], lex[j].pron) < Count(lex[..j + 1], lex[j].pron)
  {
    CountMono(lex, m, j, lex[j].pron);
    CountSnoc(lex, j);
  }

  /** The n-th entry with a given pronunciation, in lexicon order, is its n-th
      occurrence: the indices of equal pronunciations strictly increase from 1
      and never exceed how often the pronunciation occurs. */
  lemma {:induction false} OccurrenceOrder(lex: seq<Entry>, i: nat, j: nat)
    requires i < j < |lex| && lex[i].pron == lex[j].pron
    ensures 1 <= Occurrence(lex, i) < Occurrence(lex, j) <= Count(lex, lex[j].pron)
  {
    CountGrows(lex, 0, i);
    CountGrows(lex, i + 1, j);
    CountMono(lex, j + 1, |lex|, lex[j].pron);
    assert lex[..|lex|] == lex;
  }

  lemma OccurrenceBounds(lex: seq<Entry>, i: nat)
    requires i < |lex|
    ensures 1 <= Occurrence(lex, i) <= Count(lex, lex[i].pron)
  {
    CountGrows(lex, 0, i);
    CountMono(lex, i + 1, |lex|, lex[i].pron);
    assert lex[..|lex|] == lex;
  }

  /** Two entries with the same pronunciation make it occur at least twice. */
  lemma CountAtLeastTwo(lex: seq<Entry>, i: nat, j: nat)
    requires i < |lex| && j < |lex| && i != j && lex[i].pron == lex[j].pron
    ensures Count(lex, lex[i].pron) >= 2
  {
    if i < j { OccurrenceOrder(lex, i, j); } else { OccurrenceOrder(lex, j, i); }
  }

  // ---------------------------------------------------------------------------
  // Shape of the result

  /** Same length, same words in the same order; each pronunciation is either
      unchanged or followed by exactly one `#k` with 1 <= k <= max, and `#k`
      is the k-th occurrence of that pronunciation. */
  lemma DisambiguatedShape(lex: seq<Entry>, i: nat)
    requires i < |lex|
    ensures |Disambiguated(lex)| == |lex|
    ensures Disambiguated(lex)[i].word == lex[i].word
    ensures Disambiguated(lex)[i].pron == lex[i].pron
         || (var k := Occurrence(lex, i);
             1 <= k <= MaxIndex(lex, |lex|)
             && Disambiguated(lex)[i].pron == lex[i].pron + [DisambigToken(k)])
  {
    OccurrenceBounds(lex, i);
    if NeedsDisambig(lex, lex[i].pron) {
      MaxIndexBounds(lex, |lex|, i);
    }
  }

  /** An entry is left unchanged exactly when its pronunciation occurs once
      and is not a proper prefix of another entry's pronunciation. */
  lemma UnchangedIff(lex: seq<Entry>, i: nat)
    requires i < |lex|
    ensures Disambiguated(lex)[i] == lex[i] <==>
              Count(lex, lex[i].pron) == 1 && !IsPrefixOfSome(lex, lex[i].pron)
  {
    if NeedsDisambig(lex, lex[i].pron) {
      assert |Disambiguated(lex)[i].pron| == |lex[i].pron| + 1;
    }
  }

  /** The global symbol `#0` is never appended. */
  lemma NeverHashZero(lex: seq<Entry>, i: nat)
    requires i < |lex|
    ensures Disambiguated(lex)[i].pron != lex[i].pron + [DisambigToken(0)]
  {
    OccurrenceBounds(lex, i);
    if NeedsDisambig(lex, lex[i].pron) {
      DisambigTokenInjective(Occurrence(lex, i), 0);
      var out := Disambiguated(lex)[i].pron;
      assert out[|lex[i].pron|] == DisambigToken(Occurrence(lex, i));
      assert (lex[i].pron + [DisambigToken(0)])[|lex[i].pron|] == DisambigToken(0);
    } else {
      assert |Disambiguated(lex)[i].pron| == |lex[i].pron|;
    }
  }

  /** `max_disambig` is an upper bound of every index used among the first `k` entries. */
  lemma {:induction false} MaxIndexBounds(lex: seq<Entry>, k: nat, i: nat)
    requires i < k <= |lex| && NeedsDisambig(lex, lex[i].pron)
    ensures Occurrence(lex, i) <= MaxIndex(lex, k)
  {
    if i < k - 1 {
      MaxIndexBounds(lex, k - 1, i);
    }
  }

  /** `max_disambig` is 0 when no entry among the first `k` was changed, and
      otherwise it is the index of one of the changed entries. */
  lemma {:induction false} MaxIndexAttained(lex: seq<Entry>, k: nat)
    requires k <= |lex|
    ensures MaxIndex(lex, k) == 0 <==> forall i :: 0 <= i < k ==> !NeedsDisambig(lex, lex[i].pron)
    ensures MaxIndex(lex, k) > 0 ==>
              exists i :: 0 <= i < k && NeedsDisambig(lex, lex[i].pron) && Occurrence(lex, i) == MaxIndex(lex, k)
  {
    if k > 0 {
      MaxIndexAttained(lex, k - 1);
      OccurrenceBounds(lex, k - 1);
      if MaxIndex(lex, k) == 0 {
        forall i | 0 <= i < k
          ensures !NeedsDisambig(lex, lex[i].pron)
        {
          if NeedsDisambig(lex, lex[i].pron) {
            MaxIndexBounds(lex, k, i);
            OccurrenceBounds(lex, i);
          }
        }
      }
    }
  }

  /** Every token of the result is an input token or one of `#1` .. `#max`,
      the symbols the caller adds to the token table. */
  lemma TokensOfResult(lex: seq<Entry>, i: nat, t: nat)
    requires i < |lex| && t < |Disambiguated(lex)[i].pron|
    ensures Disambiguated(lex)[i].pron[t] in lex[i].pron
         || exists k :: 1 <= k <= MaxIndex(lex, |lex|) && Disambiguated(lex)[i].pron[t] == DisambigToken(k)
  {
    DisambiguatedShape(lex, i);
    if t < |lex[i].pron| {
      assert Disambiguated(lex)[i].pron[t] == lex[i].pron[t];
    }
  }

  // ---------------------------------------------------------------------------
  // The guarantee of the pass

  /** For entries `i != j` of the result: the pronunciations differ, and the
      one of `i` is not a proper prefix of the one of `j`. */
  lemma {:induction false} PairUnambiguous(lex: seq<Entry>, i: nat, j: nat)
    requires FirstEmptyPron(lex) == |lex| && NoDisambigTokens(lex)
    requires i < |lex| && j < |lex| && i != j
    ensures Disambiguated(lex)[i].pron != Disambiguated(lex)[j].pron
    ensures !IsProperPrefix(Disambiguated(lex)[i].pron, Disambiguated(lex)[j].pron)
  {
    var p, q := lex[i].pron, lex[j].pron;
    assert |p| > 0 && |q| > 0;
    var P, Q := Disambiguated(lex)[i].pron, Disambiguated(lex)[j].pron;
    var np, nq := NeedsDisambig(lex, p), NeedsDisambig(lex, q);
    // facts about the input pronunciations
    if p == q {
      CountAtLeastTwo(lex, i, j);
    }
    assert IsProperPrefix(p, q) ==> IsPrefixOfSome(lex, p);
    assert !IsDisambigSymbol(p[|p| - 1]) && !IsDisambigSymbol(q[|q| - 1]);
    assert |p| < |q| ==> !IsDisambigSymbol(q[|p|]);
    if |p| <= |q| {
      assert (q + [DisambigToken(Occurrence(lex, j))])[..|p|] == q[..|p|];
    }
    if np && nq {
      var a, b := DisambigToken(Occurrence(lex, i)), DisambigToken(Occurrence(lex, j));
      assert P[..|p|] == p && Q[..|q|] == q;
      assert P[|p|] == a && Q[|q|] == b;
      if p == q {
        if i < j { OccurrenceOrder(lex, i, j); } else { OccurrenceOrder(lex, j, i); }
        DisambigTokenInjective(Occurrence(lex, i), Occurrence(lex, j));
      }
    }
  }

  /** The guarantee needs inputs free of `#k` tokens: for `A a #1`, `B a`,
      `C a` the pronunciation `a` occurs twice, so `B` gets `#1` and its
      output equals the unchanged pronunciation of `A`. */
  lemma HashTokenInputCollides(lex: seq<Entry>)
    requires lex == [Entry("A", ["a", "#1"]), Entry("B", ["a"]), Entry("C", ["a"])]
    ensures FirstEmptyPron(lex) == |lex| && !NoDisambigTokens(lex)
    ensures Disambiguated(lex)[0].pron == Disambiguated(lex)[1].pron == ["a", "#1"]
  {
    var e0, e1 := lex[0], lex[1];
    var a, b := e0.pron, e1.pron;
    assert DisambigToken(1) == "#1" by {
      assert DecimalString(1) == "1";
    }
    assert IsDisambigSymbol(a[1]) by {
      assert a[1] == DisambigToken(1);
    }
    assert a != b by { assert |a| != |b|; }
    assert lex[..|lex| - 1] == [e0, e1] && [e0, e1][..1] == [e0];
    var none: seq<Entry> := [];
    assert Count(none, a) == 0 && Count(none, b) == 0;
    assert [e0][..0] == none && [e0][0].pron == a;
    assert Count([e0], a) == 1 && Count([e0], b) == 0;
    assert Count([e0, e1], a) == 1 && Count([e0, e1], b) == 1;
    assert Count(lex, a) == 1 && Count(lex, b) == 2;
    assert !IsPrefixOfSome(lex, a);
    assert lex[..2] == [e0, e1];
    assert Occurrence(lex, 1) == 1;
    assert Disambiguated(lex)[0] == DisambiguatedEntry(lex, 0) == e0;
    assert Disambiguated(lex)[1] == DisambiguatedEntry(lex, 1) == Entry("B", b + [DisambigToken(1)]);
  }

  /** After the pass all pronunciations are pairwise distinct and none is a
      proper prefix of another, provided every input pronunciation is
      non-empty (the pass fails otherwise) and no input token is already a
      `#k`. */
  lemma DisambiguatedIsPrefixFree(lex: seq<Entry>)
    requires FirstEmptyPron(lex) == |lex| && NoDisambigTokens(lex)
    ensures forall i, j :: 0 <= i < |lex| && 0 <= j < |lex| && i != j ==>
              Disambiguated(lex)[i].pron != Disambiguated(lex)[j].pron
              && !IsProperPrefix(Disambiguated(lex)[i].pron, Disambiguated(lex)[j].pron)
  {
    forall i, j | 0 <= i < |lex| && 0 <= j < |lex| && i != j
      ensures Disambiguated(lex)[i].pron != Disambiguated(lex)[j].pron
      ensures !IsProperPrefix(Disambiguated(lex)[i].pron, Disambiguated(lex)[j].pron)
    {
      PairUnambiguous(lex, i, j);
    }
  }
}
