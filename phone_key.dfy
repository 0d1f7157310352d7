/** The string key the disambiguation pass uses for a pronunciation: its tokens
    joined by single spaces (`" ".join(prons)`), and Python's argument-less
    `str.split()`, which turns a key with an appended `#k` back into tokens.
    The model keys its counters by the token sequence itself; SplitJoin shows
    that this loses nothing as long as every token is non-empty and free of
    whitespace, because then the join is injective. */
module PhoneKey {
  import opened Lexicon

  /** The characters for which Python's `str.isspace()` holds; `str.split()`
      with no argument breaks a string at runs of them. */
  predicate IsWhitespace(c: char) {
    c == ' ' || ('\U{9}' <= c <= '\U{D}') || ('\U{1C}' <= c <= '\U{1F}')
    || c == '\U{85}' || c == '\U{A0}' || c == '\U{1680}'
    || ('\U{2000}' <= c <= '\U{200A}') || c == '\U{2028}' || c == '\U{2029}'
    || c == '\U{202F}' || c == '\U{205F}' || c == '\U{3000}'
  }

  /** A token that survives a join followed by a split unchanged. */
  predicate ValidToken(t: Token) {
    |t| > 0 && forall i :: 0 <= i < |t| ==> !IsWhitespace(t[i])
  }

  predicate ValidPron(p: Pron) {
    forall i :: 0 <= i < |p| ==> ValidToken(p[i])
  }

  /** `" ".join(p)` */
  function Join(p: Pron): string {
    if |p| == 0 then ""
    else if |p| == 1 then p[0]
    else p[0] + " " + Join(p[1..])
  }

  /** The longest whitespace-free prefix of `s`. */
  function LeadingWord(s: string): (w: string)
    ensures |w| <= |s| && w == s[..|w|]
    ensures forall i :: 0 <= i < |w| ==> !IsWhitespace(w[i])
    ensures |s| > 0 && !IsWhitespace(s[0]) ==> |w| > 0
  {
    if |s| == 0 || IsWhitespace(s[0]) then "" else [s[0]] + LeadingWord(s[1..])
  }

  /** Python's `s.split()`: the maximal whitespace-free runs of `s`, in order. */
  function Split(s: string): (r: seq<string>)
    ensures forall i :: 0 <= i < |r| ==> ValidToken(r[i])
    decreases |s|
  {
    if |s| == 0 then []
    else if IsWhitespace(s[0]) then Split(s[1..])
    else
      var w := LeadingWord(s);
      [w] + Split(s[|w|..])
  }

  lemma {:induction false} LeadingWordOfToken(t: Token, rest: string)
    requires ValidToken(t)
    requires |rest| == 0 || IsWhitespace(rest[0])
    ensures LeadingWord(t + rest) == t
    decreases |t|
  {
    var s := t + rest;
    if |t| > 1 {
      assert s[1..] == t[1..] + rest;
      LeadingWordOfToken(t[1..], rest);
    } else {
      assert s[1..] == rest;
    }
  }

  /** Splitting a joined key gives back the tokens: the join is injective on valid pronunciations. */
  lemma {:induction false} SplitJoin(p: Pron)
    requires ValidPron(p)
    ensures Split(Join(p)) == p
    decreases |p|
  {
    if |p| == 1 {
      LeadingWordOfToken(p[0], "");
      assert p[0] + "" == p[0];
      assert Join(p)[|p[0]|..] == "";
    } else if |p| > 1 {
      var rest := Join(p[1..]);
      var s := p[0] + " " + rest;
      assert s == p[0] + (" " + rest);
      LeadingWordOfToken(p[0], " " + rest);
      assert s[|p[0]|..] == " " + rest;
      assert (" " + rest)[1..] == rest;
      SplitJoin(p[1..]);
      assert [p[0]] + p[1..] == p;
    }
  }

  /** Two valid pronunciations share a key exactly when they are equal. */
  lemma JoinInjective(p: Pron, q: Pron)
    requires ValidPron(p) && ValidPron(q)
    ensures Join(p) == Join(q) <==> p == q
  {
    SplitJoin(p);
    SplitJoin(q);
  }

  /** The key of a valid pronunciation is empty exactly when it has no tokens. */
  lemma {:induction false} JoinEmpty(p: Pron)
    requires ValidPron(p)
    ensures Join(p) == "" <==> |p| == 0
  {
    if |p| > 1 {
      assert |Join(p)| >= |p[0]|;
    }
  }

  lemma {:induction false} JoinAppend(p: Pron, t: Token)
    requires |p| > 0
    ensures Join(p) + " " + t == Join(p + [t])
    decreases |p|
  {
    if |p| > 1 {
      assert (p + [t])[1..] == p[1..] + [t];
      JoinAppend(p[1..], t);
    }
  }

  /** Appending `" #k"` to a key and splitting it, as the disambiguation pass
      does, appends one token to the pronunciation. */
  lemma AppendedKeySplits(p: Pron, t: Token)
    requires ValidPron(p) && |p| > 0 && ValidToken(t)
    ensures Split(Join(p) + " " + t) == p + [t]
  {
    JoinAppend(p, t);
    SplitJoin(p + [t]);
  }
}
