/** Shared vocabulary of the lexicon compiler: tokens, lexicon entries, the
    errors the compiler raises, and the `defaultdict(int)` lookup its counters use. */
module Lexicon {

  /** A sub-word unit (a BPE piece or a phone), as a string. */
  type Token = string

  /** A word of the word symbol table. */
  type Word = string

  /** A pronunciation: the ordered token sequence of one lexicon entry. */
  type Pron = seq<Token>

  /** One lexicon line: a word and its pronunciation. Words may repeat. */
  datatype Entry = Entry(word: Word, pron: Pron)

  /** Which symbol table a lookup went to. */
  datatype Table = TokenTable | WordTable

  /** The ways a compilation aborts. */
  datatype Error =
    | EmptyPronunciation(word: Word)                // an entry without tokens
    | MissingSymbol(table: Table, symbol: string)   // a lookup of an absent key
    | ReservedIdMismatch(table: Table, symbol: string) // `<unk>` or `<eps>` not mapped to 0

  datatype Result<T> = Ok(value: T) | Err(error: Error)

  /** Reading a `defaultdict(int)`: an absent key reads as 0. */
  function GetOrZero<K>(m: map<K, nat>, k: K): nat
  {
    if k in m then m[k] else 0
  }
}
