/** `generate_id_map`: `{sym: i for i, sym in enumerate(symbols)}`. */
module IdMap {

  /** Later positions overwrite earlier ones, as in the dict comprehension,
      so every symbol maps to the position of its last occurrence. */
  function GenerateIdMap(symbols: seq<string>): (m: map<string, int>)
    ensures forall s :: s in m <==> s in symbols
    ensures forall s :: s in m ==>
              0 <= m[s] < |symbols| && symbols[m[s]] == s
              && forall j :: m[s] < j < |symbols| ==> symbols[j] != s
  {
    if |symbols| == 0 then map[]
    else
      var prev := symbols[..|symbols| - 1];
      assert symbols == prev + [symbols[|symbols| - 1]];
      GenerateIdMap(prev)[symbols[|symbols| - 1] := |symbols| - 1]
  }

  predicate Distinct(symbols: seq<string>) {
    forall i, j :: 0 <= i < j < |symbols| ==> symbols[i] != symbols[j]
  }

  /** For a list of unique symbols the map is the inverse of the enumeration:
      each symbol gets its own position, and different symbols different ids. */
  lemma IdMapOfDistinct(symbols: seq<string>)
    requires Distinct(symbols)
    ensures forall i :: 0 <= i < |symbols| ==> GenerateIdMap(symbols)[symbols[i]] == i
    ensures forall a, b :: a in GenerateIdMap(symbols) && b in GenerateIdMap(symbols) && a != b ==>
              GenerateIdMap(symbols)[a] != GenerateIdMap(symbols)[b]
  {
    var m := GenerateIdMap(symbols);
    forall i | 0 <= i < |symbols|
      ensures m[symbols[i]] == i
    {
      assert symbols[i] in m;
      var k := m[symbols[i]];
      assert symbols[k] == symbols[i];
    }
  }
}
