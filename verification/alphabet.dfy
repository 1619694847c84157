/**
 * The alphabet of the codec: the ordered dictionary (digit value -> symbol)
 * and its inverse map (symbol -> digit value). The original keeps both in
 * package-level variables; here they travel together as one value.
 */
module Alphabets {
  import opened Positional

  /** The default dictionary: digits, then upper case, then lower case
      (written in short pieces so that the verifier can index into it). */
  const DefaultSymbols: string :=
    "0123456789" + "ABCDEFGHIJKLM" + "NOPQRSTUVWXYZ" + "abcdefghijklm" + "nopqrstuvwxyz"

  /** The dictionary and the map from each of its symbols to its position. */
  datatype Alphabet = Alphabet(symbols: string, valueOf: map<char, nat>)

  predicate IsAlphanumeric(c: char)
  {
    ('0' <= c <= '9') || ('A' <= c <= 'Z') || ('a' <= c <= 'z')
  }

  predicate Distinct(s: string)
  {
    forall i, j :: 0 <= i < j < |s| ==> s[i] != s[j]
  }

  /** `m` maps exactly the symbols of `syms`, each to its position. */
  predicate IsInverse(syms: string, m: map<char, nat>)
  {
    && m.Keys == (set c | c in syms)
    && forall k :: 0 <= k < |syms| ==> syms[k] in m && m[syms[k]] == k
  }

  /** The invariant every alphabet the program can hold satisfies: 62
      alphanumeric symbols and a consistent inverse map. */
  predicate WellFormed(a: Alphabet)
  {
    && |a.symbols| == Base
    && IsInverse(a.symbols, a.valueOf)
    && forall k :: 0 <= k < |a.symbols| ==> IsAlphanumeric(a.symbols[k])
  }

  /** The map built by walking the dictionary and recording each symbol's
      position, a later position overwriting an earlier one. The result maps
      every symbol back to a position holding that symbol, so it inverts a
      dictionary without duplicates. */
  function IndexOf(syms: string): (m: map<char, nat>)
    ensures m.Keys == (set c | c in syms)
    ensures forall c :: c in m ==> m[c] < |syms| && syms[m[c]] == c
    ensures Distinct(syms) ==> IsInverse(syms, m)
  {
    if syms == [] then map[]
    else
      var last := |syms| - 1;
      IndexOf(syms[..last])[syms[last] := last]
  }

  /** The symbol of digit value `k` in the default dictionary. */
  function DefaultSymbol(k: nat): (c: char)
    requires k < Base
    ensures IsAlphanumeric(c)
  {
    if k < 10 then ('0' as int + k) as char
    else if k < 36 then ('A' as int + (k - 10)) as char
    else ('a' as int + (k - 36)) as char
  }

  /** The default dictionary is the strictly ascending run of the 62
      alphanumeric characters, hence free of duplicates. */
  lemma DefaultSymbolsAscending()
    ensures |DefaultSymbols| == Base
    ensures forall k :: 0 <= k < Base ==> DefaultSymbols[k] == DefaultSymbol(k)
    ensures Distinct(DefaultSymbols)
  {
  }

  /** The alphabet installed at start-up: the digits, the upper-case and
      the lower-case letters, each run in ascending order, and the map from
      each of these symbols to its position. */
  function Default(): (a: Alphabet)
    ensures WellFormed(a)
    ensures forall k :: 0 <= k < Base ==> a.symbols[k] == DefaultSymbol(k)
    ensures forall k :: 0 <= k < Base ==> a.valueOf[DefaultSymbol(k)] == k
  {
    DefaultSymbolsAscending();
    Alphabet(DefaultSymbols, IndexOf(DefaultSymbols))
  }
}
