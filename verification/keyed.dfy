/**
 * The keyed alphabet: a permutation of the current dictionary derived from
 * the hex digest of a pass key. Each dictionary symbol is paired with the
 * digest character at its position, the pairs are sorted by that character,
 * and the new dictionary lists the symbols in sorted order.
 *
 * The digest itself is an input here: callers pass the lowercase hex text of
 * the SHA-256 digest of the key, and that of the SHA-512 digest used when
 * the former is shorter than the dictionary.
 */
module Keyed {
  import opened Positional
  import opened Alphabets
  import Codec

  /** A dictionary symbol and the digest character that orders it. */
  datatype Item = Item(shaKey: char, key: char)

  /** The sort order: by digest character alone. */
  predicate Less(x: Item, y: Item)
  {
    x.shaKey < y.shaKey
  }

  /** `Less` is a strict weak order, as the sort requires: irreflexive,
      transitive, and with incomparability (equal digest characters)
      transitive too. */
  lemma LessIsStrictWeakOrder(x: Item, y: Item, z: Item)
    ensures !Less(x, x)
    ensures Less(x, y) && Less(y, z) ==> Less(x, z)
    ensures !Less(x, y) && !Less(y, x) && !Less(y, z) && !Less(z, y) ==> !Less(x, z) && !Less(z, x)
  {
  }

  predicate Sorted(items: seq<Item>)
  {
    forall i, j :: 0 <= i < j < |items| ==> !Less(items[j], items[i])
  }

  /** The symbols of a sequence of items, in order. */
  function Keys(items: seq<Item>): (s: string)
    ensures |s| == |items|
  {
    if items == [] then [] else [items[0].key] + Keys(items[1..])
  }

  lemma {:induction false} KeysAt(items: seq<Item>)
    ensures forall i :: 0 <= i < |items| ==> Keys(items)[i] == items[i].key
  {
    if items != [] {
      KeysAt(items[1..]);
    }
  }

  /** Inserting one item before the first item that is not less than it. */
  function Insert(x: Item, s: seq<Item>): (r: seq<Item>)
    ensures multiset(r) == multiset(s) + multiset{x}
  {
    if s == [] then [x]
    else if Less(s[0], x) then
      assert s == [s[0]] + s[1..];
      [s[0]] + Insert(x, s[1..])
    else
      [x] + s
  }

  /** Inserting into a sorted sequence keeps it sorted. */
  lemma {:induction false} InsertSorted(x: Item, s: seq<Item>)
    requires Sorted(s)
    ensures Sorted(Insert(x, s))
  {
    if s != [] && Less(s[0], x) {
      var rest := Insert(x, s[1..]);
      InsertSorted(x, s[1..]);
      forall i | 0 <= i < |rest| ensures !Less(rest[i], s[0]) {
        assert rest[i] in multiset(s[1..]) + multiset{x};
        if rest[i] != x {
          assert rest[i] in s[1..];
        }
      }
    }
  }

  /** The symbols of a sequence with one item in front. */
  lemma KeysCons(x: Item, s: seq<Item>)
    ensures Keys([x] + s) == [x.key] + Keys(s)
  {
    assert ([x] + s)[1..] == s;
  }

  /** Inserting an item adds its symbol to the symbols. */
  lemma {:induction false} InsertKeys(x: Item, s: seq<Item>)
    ensures multiset(Keys(Insert(x, s))) == multiset(Keys(s)) + multiset{x.key}
  {
    if s == [] {
      KeysCons(x, s);
    } else if Less(s[0], x) {
      InsertKeys(x, s[1..]);
      InsertKeysPast(x, s);
    } else {
      KeysCons(x, s);
    }
  }

  /** The step of `InsertKeys` where the item goes past the head. */
  lemma InsertKeysPast(x: Item, s: seq<Item>)
    requires s != [] && Less(s[0], x)
    requires multiset(Keys(Insert(x, s[1..]))) == multiset(Keys(s[1..])) + multiset{x.key}
    ensures multiset(Keys(Insert(x, s))) == multiset(Keys(s)) + multiset{x.key}
  {
    var rest := Insert(x, s[1..]);
    KeysCons(s[0], rest);
    calc {
      multiset(Keys(Insert(x, s)));
      multiset([s[0].key] + Keys(rest));
      multiset{s[0].key} + multiset(Keys(rest));
      multiset{s[0].key} + multiset(Keys(s[1..])) + multiset{x.key};
      multiset([s[0].key] + Keys(s[1..])) + multiset{x.key};
    }
  }

  /** A sort by digest character. The order among items with equal digest
      characters is this function's own choice; nothing below depends on
      it. */
  function SortItems(s: seq<Item>): (r: seq<Item>)
    ensures Sorted(r)
    ensures multiset(r) == multiset(s)
  {
    if s == [] then []
    else
      assert s == [s[0]] + s[1..];
      InsertSorted(s[0], SortItems(s[1..]));
      Insert(s[0], SortItems(s[1..]))
  }

  /** Sorting moves the symbols without adding or losing any. */
  lemma {:induction false} SortKeys(s: seq<Item>)
    ensures multiset(Keys(SortItems(s))) == multiset(Keys(s))
  {
    if s != [] {
      SortKeys(s[1..]);
      InsertKeys(s[0], SortItems(s[1..]));
      assert Keys(s) == [s[0].key] + Keys(s[1..]);
    }
  }

  /** The digest text the derivation uses: the SHA-256 hex text, unless it
      is shorter than the dictionary, in which case the SHA-512 hex text. */
  function ChooseDigest(sha256Hex: string, sha512Hex: string, n: nat): (hex: string)
    requires |sha256Hex| >= n || |sha512Hex| >= n
    ensures |hex| >= n
    ensures |sha256Hex| >= n ==> hex == sha256Hex
    ensures |sha256Hex| < n ==> hex == sha512Hex
  {
    if |sha256Hex| < n then sha512Hex else sha256Hex
  }

  /** The k-th dictionary symbol paired with the k-th digest character. */
  function Pair(hex: string, dict: string): (items: seq<Item>)
    requires |hex| >= |dict|
    ensures |items| == |dict|
    ensures forall k :: 0 <= k < |dict| ==> items[k] == Item(hex[k], dict[k])
  {
    if dict == [] then [] else [Item(hex[0], dict[0])] + Pair(hex[1..], dict[1..])
  }

  /** A rearrangement of a duplicate-free sequence is duplicate-free. */
  lemma PermutationDistinct(s: string, t: string)
    requires Distinct(s) && multiset(s) == multiset(t)
    ensures Distinct(t)
  {
    forall i, j | 0 <= i < j < |t| ensures t[i] != t[j] {
      if t[i] == t[j] {
        assert t == t[..j] + [t[j]] + t[j + 1..];
        assert t[i] in multiset(t[..j]);
        assert multiset(t)[t[i]] >= 2;
        DistinctOnce(s, t[i]);
        assert false;
      }
    }
  }

  /** Each character occurs at most once in a duplicate-free sequence. */
  lemma {:induction false} DistinctOnce(s: string, c: char)
    requires Distinct(s)
    ensures multiset(s)[c] <= 1
  {
    if s != [] {
      var p := s[..|s| - 1];
      assert s == p + [s[|s| - 1]];
      assert Distinct(p);
      DistinctOnce(p, c);
      assert s[|s| - 1] !in p;
    }
  }

  /** The dictionary symbols listed in order of the digest characters they
      are paired with. */
  function SortedSymbols(a: Alphabet, hex: string): string
    requires |hex| >= |a.symbols|
  {
    Keys(SortItems(Pair(hex[..|a.symbols|], a.symbols)))
  }

  /** The symbols of the paired items are the dictionary itself. */
  lemma PairKeys(hex: string, dict: string)
    requires |hex| >= |dict|
    ensures Keys(Pair(hex, dict)) == dict
  {
    KeysAt(Pair(hex, dict));
  }

  /** A rearrangement of alphanumeric characters is alphanumeric. */
  lemma PermutationAlphanumeric(s: string, t: string)
    requires multiset(s) == multiset(t)
    requires forall i :: 0 <= i < |s| ==> IsAlphanumeric(s[i])
    ensures forall i :: 0 <= i < |t| ==> IsAlphanumeric(t[i])
  {
    forall i | 0 <= i < |t| ensures IsAlphanumeric(t[i]) {
      assert t[i] in multiset(s);
      var k :| 0 <= k < |s| && s[k] == t[i];
    }
  }

  lemma SortedSymbolsMultiset(a: Alphabet, hex: string)
    requires |hex| >= |a.symbols|
    ensures multiset(SortedSymbols(a, hex)) == multiset(a.symbols)
  {
    var items := Pair(hex[..|a.symbols|], a.symbols);
    PairKeys(hex[..|a.symbols|], a.symbols);
    SortKeys(items);
  }

  /** The sorted symbols are a rearrangement of the dictionary. */
  lemma SortedSymbolsPermute(a: Alphabet, hex: string)
    requires WellFormed(a) && |hex| >= Base
    ensures multiset(SortedSymbols(a, hex)) == multiset(a.symbols)
    ensures |SortedSymbols(a, hex)| == Base
    ensures Distinct(SortedSymbols(a, hex))
    ensures forall i :: 0 <= i < Base ==> IsAlphanumeric(SortedSymbols(a, hex)[i])
  {
    var syms := SortedSymbols(a, hex);
    SortedSymbolsMultiset(a, hex);
    assert |syms| == Base by {
      assert |multiset(syms)| == |multiset(a.symbols)|;
    }
    PermutationDistinct(a.symbols, syms);
    PermutationAlphanumeric(a.symbols, syms);
  }

  /** Each sorted symbol sits at some original position of the dictionary,
      and the digest character at that position is the one it was sorted
      by. */
  lemma SortedSymbolOrigin(a: Alphabet, hex: string, i: nat)
    requires WellFormed(a) && |hex| >= Base
    requires i < |SortItems(Pair(hex[..Base], a.symbols))|
    ensures SortedSymbols(a, hex)[i] in a.valueOf
    ensures hex[a.valueOf[SortedSymbols(a, hex)[i]]] == SortItems(Pair(hex[..Base], a.symbols))[i].shaKey
  {
    var items := Pair(hex[..Base], a.symbols);
    var sorted := SortItems(items);
    KeysAt(sorted);
    assert sorted[i] in multiset(items);
    var k :| 0 <= k < |items| && items[k] == sorted[i];
    assert a.valueOf[a.symbols[k]] == k;
  }

  /** Along the sorted symbols, the digest characters at their original
      positions never decrease. */
  lemma SortedSymbolsOrdered(a: Alphabet, hex: string)
    requires WellFormed(a) && |hex| >= Base
    ensures forall i :: 0 <= i < |SortedSymbols(a, hex)| ==> SortedSymbols(a, hex)[i] in a.valueOf
    ensures forall i, j :: 0 <= i < j < |SortedSymbols(a, hex)| ==>
      hex[a.valueOf[SortedSymbols(a, hex)[i]]] <= hex[a.valueOf[SortedSymbols(a, hex)[j]]]
  {
    var sorted := SortItems(Pair(hex[..Base], a.symbols));
    var syms := SortedSymbols(a, hex);
    forall i | 0 <= i < |syms|
      ensures syms[i] in a.valueOf && hex[a.valueOf[syms[i]]] == sorted[i].shaKey
    {
      SortedSymbolOrigin(a, hex, i);
    }
  }

  /** The keyed derivation. The result is a well-formed alphabet holding the
      same symbols as `a` in a new order, along which the digest characters
      originally paired with the symbols never decrease. */
  function EncDictionary(a: Alphabet, sha256Hex: string, sha512Hex: string): (b: Alphabet)
    requires WellFormed(a)
    requires |sha256Hex| >= Base || |sha512Hex| >= Base
    ensures WellFormed(b)
    ensures multiset(b.symbols) == multiset(a.symbols)
    ensures forall i :: 0 <= i < |b.symbols| ==> b.symbols[i] in a.valueOf
    ensures var hex := ChooseDigest(sha256Hex, sha512Hex, Base);
      forall i, j :: 0 <= i < j < |b.symbols| ==>
        hex[a.valueOf[b.symbols[i]]] <= hex[a.valueOf[b.symbols[j]]]
  {
    var hex := ChooseDigest(sha256Hex, sha512Hex, Base);
    var syms := SortedSymbols(a, hex);
    SortedSymbolsPermute(a, hex);
    SortedSymbolsOrdered(a, hex);
    assert IsInverse(syms, IndexOf(syms));
    Alphabet(syms, IndexOf(syms))
  }

  /** Replacing the alphabet with the keyed one: afterwards every number
      still decodes back from its encoding. */
  function Init(a: Alphabet, sha256Hex: string, sha512Hex: string): (b: Alphabet)
    requires WellFormed(a)
    requires |sha256Hex| >= Base || |sha512Hex| >= Base
    ensures WellFormed(b)
    ensures forall n: nat :: Codec.DecodeInt(b, Codec.EncodeInt(b, n)) == Codec.Ok(n)
  {
    var b := EncDictionary(a, sha256Hex, sha512Hex);
    forall n: nat ensures Codec.DecodeInt(b, Codec.EncodeInt(b, n)) == Codec.Ok(n) {
      Codec.RoundTripInt(b, n);
    }
    b
  }
}
