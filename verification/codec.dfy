/**
 * The base-62 codec: natural numbers to digit strings over an alphabet and
 * back, and the decimal-text entry points built on top. Digit strings carry
 * the most significant digit first; the encoder collects digits least
 * significant first and reverses once at the end, and the decoder reverses
 * its input before summing digit values times powers of the base.
 */
module Codec {
  import opened Positional
  import opened Alphabets
  import opened Validation
  import opened Decimal

  datatype Error =
    | NotNumeric      // Encode: the input is not a decimal number
    | NotPrintable    // DecodeInt: a character is not printable ASCII, or is punctuation
    | UnmappedSymbol  // DecodeInt: a printable character that is not in the alphabet

  datatype Result<T> = Ok(value: T) | Err(error: Error)

  function Reverse<T>(s: seq<T>): (r: seq<T>)
    ensures |r| == |s|
    ensures forall i :: 0 <= i < |s| ==> r[i] == s[|s| - 1 - i]
  {
    if s == [] then [] else Reverse(s[1..]) + [s[0]]
  }

  /** Concatenation is associative. */
  lemma AppendAssoc<T>(r: seq<T>, s: seq<T>, t: seq<T>)
    ensures r + s + t == r + (s + t)
  {
  }

  /** The reversal done by swapping the two ends and moving inwards. */
  method ReverseSwap(bs: seq<char>) returns (r: seq<char>)
    ensures r == Reverse(bs)
  {
    r := bs;
    var i, j := 0, |bs| - 1;
    while i < j
      invariant 0 <= i <= j + 1 <= |bs|
      invariant j == |bs| - 1 - i
      invariant |r| == |bs|
      invariant forall k :: 0 <= k < i || j < k < |bs| ==> r[k] == bs[|bs| - 1 - k]
      invariant forall k :: i <= k <= j ==> r[k] == bs[k]
    {
      r := r[i := r[j]][j := r[i]];
      i, j := i + 1, j - 1;
    }
    assert r == Reverse(bs);
  }

  /** The symbols standing for a sequence of digit values. */
  function Symbols(a: Alphabet, ds: seq<nat>): (s: string)
    requires forall i :: 0 <= i < |ds| ==> ds[i] < |a.symbols|
    ensures |s| == |ds|
  {
    if ds == [] then [] else [a.symbols[ds[0]]] + Symbols(a, ds[1..])
  }

  lemma {:induction false} SymbolsAt(a: Alphabet, ds: seq<nat>)
    requires forall i :: 0 <= i < |ds| ==> ds[i] < |a.symbols|
    ensures forall i :: 0 <= i < |ds| ==> Symbols(a, ds)[i] == a.symbols[ds[i]]
  {
    if ds != [] {
      SymbolsAt(a, ds[1..]);
    }
  }

  /** The digit values of a sequence of mapped symbols. */
  function Values(a: Alphabet, s: string): (ds: seq<nat>)
    requires forall i :: 0 <= i < |s| ==> s[i] in a.valueOf
    ensures |ds| == |s|
  {
    if s == [] then [] else [a.valueOf[s[0]]] + Values(a, s[1..])
  }

  lemma {:induction false} ValuesAt(a: Alphabet, s: string)
    requires forall i :: 0 <= i < |s| ==> s[i] in a.valueOf
    ensures forall i :: 0 <= i < |s| ==> Values(a, s)[i] == a.valueOf[s[i]]
  {
    if s != [] {
      ValuesAt(a, s[1..]);
    }
  }

  predicate AllMapped(a: Alphabet, s: string)
  {
    forall i :: 0 <= i < |s| ==> s[i] in a.valueOf
  }

  /** The value of a digit string read most significant digit first
      (Horner's rule): the reference the decoder is proved against. */
  function MsbValue(a: Alphabet, s: string): nat
    requires AllMapped(a, s)
  {
    if s == [] then 0
    else MsbValue(a, s[..|s| - 1]) * Base + a.valueOf[s[|s| - 1]]
  }

  /** The decoder's sum: the value of the character at position `i` times
      `Base^i`, accumulated in order of `i`. */
  function WeightedSum(a: Alphabet, t: string): nat
    requires AllMapped(a, t)
  {
    if t == [] then 0
    else WeightedSum(a, t[..|t| - 1]) + Power(|t| - 1) * a.valueOf[t[|t| - 1]]
  }

  /** The digit string of `n`: its base-62 digits, least significant first,
      turned into symbols and reversed. Zero has no digits and so encodes to
      the empty string. */
  function EncodeInt(a: Alphabet, n: nat): (s: string)
    requires WellFormed(a)
    ensures AllMapped(a, s)
    ensures s == [] <==> n == 0
    ensures s != [] ==> s[0] != a.symbols[0]
  {
    var ds := LsbDigits(n);
    EncodedSymbols(a, ds);
    Reverse(Symbols(a, ds))
  }

  /** The reversed symbols of base-62 digits are all in the alphabet, and
      when the most significant digit is not zero the first of them is not
      the zero symbol. */
  lemma {:induction false} EncodedSymbols(a: Alphabet, ds: seq<nat>)
    requires WellFormed(a)
    requires forall i :: 0 <= i < |ds| ==> ds[i] < Base
    ensures AllMapped(a, Reverse(Symbols(a, ds)))
    ensures ds != [] && ds[|ds| - 1] != 0 ==> Reverse(Symbols(a, ds))[0] != a.symbols[0]
  {
    var t := Symbols(a, ds);
    SymbolsAt(a, ds);
    assert AllMapped(a, t);
    ReverseMapped(a, t);
    if ds != [] {
      assert a.valueOf[a.symbols[ds[|ds| - 1]]] == ds[|ds| - 1];
      assert a.valueOf[a.symbols[0]] == 0;
    }
  }

  /** One step of the digit extraction. When the working value is
      `q * c` with `c = Base^(k-1)`, its remainder modulo `Base * c = Base^k`
      is the lowest digit of `q` times `c`, so dividing that remainder by `c`
      yields a digit below the base; subtracting the remainder leaves
      `q / Base` times `Base^k`. */
  lemma ExtractDigit(q: nat, c: nat)
    requires c >= 1
    ensures (q * c) % (Base * c) == (q % Base) * c
    ensures (q * c) % (Base * c) <= q * c
    ensures (q % Base) * c / c == q % Base
    ensures q * c - (q * c) % (Base * c) == (q / Base) * (Base * c)
  {
    var q1, q0 := q / Base, q % Base;
    assert q * c == q1 * (Base * c) + q0 * c by {
      assert q == q1 * Base + q0;
      calc {
        q * c;
        (q1 * Base + q0) * c;
        q1 * (Base * c) + q0 * c;
      }
    }
    MulMonotone(q0, Base - 1, c);
    DivModUnique(q * c, Base * c, q1, q0 * c);
    DivModUnique(q0 * c, c, q0, 0);
  }

  /** One pass of the digit extraction loop in its own terms: working value
      `r = q * Base^(e-1)`, remainder `b` modulo `Base^e`, digit `d` the
      remainder divided by `Base^(e-1)`. The digit is the lowest digit of
      `q`, so it is below the base, and what is left of the working value is
      `q / Base` times the next power. */
  lemma ExtractStep(r: nat, q: nat, e: nat, b: int, d: int)
    requires e >= 1 && r == q * Power(e - 1) && r != 0
    requires b == r % Power(e) && d == b / Power(e - 1)
    ensures q != 0 && q / Base < q
    ensures d == q % Base && 0 <= d < Base
    ensures 0 <= b <= r && r - b == (q / Base) * Power(e)
  {
    var c := Power(e - 1);
    assert Power(e) == Base * c;
    ExtractDigit(q, c);
  }

  /** The symbols of the digits of a positive `q` start with the symbol of
      its lowest digit. */
  lemma EmitStep(a: Alphabet, q: nat)
    requires |a.symbols| == Base && q != 0
    ensures Symbols(a, LsbDigits(q)) == [a.symbols[q % Base]] + Symbols(a, LsbDigits(q / Base))
  {
    assert LsbDigits(q)[1..] == LsbDigits(q / Base);
  }

  /** The digit extraction loop: it divides the remainder of the working
      value modulo `Base^k` by `Base^(k-1)` to get the k-th digit, subtracts
      that remainder, and stops when the working value reaches zero, which
      it returns as `rest`. Every extracted digit is below the base, so it
      always indexes the dictionary. */
  method EncodeLoop(a: Alphabet, n: nat) returns (s: string, rest: nat)
    requires WellFormed(a)
    ensures s == EncodeInt(a, n)
    ensures rest == 0
  {
    var result: string := [];
    var remaining: nat := n;
    var exponent: nat := 1;
    ghost var q: nat := n;
    while remaining != 0
      invariant exponent >= 1
      invariant remaining == q * Power(exponent - 1)
      invariant result + Symbols(a, LsbDigits(q)) == Symbols(a, LsbDigits(n))
      decreases q
    {
      var p := Power(exponent);
      var b := remaining % p;
      var c := Power(exponent - 1);
      var d := b / c;
      ExtractStep(remaining, q, exponent, b, d);
      EmitStep(a, q);
      AppendAssoc(result, [a.symbols[d]], Symbols(a, LsbDigits(q / Base)));
      result := result + [a.symbols[d]];
      remaining := remaining - b;
      exponent := exponent + 1;
      q := q / Base;
    }
    ZeroProduct(q, Power(exponent - 1));
    assert result == Symbols(a, LsbDigits(n));
    s := ReverseSwap(result);
    rest := remaining;
  }

  /** On a negative working value the original's loop cannot stop: the
      remainder of the arbitrary-precision library is Euclidean, so it is
      never negative, and subtracting it leaves the value negative again. */
  lemma NegativeNeverZero(r: int, e: nat)
    requires r < 0
    ensures 0 <= r % Power(e) < Power(e)
    ensures r - r % Power(e) <= r < 0
  {
  }

  /** The decimal entry point: decimal text in, digit string out. Text with a
      non-digit character is refused before any arithmetic. */
  function Encode(a: Alphabet, s: string): (r: Result<string>)
    requires WellFormed(a)
    ensures r.Err? <==> exists i :: 0 <= i < |s| && !IsAsciiDigit(s[i])
    ensures r.Err? ==> r.error == NotNumeric
    ensures r.Ok? ==> AllDigits(s) && r.value == EncodeInt(a, ParseDecimal(s))
  {
    if !IsValidNumeric(s) then Err(NotNumeric)
    else Ok(EncodeInt(a, ParseDecimal(s)))
  }

  /** The integer decoder. A character outside printable non-punctuation
      ASCII is refused before any arithmetic; a printable character outside
      the alphabet has no digit value; otherwise the result is the value of
      the digit string read most significant digit first. */
  function DecodeInt(a: Alphabet, s: string): (r: Result<nat>)
    ensures r == Err(NotPrintable) <==> exists i :: 0 <= i < |s| && !PrintableChar(s[i])
    ensures r.Ok? <==> IsAsciiPrintable(s) && AllMapped(a, s)
    ensures IsAsciiPrintable(s) && !AllMapped(a, s) ==> r == Err(UnmappedSymbol)
    ensures r.Ok? ==> r.value == MsbValue(a, s)
  {
    if !IsAsciiPrintable(s) then Err(NotPrintable)
    else if !AllMapped(a, s) then Err(UnmappedSymbol)
    else
      var t := Reverse(s);
      assert AllMapped(a, t) by {
        assert forall i :: 0 <= i < |t| ==> t[i] == s[|s| - 1 - i];
      }
      WeightedSumIsMsbValue(a, s);
      Ok(WeightedSum(a, t))
  }

  /** The decimal-text decoder: the same refusals as `DecodeInt`, and on
      success the canonical decimal text of the decoded number. */
  function Decode(a: Alphabet, s: string): (r: Result<string>)
    ensures r.Err? <==> DecodeInt(a, s).Err?
    ensures r.Err? ==> r.error == DecodeInt(a, s).error
    ensures r.Ok? ==> IsCanonicalDecimal(r.value) && ParseDecimal(r.value) == DecodeInt(a, s).value
  {
    match DecodeInt(a, s)
    case Err(e) => Err(e)
    case Ok(v) =>
      ParseDecimalString(v);
      Ok(DecimalString(v))
  }

  /** Extending the decoded prefix by one character adds that character's
      value times `Base` to the power of its position. */
  lemma WeightedSumStep(a: Alphabet, t: string, i: nat)
    requires i < |t| && AllMapped(a, t[..i]) && t[i] in a.valueOf
    ensures AllMapped(a, t[..i + 1])
    ensures WeightedSum(a, t[..i + 1]) == WeightedSum(a, t[..i]) + Power(i) * a.valueOf[t[i]]
  {
    var q := t[..i + 1];
    assert q[..|q| - 1] == t[..i];
    assert q[|q| - 1] == t[i];
  }

  /** The summation loop over the reversed digit string: one multiply-and-add
      per character with the exponent counting up from zero, stopping at the
      first character the alphabet does not map. */
  method SumLoop(a: Alphabet, chars: string) returns (r: Result<nat>)
    ensures r.Ok? <==> AllMapped(a, chars)
    ensures r.Err? ==> r.error == UnmappedSymbol
    ensures r.Ok? ==> r.value == WeightedSum(a, chars)
  {
    var bi: nat := 0;
    var exponent: nat := 0;
    while exponent < |chars|
      invariant exponent <= |chars|
      invariant AllMapped(a, chars[..exponent])
      invariant bi == WeightedSum(a, chars[..exponent])
    {
      var c := chars[exponent];
      if c !in a.valueOf {
        return Err(UnmappedSymbol);
      }
      var intermed := Power(exponent);
      WeightedSumStep(a, chars, exponent);
      bi := bi + intermed * a.valueOf[c];
      exponent := exponent + 1;
    }
    assert chars[..exponent] == chars;
    return Ok(bi);
  }

  /** The integer decoder as the source runs it: validation, reversal, then
      the summation loop. */
  method DecodeLoop(a: Alphabet, s: string) returns (r: Result<nat>)
    ensures r == DecodeInt(a, s)
  {
    if !IsAsciiPrintable(s) {
      return Err(NotPrintable);
    }
    var chars := ReverseSwap(s);
    ReverseMapped(a, s);
    r := SumLoop(a, chars);
    if r.Ok? {
      WeightedSumIsMsbValue(a, s);
    }
  }

  /** A string and its reversal hold the same characters. */
  lemma ReverseMapped(a: Alphabet, s: string)
    ensures AllMapped(a, Reverse(s)) <==> AllMapped(a, s)
  {
    var t := Reverse(s);
    if AllMapped(a, s) {
      forall i | 0 <= i < |t| ensures t[i] in a.valueOf {
        assert t[i] == s[|s| - 1 - i];
      }
    }
    if AllMapped(a, t) {
      forall i | 0 <= i < |s| ensures s[i] in a.valueOf {
        assert t[|s| - 1 - i] == s[i];
      }
    }
  }

  // ---------------------------------------------------------------------
  // Relating the decoder's sum to the reference value
  // ---------------------------------------------------------------------

  /** The decoder's sum equals the least-significant-first digit value. */
  lemma {:induction false} WeightedSumIsDigitsValue(a: Alphabet, t: string)
    requires AllMapped(a, t)
    ensures WeightedSum(a, t) == DigitsValue(Values(a, t))
  {
    if t != [] {
      var p := t[..|t| - 1];
      WeightedSumIsDigitsValue(a, p);
      ValuesAt(a, t);
      ValuesAt(a, p);
      assert Values(a, t) == Values(a, p) + [a.valueOf[t[|t| - 1]]];
      DigitsValueAppend(Values(a, p), a.valueOf[t[|t| - 1]]);
    }
  }

  /** Horner's rule on `s` equals the least-significant-first value of its
      reversal. */
  lemma {:induction false} MsbValueIsDigitsValue(a: Alphabet, s: string)
    requires AllMapped(a, s)
    ensures AllMapped(a, Reverse(s))
    ensures MsbValue(a, s) == DigitsValue(Values(a, Reverse(s)))
  {
    if s != [] {
      var p := s[..|s| - 1];
      MsbValueIsDigitsValue(a, p);
      assert Reverse(s) == [s[|s| - 1]] + Reverse(p);
      assert Reverse(s)[1..] == Reverse(p);
    }
  }

  /** The decoder's sum over the reversed string is the Horner value. */
  lemma WeightedSumIsMsbValue(a: Alphabet, s: string)
    requires AllMapped(a, s)
    ensures AllMapped(a, Reverse(s))
    ensures WeightedSum(a, Reverse(s)) == MsbValue(a, s)
  {
    MsbValueIsDigitsValue(a, s);
    WeightedSumIsDigitsValue(a, Reverse(s));
  }

  /** Mapping digit values to symbols and back is the identity. */
  lemma {:induction false} ValuesOfSymbols(a: Alphabet, ds: seq<nat>)
    requires WellFormed(a)
    requires forall i :: 0 <= i < |ds| ==> ds[i] < Base
    ensures AllMapped(a, Symbols(a, ds))
    ensures Values(a, Symbols(a, ds)) == ds
  {
    SymbolsAt(a, ds);
    ValuesAt(a, Symbols(a, ds));
  }

  // ---------------------------------------------------------------------
  // Round trips and the shape of the encoding
  // ---------------------------------------------------------------------

  /** Reversing twice gives the original sequence. */
  lemma {:induction false} ReverseReverse<T>(s: seq<T>)
    ensures Reverse(Reverse(s)) == s
  {
    var t := Reverse(s);
    assert forall i :: 0 <= i < |s| ==> Reverse(t)[i] == t[|s| - 1 - i];
  }

  /** Every string over a well-formed alphabet passes the decode-side
      character check. */
  lemma MappedPrintable(a: Alphabet, s: string)
    requires WellFormed(a) && AllMapped(a, s)
    ensures IsAsciiPrintable(s)
  {
    forall i | 0 <= i < |s| ensures PrintableChar(s[i]) {
      assert a.symbols[a.valueOf[s[i]]] == s[i];
      PrintableChars(s[i]);
    }
  }

  /** The digit values of a mapped string spell it again as symbols. */
  lemma {:induction false} SymbolsOfValues(a: Alphabet, t: string)
    requires WellFormed(a) && AllMapped(a, t)
    ensures forall i :: 0 <= i < |Values(a, t)| ==> Values(a, t)[i] < |a.symbols|
    ensures Symbols(a, Values(a, t)) == t
  {
    var ds := Values(a, t);
    ValuesAt(a, t);
    assert forall i :: 0 <= i < |t| ==> a.symbols[ds[i]] == t[i];
    SymbolsAt(a, ds);
  }

  /** Decoding the encoding of `n` gives `n` back, zero included, under any
      well-formed alphabet. */
  lemma RoundTripInt(a: Alphabet, n: nat)
    requires WellFormed(a)
    ensures DecodeInt(a, EncodeInt(a, n)) == Ok(n)
  {
    var ds := LsbDigits(n);
    var s := EncodeInt(a, n);
    MappedPrintable(a, s);
    ReverseReverse(Symbols(a, ds));
    ValuesOfSymbols(a, ds);
    WeightedSumIsDigitsValue(a, Reverse(s));
    LsbDigitsValue(n);
  }

  /** A digit string in canonical form: every character in the alphabet and
      no leading value-0 symbol. */
  predicate CanonicalDigits(a: Alphabet, s: string)
  {
    AllMapped(a, s) && (s != [] ==> a.valueOf[s[0]] != 0)
  }

  /** The digit values of a canonical digit string, least significant first,
      form a canonical digit sequence. */
  lemma CanonicalValues(a: Alphabet, s: string)
    requires WellFormed(a) && CanonicalDigits(a, s)
    ensures AllMapped(a, Reverse(s))
    ensures Canonical(Values(a, Reverse(s)))
  {
    var t := Reverse(s);
    ReverseMapped(a, s);
    var ds := Values(a, t);
    ValuesAt(a, t);
    forall i | 0 <= i < |ds| ensures ds[i] < Base {
      assert a.symbols[a.valueOf[t[i]]] == t[i];
    }
    if ds != [] {
      assert t[|ds| - 1] == s[0];
    }
  }

  /** Encoding the value of a canonical digit string gives that string back,
      so `EncodeInt` is a bijection onto canonical digit strings. */
  lemma DecodeEncodeCanonical(a: Alphabet, s: string)
    requires WellFormed(a)
    requires CanonicalDigits(a, s)
    ensures DecodeInt(a, s).Ok?
    ensures EncodeInt(a, DecodeInt(a, s).value) == s
  {
    MappedPrintable(a, s);
    var t := Reverse(s);
    CanonicalValues(a, s);
    MsbValueIsDigitsValue(a, s);
    var ds := Values(a, t);
    ValueLsbDigits(ds);
    SymbolsOfValues(a, t);
    ReverseReverse(s);
  }

  /** A positive `n` encodes to `L` symbols exactly when
      `Base^(L-1) <= n < Base^L`. */
  lemma EncodedLength(a: Alphabet, n: nat)
    requires WellFormed(a)
    ensures n < Power(|EncodeInt(a, n)|)
    ensures n > 0 ==> Power(|EncodeInt(a, n)| - 1) <= n
  {
    LsbDigitsLength(n);
  }

  /** Encodings never get shorter as the number grows. */
  lemma EncodedLengthMonotone(a: Alphabet, m: nat, n: nat)
    requires WellFormed(a)
    requires m <= n
    ensures |EncodeInt(a, m)| <= |EncodeInt(a, n)|
  {
    LsbDigitsLengthMonotone(m, n);
  }

  /** The decimal round trip: canonical decimal text encodes and decodes back
      to itself. Zero encodes to the empty string, which decodes to "0". */
  lemma RoundTripDecimal(a: Alphabet, s: string)
    requires WellFormed(a)
    requires IsCanonicalDecimal(s)
    ensures Encode(a, s).Ok?
    ensures Decode(a, Encode(a, s).value) == Ok(s)
  {
    var n := ParseDecimal(s);
    RoundTripInt(a, n);
    DecimalStringParse(s);
  }
}
