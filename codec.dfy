/** The yin digit: an 11-bit value written as one consonant-vowel-consonant
    syllable.  The value is split into the mixed-radix triple (y, i, n) with
    radices 21, 5 and 21 (main.c:23-29, 53-98). */
module YinDigit {

  datatype Option<T> = None | Some(value: T)

  /** The two alphabets; their sizes are the radices of the triple. */
  const Consonants: string := "bcdfghjklmnpqrstvwxyz"
  const Vowels: string := "aeiou"
  const NumConsonants: nat := 21
  const NumVowels: nat := 5

  /** A digit carries YIN_LEN = 11 bits: values 0 ..= YinMask, where
      YinBase is 1 << 11 and YinMask is YinBase - 1 (YIN_MASK). */
  const YinBase: nat := 2048
  const YinMask: nat := YinBase - 1

  /** The radices are the alphabet sizes (NUM_CONSONANTS, NUM_VOWELS), and
      21 * 5 * 21 triples are enough for 2^11 values. */
  lemma AlphabetSizes()
    ensures |Consonants| == NumConsonants && |Vowels| == NumVowels
    ensures NumConsonants * NumVowels * NumConsonants > YinMask
  {
  }

  /** One chain node's payload: the high consonant y, the vowel i and the
      low consonant n, each an index into its alphabet. */
  datatype Digit = Digit(y: nat, i: nat, n: nat)

  /** Every sub-digit indexes inside its alphabet. */
  predicate ValidDigit(d: Digit)
  {
    d.y < NumConsonants && d.i < NumVowels && d.n < NumConsonants
  }

  /** i2yin_digit: None (the NULL return) exactly for values above the mask;
      otherwise the triple from which Decode gets the value back. */
  function Encode(v: nat): (r: Option<Digit>)
    ensures r.None? <==> v > YinMask
    ensures r.Some? ==> ValidDigit(r.value) && Decode(r.value) == v
    // the quotient left after the high consonant is zero (main.c:69)
    ensures r.Some? ==> v / NumConsonants / NumVowels / NumConsonants == 0
  {
    if v > YinMask then None
    else
      var n := v % NumConsonants;
      var q := v / NumConsonants;
      var i := q % NumVowels;
      var q' := q / NumVowels;
      Some(Digit(q' % NumConsonants, i, n))
  }

  /** yin_digit2i: the value of a triple.  On a valid triple each sub-digit
      can be read back from the value, so distinct valid triples never
      collide. */
  function Decode(d: Digit): (r: nat)
    ensures ValidDigit(d) ==>
              r % NumConsonants == d.n &&
              r / NumConsonants % NumVowels == d.i &&
              r / NumConsonants / NumVowels == d.y
  {
    (d.y * NumVowels + d.i) * NumConsonants + d.n
  }

  /** print_yin_digit: the three characters of a digit.  Each lies in its
      alphabet and is distinct for distinct indices. */
  function Render(d: Digit): (s: string)
    requires ValidDigit(d)
    ensures |s| == 3
    ensures s[0] in Consonants && s[1] in Vowels && s[2] in Consonants
  {
    [Consonants[d.y], Vowels[d.i], Consonants[d.n]]
  }

  /** Decoding then encoding gives back any valid triple whose value fits in
      11 bits: the codec is a bijection between 0 ..= YinMask and those triples. */
  lemma DecodeEncode(d: Digit)
    requires ValidDigit(d) && Decode(d) <= YinMask
    ensures Encode(Decode(d)) == Some(d)
  {
  }

  /** The triples Encode produces: every value up to the mask encodes, the
      high consonant never reaches the last consonant of the alphabet, and
      the triple decodes below 2^11 because it decodes back to the value
      (Encode's round trip), not because of the bound on y alone. */
  lemma EncodedRange(v: nat)
    requires v <= YinMask
    ensures Encode(v).Some? && Encode(v).value.y < NumConsonants - 1
    ensures Decode(Encode(v).value) < YinBase
  {
  }

  /** The consonants are listed in strictly increasing order. */
  lemma ConsonantsIncreasing(j: nat, k: nat)
    requires j < k < NumConsonants
    ensures Consonants[j] < Consonants[k]
  {
  }

  lemma VowelsIncreasing(j: nat, k: nat)
    requires j < k < NumVowels
    ensures Vowels[j] < Vowels[k]
  {
  }

  /** Two valid digits with the same syllable are the same digit. */
  lemma RenderInjective(a: Digit, b: Digit)
    requires ValidDigit(a) && ValidDigit(b) && Render(a) == Render(b)
    ensures a == b
  {
    var ra, rb := Render(a), Render(b);
    assert Consonants[a.y] == ra[0] == rb[0] == Consonants[b.y];
    assert Vowels[a.i] == ra[1] == rb[1] == Vowels[b.i];
    assert Consonants[a.n] == ra[2] == rb[2] == Consonants[b.n];
    if a.y < b.y { ConsonantsIncreasing(a.y, b.y); assert false; }
    if b.y < a.y { ConsonantsIncreasing(b.y, a.y); assert false; }
    if a.i < b.i { VowelsIncreasing(a.i, b.i); assert false; }
    if b.i < a.i { VowelsIncreasing(b.i, a.i); assert false; }
    if a.n < b.n { ConsonantsIncreasing(a.n, b.n); assert false; }
    if b.n < a.n { ConsonantsIncreasing(b.n, a.n); assert false; }
  }
}
