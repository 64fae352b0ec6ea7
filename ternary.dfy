/**
  A model of the "ternary exponentiation" character substitution scheme:
  a fixed table maps each of three characters to a base and two exponents,
  encryption raises the base to both exponents (the second one shifted by the
  public key), and decryption recovers the character by re-encrypting every
  table entry in order and returning the first one that matches.
 */
module Ternary {

  datatype Option<T> = None | Some(value: T)

  /** An encoded character: the two power values. */
  type Pair = (int, int)

  /** One row of the character table: a symbol, its base and its two exponents. */
  datatype Entry = Entry(symbol: char, base: nat, exp1: nat, exp2: nat)

  // ---------------------------------------------------------------------------
  // Powers
  // ---------------------------------------------------------------------------

  /** Mathematical exponentiation b^e, with 0^0 == 1. */
  function Pow(b: nat, e: nat): nat {
    if e == 0 then 1 else b * Pow(b, e - 1)
  }

  lemma {:induction false} PowOfOne(e: nat)
    ensures Pow(1, e) == 1
  {
    if e > 0 {
      PowOfOne(e - 1);
    }
  }

  /**
    The scheme's power function: zero whenever the base is zero (even for a
    zero exponent), and otherwise the mathematical power.
   */
  function CustomPow(base: nat, exp: nat): (r: nat)
    ensures base == 0 ==> r == 0
    ensures base >= 1 ==> r == Pow(base, exp)
  {
    if base == 0 then 0
    else if exp == 0 then 1
    else if base == 1 then PowOfOne(exp); 1
    else Pow(base, exp)
  }

  /** The one place where CustomPow and the mathematical power disagree: 0^0. */
  lemma CustomPowZeroZero()
    ensures CustomPow(0, 0) == 0 && Pow(0, 0) == 1
  {
  }

  /** Everywhere else the two agree. */
  lemma CustomPowAgreesElsewhere(b: nat, e: nat)
    requires (b, e) != (0, 0)
    ensures CustomPow(b, e) == Pow(b, e)
  {
  }

  lemma CustomPowSpecialCases(b: nat, e: nat)
    ensures CustomPow(0, e) == 0
    ensures b >= 1 ==> CustomPow(b, 0) == 1
    ensures CustomPow(1, e) == 1
  {
  }

  // ---------------------------------------------------------------------------
  // The character table
  // ---------------------------------------------------------------------------

  /** The character table, in its insertion (and hence iteration) order. */
  const CharToTernary: seq<Entry> := [
    Entry('A', 2, 3, 4),
    Entry('B', 3, 2, 5),
    Entry('C', 5, 2, 3)
  ]

  /** No symbol occurs twice: the table is a dictionary keyed by symbol. */
  predicate UniqueSymbols(table: seq<Entry>) {
    forall i, j :: 0 <= i < j < |table| ==> table[i].symbol != table[j].symbol
  }

  /** The first power value of an entry, which does not depend on any key. */
  function FirstValue(e: Entry): nat {
    CustomPow(e.base, e.exp1)
  }

  /** Distinct entries have distinct first power values. */
  predicate DistinctFirstValues(table: seq<Entry>) {
    forall i, j :: 0 <= i < j < |table| ==> FirstValue(table[i]) != FirstValue(table[j])
  }

  lemma CharTableWellFormed()
    ensures UniqueSymbols(CharToTernary)
    ensures DistinctFirstValues(CharToTernary)
    ensures [FirstValue(CharToTernary[0]), FirstValue(CharToTernary[1]), FirstValue(CharToTernary[2])]
         == [8, 9, 25]
  {
  }

  /** Position of the entry for symbol `c`: the dictionary lookup. */
  function IndexOf(table: seq<Entry>, c: char): (r: Option<nat>)
    ensures r.None? <==> forall i :: 0 <= i < |table| ==> table[i].symbol != c
    ensures r.Some? ==> r.value < |table| && table[r.value].symbol == c
    ensures r.Some? ==> forall j :: 0 <= j < r.value ==> table[j].symbol != c
  {
    if table == [] then None
    else if table[0].symbol == c then Some(0)
    else match IndexOf(table[1..], c)
      case None => None
      case Some(i) => Some(i + 1)
  }

  // ---------------------------------------------------------------------------
  // Encryption
  // ---------------------------------------------------------------------------

  /** What an entry encrypts to under a public key. */
  function Encode(e: Entry, pubKey: nat): Pair {
    (CustomPow(e.base, e.exp1), CustomPow(e.base, e.exp2 + pubKey))
  }

  /** Encrypts one character; None when it has no table entry. */
  function EncryptChar(c: char, pubKey: nat): (r: Option<Pair>)
    ensures r.None? <==> c !in {'A', 'B', 'C'}
    ensures r.Some? ==>
      exists i :: 0 <= i < |CharToTernary| && CharToTernary[i].symbol == c
        && r.value == (Pow(CharToTernary[i].base, CharToTernary[i].exp1),
                       Pow(CharToTernary[i].base, CharToTernary[i].exp2 + pubKey))
  {
    match IndexOf(CharToTernary, c)
    case None => None
    case Some(i) => Some(Encode(CharToTernary[i], pubKey))
  }

  /** Each table character's encryption, written with the mathematical power. */
  lemma EncryptCharEntries(pubKey: nat)
    ensures EncryptChar('A', pubKey) == Some((8, Pow(2, 4 + pubKey) as int))
    ensures EncryptChar('B', pubKey) == Some((9, Pow(3, 5 + pubKey) as int))
    ensures EncryptChar('C', pubKey) == Some((25, Pow(5, 3 + pubKey) as int))
  {
  }

  lemma EncryptCharExamples()
    ensures EncryptChar('B', 4) == Some((9, 19683))
    ensures EncryptChar('Z', 5) == None
  {
  }

  // ---------------------------------------------------------------------------
  // Decryption
  // ---------------------------------------------------------------------------

  /**
    The symbol of the first entry of `table`, in table order, whose encoding
    under `pubKey` equals `pair`; None when no entry matches.
   */
  function FirstMatch(table: seq<Entry>, pair: Pair, pubKey: nat): (r: Option<char>)
    ensures r.None? <==> forall i :: 0 <= i < |table| ==> Encode(table[i], pubKey) != pair
    ensures r.Some? ==>
      exists i :: 0 <= i < |table| && table[i].symbol == r.value
        && Encode(table[i], pubKey) == pair
        && forall j :: 0 <= j < i ==> Encode(table[j], pubKey) != pair
  {
    if table == [] then None
    else if Encode(table[0], pubKey) == pair then Some(table[0].symbol)
    else FirstMatch(table[1..], pair, pubKey)
  }

  /**
    Decrypts a pair by scanning the table in order, re-encrypting each entry
    under `pubKey`. `privKey` is accepted and never consulted.
   */
  method DecryptTernary(pair: Pair, privKey: int, pubKey: nat) returns (r: Option<char>)
    ensures r == FirstMatch(CharToTernary, pair, pubKey)
    ensures r.None? <==> forall i :: 0 <= i < |CharToTernary| ==> Encode(CharToTernary[i], pubKey) != pair
  {
    var i := 0;
    while i < |CharToTernary|
      invariant 0 <= i <= |CharToTernary|
      invariant forall j :: 0 <= j < i ==> Encode(CharToTernary[j], pubKey) != pair
      invariant FirstMatch(CharToTernary[i..], pair, pubKey) == FirstMatch(CharToTernary, pair, pubKey)
    {
      var entry := CharToTernary[i];
      var decrypted := (CustomPow(entry.base, entry.exp1), CustomPow(entry.base, entry.exp2 + pubKey));
      if pair == decrypted {
        return Some(entry.symbol);
      }
      assert CharToTernary[i..][1..] == CharToTernary[i + 1..];
      i := i + 1;
    }
    r := None;
  }

  /**
    In a table whose first power values are pairwise distinct, the encoding
    of any entry is matched first by that entry itself, whatever the key.
   */
  lemma FirstMatchFindsOwnEntry(table: seq<Entry>, i: nat, pubKey: nat)
    requires i < |table|
    requires DistinctFirstValues(table)
    ensures FirstMatch(table, Encode(table[i], pubKey), pubKey) == Some(table[i].symbol)
  {
    // An earlier entry with the same encoding would share the first value.
  }

  /** Round trip: decrypting the encryption of a table character gives it back. */
  lemma RoundTrip(c: char, pubKey: nat)
    requires c in {'A', 'B', 'C'}
    ensures EncryptChar(c, pubKey).Some?
    ensures FirstMatch(CharToTernary, EncryptChar(c, pubKey).value, pubKey) == Some(c)
  {
    FirstMatchFindsOwnEntry(CharToTernary, IndexOf(CharToTernary, c).value, pubKey);
  }

  /** Conversely, whatever decryption returns re-encrypts to the given pair. */
  lemma DecryptSound(pair: Pair, pubKey: nat, c: char)
    requires FirstMatch(CharToTernary, pair, pubKey) == Some(c)
    ensures EncryptChar(c, pubKey) == Some(pair)
  {
  }

  /** A pair whose first value is none of 8, 9, 25 decrypts to nothing. */
  lemma NoMatchOutsideFirstValues(pair: Pair, pubKey: nat)
    requires pair.0 !in {8, 9, 25}
    ensures FirstMatch(CharToTernary, pair, pubKey) == None
  {
  }

  lemma DecryptExamples(pubKey: nat)
    ensures FirstMatch(CharToTernary, (9, 19683), 4) == Some('B')
    ensures FirstMatch(CharToTernary, (999999, 1), pubKey) == None
  {
  }

  // ---------------------------------------------------------------------------
  // Key generation
  // ---------------------------------------------------------------------------

  /** A uniform draw from the closed range [lo, hi]; only its range is modelled. */
  method RandInt(lo: int, hi: int) returns (r: int)
    requires lo <= hi
    ensures lo <= r <= hi
  {
    r :| lo <= r <= hi;
  }

  /** Draws a public key in [2, 10] and a private key 1 to 10 above it. */
  method GenerateKeys() returns (pubKey: nat, privKey: nat)
    ensures 2 <= pubKey <= 10
    ensures 1 <= privKey - pubKey <= 10
    ensures privKey > pubKey
  {
    var p := RandInt(2, 10);
    var offset := RandInt(1, 10);
    pubKey := p;
    privKey := p + offset;
  }
}
