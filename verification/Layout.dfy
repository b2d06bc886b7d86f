/** Dense indexes encoded as scrambled identifiers (pid/layout.go). */
module Layout {
  import opened Common
  import opened Arithmetic
  import opened Charset
  import opened Template

  datatype Layout = Layout(characters: CharacterSet, pattern: string)

  datatype LayoutError = InvalidCharacterSet | EmptyCharacterSet | SpaceOverflow | IndexOutOfRange

  const MULTIPLIER_SEED: uint64 := 0xbf58476d1ce4e5b9
  const ADDITIVE_SEED: uint64 := 0x9e3779b97f4a7c15

  // ---- 64-bit machine operations -----------------------------------------

  /** bits.Mul64: the full 128-bit product, as high and low words. */
  function Mul64(a: uint64, b: uint64): (product: (uint64, uint64))
    ensures product.0 * TWO_64 + product.1 == a * b
  {
    MulMonotone(a, b, TWO_64 - 1, TWO_64 - 1);
    DivLess(a * b, TWO_64, TWO_64);
    (a * b / TWO_64, a * b % TWO_64)
  }

  /** bits.Div64: panics unless the high word is below the divisor. */
  function Div64(hi: uint64, lo: uint64, divisor: uint64): (quotientRemainder: (uint64, uint64))
    requires hi < divisor
    ensures (hi * TWO_64 + lo) % divisor == quotientRemainder.1 < divisor
  {
    DivLess(hi * TWO_64 + lo, divisor, TWO_64);
    ((hi * TWO_64 + lo) / divisor, (hi * TWO_64 + lo) % divisor)
  }

  /** Addition of two words, wrapping as the machine does. */
  function Add64(a: uint64, b: uint64): uint64 {
    (a + b) % TWO_64
  }

  /** The high word of the product is below the divisor, so Div64 never panics. */
  lemma HighWordBelow(a: uint64, b: uint64, m: uint64)
    requires a < m
    ensures Mul64(a, b).0 < m
  {
    var (hi, lo) := Mul64(a, b);
    MulMonotone(a, b, a, TWO_64);
  }

  function MulMod(a: uint64, b: uint64, m: uint64): (r: uint64)
    requires a < m
    ensures r == (a * b) % m && r < m
  {
    var (hi, lo) := Mul64(a, b);
    HighWordBelow(a, b, m);
    Div64(hi, lo, m).1
  }

  // ---- the size of the space ----------------------------------------------

  function SpaceOf(base: nat, stars: nat): Result<uint64, LayoutError> {
    if stars == 0 then Ok(1)
    else if base == 0 then Err(EmptyCharacterSet)
    else if Pow(base, stars) < TWO_64 then Ok(Pow(base, stars))
    else Err(SpaceOverflow)
  }

  /** Overflow in any factor means overflow of the whole power, and only then. */
  method SpaceSize(base: uint64, stars: nat) returns (r: Result<uint64, LayoutError>)
    ensures r == SpaceOf(base, stars)
  {
    if stars == 0 {
      return Ok(1);
    }
    if base == 0 {
      return Err(EmptyCharacterSet);
    }
    var space: uint64 := 1;
    for i := 0 to stars
      invariant space == Pow(base, i)
    {
      var (hi, lo) := Mul64(space, base);
      if hi != 0 {
        PowMonotone(base, i + 1, stars);
        return Err(SpaceOverflow);
      }
      space := lo;
    }
    return Ok(space);
  }

  method Parts(l: Layout) returns (r: Result<(string, nat), LayoutError>)
    ensures r == match Alphabet(l.characters)
                 case None => Err(InvalidCharacterSet)
                 case Some(letters) => Ok((letters, Stars(l.pattern)))
  {
    if Alphabet(l.characters).None? {
      return Err(InvalidCharacterSet);
    }
    var stars := 0;
    for i := 0 to |l.pattern|
      invariant stars == Stars(l.pattern[..i])
    {
      StarsAppend(l.pattern[..i], [l.pattern[i]]);
      assert l.pattern[..i + 1] == l.pattern[..i] + [l.pattern[i]];
      if l.pattern[i] == '*' {
        stars := stars + 1;
      }
    }
    assert l.pattern[..|l.pattern|] == l.pattern;
    return Ok((Alphabet(l.characters).value, stars));
  }

  method Space(l: Layout) returns (r: Result<uint64, LayoutError>)
    ensures Alphabet(l.characters).None? ==> r == Err(InvalidCharacterSet)
    ensures Alphabet(l.characters).Some? ==>
              var ids := Pow(|Alphabet(l.characters).value|, Stars(l.pattern));
              r == if ids < TWO_64 then Ok(ids) else Err(SpaceOverflow)
  {
    var parts := Parts(l);
    if parts.Err? {
      return Err(parts.error);
    }
    KnownAlphabets(l.characters);
    r := SpaceSize(|parts.value.0|, parts.value.1);
  }

  /** Every reachable space stays at or below the additive seed, 10^19 (above 2^63) included. */
  lemma ReachableSpace(base: nat, stars: nat)
    requires base == 10 || base == 16 || base == 32 || base == 36
    requires Pow(base, stars) < TWO_64
    ensures Pow(base, stars) <= ADDITIVE_SEED
  {
    if base == 10 {
      assert Pow(10, 5) == 100000;
      PowAdd(10, 5, 5);
      PowAdd(10, 10, 10);
      PowAdd(10, 10, 9);
      if stars < 20 { PowMonotone(10, stars, 19); } else { PowMonotone(10, 20, stars); }
    } else if base == 16 {
      assert Pow(16, 8) == 0x1_0000_0000;
      assert Pow(16, 16) == TWO_64;
      if stars < 16 { PowMonotone(16, stars, 15); } else { PowMonotone(16, 16, stars); }
    } else if base == 32 {
      assert Pow(32, 6) == 0x4000_0000;
      assert Pow(32, 12) == 0x1000_0000_0000_0000;
      if stars < 13 { PowMonotone(32, stars, 12); } else { PowMonotone(32, 13, stars); }
    } else {
      assert Pow(36, 6) == 2176782336;
      assert Pow(36, 12) == 4738381338321616896;
      if stars < 13 { PowMonotone(36, stars, 12); } else { PowMonotone(36, 13, stars); }
    }
  }

  // ---- the scrambling step -------------------------------------------------

  method GcdLoop(a: uint64, b: uint64) returns (g: uint64)
    ensures g == Gcd(a, b)
  {
    g := a;
    var r: uint64 := b;
    while r != 0
      invariant Gcd(g, r) == Gcd(a, b)
      decreases r
    {
      g, r := r, g % r;
    }
  }

  function FirstMultiplier(space: uint64): uint64
    requires 2 <= space
  {
    if MULTIPLIER_SEED % space == 0 then 1 else MULTIPLIER_SEED % space
  }

  /** The first number from m on that is coprime to the space; the search ends by space - 1. */
  function CoprimeFrom(m: nat, space: nat): (r: nat)
    requires 1 <= m < space
    ensures m <= r < space && Gcd(r, space) == 1
    ensures forall k: nat :: m <= k < r ==> Gcd(k, space) != 1
    decreases space - m
  {
    PredecessorCoprime(space);
    if Gcd(m, space) == 1 then m else CoprimeFrom(m + 1, space)
  }

  function Multiplier(space: uint64): uint64
    requires 2 <= space
  {
    CoprimeFrom(FirstMultiplier(space), space)
  }

  /** The search terminates before the wrap back to 1 is ever taken: the multiplier found is the
      first coprime at or after the starting point. */
  method MultiplierFor(space: uint64) returns (m: uint64)
    requires 2 <= space
    ensures m == Multiplier(space)
    ensures 1 <= m < space && Gcd(m, space) == 1
  {
    var candidate: int := MULTIPLIER_SEED % space;
    if candidate == 0 {
      candidate := 1;
    }
    var g := GcdLoop(candidate, space);
    while g != 1
      invariant 1 <= candidate < space && g == Gcd(candidate, space)
      invariant Multiplier(space) == CoprimeFrom(candidate, space)
      decreases space - candidate
    {
      candidate := candidate + 1;
      if candidate == space {
        candidate := 1;
      }
      PredecessorCoprime(space);
      g := GcdLoop(candidate, space);
    }
    m := candidate;
  }

  function Increment(space: uint64): uint64
    requires 2 <= space
  {
    var c := ADDITIVE_SEED % space;
    if c % 2 == 0 then (c + 1) % space else c
  }

  /** The permutation the scrambling step is meant to be, over unbounded integers. */
  function Permuted(i: nat, space: uint64): (r: nat)
    requires 1 <= space
    ensures r < space
  {
    if space == 1 then 0 else (i * Multiplier(space) + Increment(space)) % space
  }

  /** The step as the machine computes it, sum wrapping at 2^64; on every space up to the additive
      seed it is the permutation. */
  method Scramble(i: uint64, space: uint64) returns (r: uint64)
    requires i < space
    ensures space <= ADDITIVE_SEED ==> r == Permuted(i, space)
  {
    if space <= 1 {
      return 0;
    }
    var m := MultiplierFor(space);
    var c := ADDITIVE_SEED % space;
    if c % 2 == 0 {
      c := (c + 1) % space;
    }
    var x := MulMod(i, m, space);
    r := Add64(x, c) % space;
    if space <= ADDITIVE_SEED {
      assert c == Increment(space);
      StepPermutes(i, x, space);
    }
  }

  lemma StepPermutes(i: nat, x: uint64, space: uint64)
    requires 2 <= space <= ADDITIVE_SEED && x == (i * Multiplier(space)) % space && x < space
    ensures Add64(x, Increment(space)) % space == Permuted(i, space)
  {
    hide Multiplier, Increment;
    SumFits(x, space);
    assert Add64(x, Increment(space)) == x + Increment(space) by { NoWrap(x, Increment(space)); }
    ReducedSum(i * Multiplier(space), Increment(space), space);
  }

  lemma NoWrap(a: uint64, b: uint64)
    requires a + b < TWO_64
    ensures Add64(a, b) == a + b
  {
  }

  lemma SumFits(x: nat, space: uint64)
    requires x < space && 2 <= space <= ADDITIVE_SEED
    ensures x + Increment(space) < TWO_64
  {
    if 2 * space > TWO_64 {
      DivModUnique(ADDITIVE_SEED, space, 1, ADDITIVE_SEED - space);
    }
  }

  /** Exactly the spaces up to the additive seed are free of wrap-around; beyond it some index overflows. */
  lemma SumFitsIff(space: uint64)
    requires 2 <= space
    ensures (forall i: uint64 :: i < space ==> (i * Multiplier(space)) % space + Increment(space) < TWO_64)
       <==> space <= ADDITIVE_SEED
  {
    if space <= ADDITIVE_SEED {
      forall i: uint64 | i < space
        ensures (i * Multiplier(space)) % space + Increment(space) < TWO_64
      {
        SumFits((i * Multiplier(space)) % space, space);
      }
    } else {
      DivModUnique(ADDITIVE_SEED, space, 0, ADDITIVE_SEED);
      DivModUnique(space - 1, space, 0, space - 1);
      var i: uint64 := CoprimeOnto(Multiplier(space), space, space - 1);
      assert (i * Multiplier(space)) % space == space - 1;
    }
  }

  lemma PermutedInjective(i: nat, j: nat, space: uint64)
    requires i < space && j < space && Permuted(i, space) == Permuted(j, space)
    ensures i == j
  {
    if space > 1 {
      AffineInjective(Multiplier(space), Increment(space), space, i, j);
    }
  }

  lemma PermutedSurjective(space: uint64, target: nat) returns (i: nat)
    requires target < space
    ensures i < space && Permuted(i, space) == target
  {
    if space == 1 {
      i := 0;
    } else {
      var c := Increment(space);
      i := CoprimeOnto(Multiplier(space), space, target - c);
      ReducedSum(i * Multiplier(space), c, space);
      ReducedSum(target - c, c, space);
      DivModUnique(target, space, 0, target);
    }
  }

  // ---- encoding -------------------------------------------------------------

  lemma LastDigit(letters: string, n: nat, i: nat, behind: string)
    requires 0 < |letters|
    ensures 0 <= n % |letters| < |letters| && 0 <= n / |letters|
    ensures Word(letters, n, i + 1) + behind == Word(letters, n / |letters|, i) + ([letters[n % |letters|]] + behind)
  {
  }

  /** The digit buffer, filled from its end. */
  method WriteDigits(letters: string, value: uint64, digits: array<char>)
    requires 0 < |letters| < TWO_64
    modifies digits
    ensures digits[..] == Word(letters, value, digits.Length)
  {
    var base := |letters|;
    var n: uint64 := value;
    var i := digits.Length;
    while i > 0
      invariant 0 <= i <= digits.Length
      invariant Word(letters, value, digits.Length) == Word(letters, n, i) + digits[i..]
    {
      i := i - 1;
      ghost var behind := digits[i + 1..];
      digits[i] := letters[n % base];
      assert digits[i..] == [letters[n % base]] + behind;
      LastDigit(letters, n, i, behind);
      n := n / base;
    }
  }

  method EncodeRaw(pattern: string, letters: string, stars: nat, value: uint64) returns (id: string)
    requires stars == Stars(pattern) && 0 < |letters| < TWO_64
    ensures |Word(letters, value, stars)| == stars && id == Fill(pattern, Word(letters, value, stars))
  {
    WordShape(letters, value, stars);
    if stars == 0 {
      FillWithoutStars(pattern);
      return pattern;
    }
    var digits := new char[stars];
    WriteDigits(letters, value, digits);
    ghost var word := digits[..];

    id := "";
    var next := 0;
    for k := 0 to |pattern|
      invariant next == Stars(pattern[..k]) <= stars
      invariant digits[..] == word && id == Fill(pattern[..k], word[..next])
    {
      StarsPrefix(pattern, k);
      FillStep(pattern, word, k);
      var c := pattern[k];
      if c == '*' {
        id := id + [digits[next]];
        next := next + 1;
      } else {
        id := id + [c];
      }
    }
    assert pattern[..|pattern|] == pattern && word[..stars] == word;
  }

  predicate Encodable(l: Layout) {
    Alphabet(l.characters).Some? && Pow(|Alphabet(l.characters).value|, Stars(l.pattern)) < TWO_64
  }

  /** The number of identifiers of a layout whose space fits in a word. */
  function Ids(l: Layout): uint64
    requires Encodable(l)
  {
    Pow(|Alphabet(l.characters).value|, Stars(l.pattern))
  }

  /** The identifier of an index. */
  function Encoded(l: Layout, index: nat): string
    requires Encodable(l) && index < Ids(l)
  {
    var letters := Alphabet(l.characters).value;
    KnownAlphabets(l.characters);
    WordShape(letters, Permuted(index, Ids(l)), Stars(l.pattern));
    Fill(l.pattern, Word(letters, Permuted(index, Ids(l)), Stars(l.pattern)))
  }

  method EncodeIndex(l: Layout, index: uint64) returns (r: Result<string, LayoutError>)
    ensures r == if Alphabet(l.characters).None? then Err(InvalidCharacterSet)
                 else if !Encodable(l) then Err(SpaceOverflow)
                 else if index >= Ids(l) then Err(IndexOutOfRange)
                 else Ok(Encoded(l, index))
  {
    var parts := Parts(l);
    if parts.Err? {
      return Err(parts.error);
    }
    var (letters, stars) := parts.value;
    KnownAlphabets(l.characters);
    var space := SpaceSize(|letters|, stars);
    if space.Err? {
      return Err(space.error);
    }
    if index >= space.value {
      return Err(IndexOutOfRange);
    }
    ReachableSpace(|letters|, stars);
    var scrambled := Scramble(index, space.value);
    var id := EncodeRaw(l.pattern, letters, stars, scrambled);
    return Ok(id);
  }

  // ---- EncodeIndex is a bijection -------------------------------------------

  lemma EncodedMatches(l: Layout, index: nat)
    requires Encodable(l) && index < Ids(l)
    ensures Matches(l.pattern, Alphabet(l.characters).value, Encoded(l, index))
  {
    var letters := Alphabet(l.characters).value;
    var word := Word(letters, Permuted(index, Ids(l)), Stars(l.pattern));
    KnownAlphabets(l.characters);
    WordShape(letters, Permuted(index, Ids(l)), Stars(l.pattern));
    FillThenSlots(l.pattern, letters, word);
  }

  lemma EncodedInjective(l: Layout, i: nat, j: nat)
    requires Encodable(l) && i < Ids(l) && j < Ids(l) && Encoded(l, i) == Encoded(l, j)
    ensures i == j
  {
    var letters, stars, space := Alphabet(l.characters).value, Stars(l.pattern), Ids(l);
    KnownAlphabets(l.characters);
    var p, q := Permuted(i, space), Permuted(j, space);
    WordShape(letters, p, stars);
    WordShape(letters, q, stars);
    FillThenSlots(l.pattern, letters, Word(letters, p, stars));
    FillThenSlots(l.pattern, letters, Word(letters, q, stars));
    WordThenValue(letters, p, stars);
    WordThenValue(letters, q, stars);
    PermutedInjective(i, j, space);
  }

  lemma EncodedSurjective(l: Layout, id: string) returns (index: nat)
    requires Encodable(l) && Matches(l.pattern, Alphabet(l.characters).value, id)
    ensures index < Ids(l) && Encoded(l, index) == id
  {
    var letters := Alphabet(l.characters).value;
    KnownAlphabets(l.characters);
    SlotsThenFill(l.pattern, letters, id);
    ValueThenWord(letters, Slots(l.pattern, id));
    index := PermutedSurjective(Ids(l), Value(letters, Slots(l.pattern, id)));
  }

  /** EncodeIndex is a bijection from the indexes below Space onto the strings that match the layout. */
  lemma EncodeIndexBijective(l: Layout)
    requires Encodable(l)
    ensures forall i: nat :: i < Ids(l) ==> Matches(l.pattern, Alphabet(l.characters).value, Encoded(l, i))
    ensures forall i: nat, j: nat :: i < Ids(l) && j < Ids(l) && Encoded(l, i) == Encoded(l, j) ==> i == j
    ensures forall id: string :: Matches(l.pattern, Alphabet(l.characters).value, id) ==>
              exists i: nat :: i < Ids(l) && Encoded(l, i) == id
  {
    forall i: nat | i < Ids(l)
      ensures Matches(l.pattern, Alphabet(l.characters).value, Encoded(l, i))
    {
      EncodedMatches(l, i);
    }
    forall i: nat, j: nat | i < Ids(l) && j < Ids(l) && Encoded(l, i) == Encoded(l, j)
      ensures i == j
    {
      EncodedInjective(l, i, j);
    }
    forall id: string | Matches(l.pattern, Alphabet(l.characters).value, id)
      ensures exists i: nat :: i < Ids(l) && Encoded(l, i) == id
    {
      var i := EncodedSurjective(l, id);
    }
  }

  // ---- which bijection it is --------------------------------------------------

  /** The number that the slots of an identifier stand for, its digits read most significant first. */
  ghost function NumberIn(l: Layout, id: string): nat
    requires Encodable(l) && Matches(l.pattern, Alphabet(l.characters).value, id)
  {
    SlotsThenFill(l.pattern, Alphabet(l.characters).value, id);
    Value(Alphabet(l.characters).value, Slots(l.pattern, id))
  }

  lemma EncodedNumber(l: Layout, index: nat)
    requires Encodable(l) && index < Ids(l)
    ensures Matches(l.pattern, Alphabet(l.characters).value, Encoded(l, index))
    ensures NumberIn(l, Encoded(l, index)) == Permuted(index, Ids(l))
  {
    var letters := Alphabet(l.characters).value;
    var number, stars := Permuted(index, Ids(l)), Stars(l.pattern);
    KnownAlphabets(l.characters);
    EncodedMatches(l, index);
    WordShape(letters, number, stars);
    WordThenValue(letters, number, stars);
    FillThenSlots(l.pattern, letters, Word(letters, number, stars));
  }

  /** The identifier of index i stands for (i * m + c) modulo the space, where m is the first number from
      0xbf58476d1ce4e5b9 modulo the space on that is positive and coprime to the space, and c is
      0x9e3779b97f4a7c15 modulo the space, made odd by adding one. */
  lemma EncodedAffine(l: Layout) returns (m: nat)
    requires Encodable(l) && 2 <= Ids(l)
    ensures 1 <= m < Ids(l) && Gcd(m, Ids(l)) == 1
    ensures forall k: nat :: 0 < k && 0xbf58476d1ce4e5b9 % Ids(l) <= k < m ==> Gcd(k, Ids(l)) != 1
    ensures Matches(l.pattern, Alphabet(l.characters).value, Encoded(l, 0))
    ensures var c := 0x9e3779b97f4a7c15 % Ids(l);
            NumberIn(l, Encoded(l, 0)) == if c % 2 == 1 then c else (c + 1) % Ids(l)
    ensures forall i: nat :: i < Ids(l) ==>
              Matches(l.pattern, Alphabet(l.characters).value, Encoded(l, i))
              && NumberIn(l, Encoded(l, i)) == (i * m + NumberIn(l, Encoded(l, 0))) % Ids(l)
  {
    m := Multiplier(Ids(l));
    EncodedNumber(l, 0);
    IncrementReduced(Ids(l));
    forall i: nat | i < Ids(l)
      ensures Matches(l.pattern, Alphabet(l.characters).value, Encoded(l, i))
      ensures NumberIn(l, Encoded(l, i)) == (i * m + NumberIn(l, Encoded(l, 0))) % Ids(l)
    {
      EncodedNumber(l, i);
    }
  }

  lemma IncrementReduced(space: uint64)
    requires 2 <= space
    ensures Increment(space) < space && Permuted(0, space) == Increment(space)
  {
    DivModUnique(Increment(space), space, 0, Increment(space));
  }

  lemma HundredConstants()
    ensures Multiplier(100) == 29 && Increment(100) == 85
  {
    assert Gcd(29, 100) == Gcd(100, 29) == Gcd(29, 13) == Gcd(13, 3) == Gcd(3, 1) == 1;
  }

  lemma HundredPermuted()
    ensures Permuted(0, 100) == 85 && Permuted(1, 100) == 14
  {
    hide Multiplier, Increment;
    HundredConstants();
  }

  lemma HundredIds()
    ensures var l := Layout("decimal", "**"); Encodable(l) && Ids(l) == 100 && Stars(l.pattern) == 2
  {
    assert Stars("**") == 2 && Pow(10, 2) == 100;
  }

  lemma TwoSlots(a: char, b: char)
    ensures Stars("**") == 2 && Fill("**", [a, b]) == [a, b]
  {
    assert Stars("*") == 1 && "**"[1..] == "*" && [a, b][1..] == [b];
    assert Fill("*", [b]) == [b] + Fill("", "");
  }

  lemma TwoDigits()
    ensures Word(DECIMAL, 85, 2) == "85" && Word(DECIMAL, 14, 2) == "14"
  {
  }

  /** Two decimal slots: the first indexes are scattered, not counted up. */
  lemma TwoDecimalSlots()
    ensures var l := Layout("decimal", "**"); Encodable(l) && Ids(l) == 100 && Encoded(l, 0) == "85" && Encoded(l, 1) == "14"
  {
    hide Permuted, Word, Fill, Pow, Stars;
    HundredIds();
    HundredPermuted();
    TwoDigits();
    TwoSlots('8', '5');
    TwoSlots('1', '4');
  }
}
