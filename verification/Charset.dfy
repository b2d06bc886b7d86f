/** Alphabets and the rejection-sampling choice of one letter (pid/charset.go). */
module Charset {
  import opened Common
  import opened Arithmetic

  /** A Go string type: any value can be written down, only four are known. */
  type CharacterSet = string

  const FULL: string := "0123456789abcdefghijklmnopqrstuvwxyz"
  const READABLE: string := "0123456789abcdefghjkmnpqrstvwxyz"
  const HEX: string := "0123456789abcdef"
  const DECIMAL: string := "0123456789"

  function Alphabet(chars: CharacterSet): Option<string> {
    if chars == "full" then Some(FULL)
    else if chars == "readable" then Some(READABLE)
    else if chars == "hex" then Some(HEX)
    else if chars == "decimal" then Some(DECIMAL)
    else None
  }

  predicate Ascending(s: string) {
    forall i :: 0 < i < |s| ==> s[i - 1] < s[i]
  }

  predicate IsLowerAlnum(c: char) {
    'a' <= c <= 'z' || '0' <= c <= '9'
  }

  predicate AllLowerAlnum(s: string) {
    forall i :: 0 <= i < |s| ==> IsLowerAlnum(s[i])
  }

  /** A usable alphabet: letters in strictly ascending order, all of them digits or lower case. */
  predicate IsAlphabet(s: string) {
    Ascending(s) && AllLowerAlnum(s) && (|s| == 10 || |s| == 16 || |s| == 32 || |s| == 36)
  }

  // The letters of each alphabet: all digits and lower-case letters, those without i, l, o and u, and the
  // first sixteen and the first ten of them.

  /** Consecutive characters from a first one on. */
  predicate IsRun(run: string, first: char, last: char) {
    && |run| == last as int - first as int + 1
    && forall i :: 0 <= i < |run| ==> run[i] as int == first as int + i
  }

  lemma RunHas(run: string, first: char, last: char, c: char)
    requires IsRun(run, first, last)
    ensures c in run <==> first <= c <= last
  {
    if first <= c <= last {
      assert run[c as int - first as int] == c;
    }
  }

  const LETTERS: string := "abcdefghijklmnopqrstuvwxyz"

  lemma LettersHas(c: char)
    ensures c in LETTERS <==> 'a' <= c <= 'z'
  {
    RunHas(LETTERS, 'a', 'z', c);
  }

  lemma FullHalves(c: char)
    ensures c in FULL <==> c in DECIMAL || c in LETTERS
  {
    assert FULL == DECIMAL + LETTERS;
  }

  lemma FullHas(c: char)
    ensures c in FULL <==> '0' <= c <= '9' || 'a' <= c <= 'z'
  {
    DecimalHas(c);
    LettersHas(c);
    FullHalves(c);
  }

  const READABLE_FRONT: string := "0123456789abcdefghjk"
  const READABLE_BACK: string := "mnpqrstvwxyz"

  lemma ReadableHas(c: char)
    ensures c in READABLE <==> ('0' <= c <= '9' || 'a' <= c <= 'z') && c != 'i' && c != 'l' && c != 'o' && c != 'u'
  {
    ReadableFront(c);
    ReadableBack(c);
    ReadableHalves(c);
  }

  lemma ReadableHalves(c: char)
    ensures c in READABLE <==> c in READABLE_FRONT || c in READABLE_BACK
  {
    assert READABLE == READABLE_FRONT + READABLE_BACK;
  }

  lemma ReadableFront(c: char)
    ensures c in READABLE_FRONT <==> '0' <= c <= '9' || 'a' <= c <= 'h' || c == 'j' || c == 'k'
  {
    RunHas("0123456789", '0', '9', c);
    RunHas("abcdefgh", 'a', 'h', c);
    RunHas("jk", 'j', 'k', c);
    assert READABLE_FRONT == "0123456789" + "abcdefgh" + "jk";
  }

  lemma ReadableBack(c: char)
    ensures c in READABLE_BACK <==> c == 'm' || c == 'n' || 'p' <= c <= 't' || 'v' <= c <= 'z'
  {
    RunHas("mn", 'm', 'n', c);
    RunHas("pqrst", 'p', 't', c);
    RunHas("vwxyz", 'v', 'z', c);
    assert READABLE_BACK == "mn" + "pqrst" + "vwxyz";
  }

  lemma HexHas(c: char)
    ensures c in HEX <==> '0' <= c <= '9' || 'a' <= c <= 'f'
  {
    RunHas("0123456789", '0', '9', c);
    RunHas("abcdef", 'a', 'f', c);
    assert HEX == "0123456789" + "abcdef";
  }

  lemma DecimalHas(c: char)
    ensures c in DECIMAL <==> '0' <= c <= '9'
  {
    RunHas(DECIMAL, '0', '9', c);
  }

  /** Which letters each character set holds, and that there are no others. */
  lemma AlphabetHas(chars: CharacterSet, c: char)
    ensures Alphabet(chars).Some? <==> chars in {"full", "readable", "hex", "decimal"}
    ensures Alphabet(chars).Some? ==>
              var digit, letter := '0' <= c <= '9', 'a' <= c <= 'z';
              && (chars == "full" ==> (c in Alphabet(chars).value <==> digit || letter))
              && (chars == "readable" ==> (c in Alphabet(chars).value <==> digit || (letter && c !in {'i', 'l', 'o', 'u'})))
              && (chars == "hex" ==> (c in Alphabet(chars).value <==> digit || 'a' <= c <= 'f'))
              && (chars == "decimal" ==> (c in Alphabet(chars).value <==> digit))
  {
    FullHas(c);
    ReadableHas(c);
    HexHas(c);
    DecimalHas(c);
  }

  lemma FullAscends() ensures Ascending(FULL) {}
  lemma FullLetters() ensures AllLowerAlnum(FULL) && |FULL| == 36 {}
  lemma ReadableAscends() ensures Ascending(READABLE) {}
  lemma ReadableLetters() ensures AllLowerAlnum(READABLE) && |READABLE| == 32 {}
  lemma HexLetters() ensures IsAlphabet(HEX) {}
  lemma DecimalLetters() ensures IsAlphabet(DECIMAL) {}

  lemma KnownAlphabets(chars: CharacterSet)
    requires Alphabet(chars).Some?
    ensures IsAlphabet(Alphabet(chars).value)
  {
    FullAscends();
    FullLetters();
    ReadableAscends();
    ReadableLetters();
    HexLetters();
    DecimalLetters();
  }

  lemma {:induction false} AscendingDistinct(s: string, i: nat, j: nat)
    requires Ascending(s) && i < j < |s|
    ensures s[i] < s[j]
    decreases j
  {
    if i < j - 1 {
      AscendingDistinct(s, i, j - 1);
    }
  }

  /** The lookup table built from an alphabet. */
  method LetterSet(letters: string) returns (table: set<char>)
    ensures forall c :: c in table <==> c in letters
  {
    table := {};
    for k := 0 to |letters|
      invariant forall c :: c in table <==> c in letters[..k]
    {
      assert letters[..k + 1] == letters[..k] + [letters[k]];
      table := table + {letters[k]};
    }
    assert letters[..|letters|] == letters;
  }

  // ---- Pick ---------------------------------------------------------------

  datatype PickError = UnknownCharacterSet | FailedToReadRandom | AllAttemptsFailed

  /** A random source: each 8-byte read yields one word or fails. */
  type Source = nat -> Option<uint64>

  class Random {
    const source: Source
    var position: nat

    constructor (source: Source)
      ensures this.source == source && position == 0
    {
      this.source := source;
      position := 0;
    }

    method Read() returns (word: Option<uint64>)
      modifies this
      ensures word == source(old(position)) && position == old(position) + 1
    {
      word := source(position);
      position := position + 1;
    }
  }

  const MAX_PICK_ATTEMPTS: nat := 100

  /** Words at or above this bound are rejected. */
  function AcceptBound(n: nat): uint64
    requires 0 < n < TWO_64
  {
    (TWO_64 - 1) - (TWO_64 - 1) % n
  }

  /** Which letter the words from position `at` on select, and the position after it. */
  function PickFrom(letters: string, source: Source, at: nat, attempts: nat): (Result<char, PickError>, nat)
    requires 0 < |letters| < TWO_64
    decreases attempts
  {
    if attempts == 0 then (Err(AllAttemptsFailed), at)
    else match source(at)
      case None => (Err(FailedToReadRandom), at + 1)
      case Some(word) =>
        if word >= AcceptBound(|letters|) then PickFrom(letters, source, at + 1, attempts - 1)
        else (Ok(letters[word % |letters|]), at + 1)
  }

  method Pick(chars: CharacterSet, rand: Random) returns (r: Result<char, PickError>)
    modifies rand
    ensures Alphabet(chars).None? ==> r == Err(UnknownCharacterSet) && rand.position == old(rand.position)
    ensures Alphabet(chars).Some? ==>
              && 0 < |Alphabet(chars).value| < TWO_64
              && (r, rand.position) == PickFrom(Alphabet(chars).value, rand.source, old(rand.position), MAX_PICK_ATTEMPTS)
  {
    if Alphabet(chars).None? {
      return Err(UnknownCharacterSet);
    }
    KnownAlphabets(chars);
    var runes := Alphabet(chars).value;
    var n := |runes|;
    var maxMultiple := AcceptBound(n);
    var attempt := 0;
    while attempt < MAX_PICK_ATTEMPTS
      invariant attempt <= MAX_PICK_ATTEMPTS
      invariant PickFrom(runes, rand.source, old(rand.position), MAX_PICK_ATTEMPTS)
             == PickFrom(runes, rand.source, rand.position, MAX_PICK_ATTEMPTS - attempt)
    {
      var word := rand.Read();
      if word.None? {
        return Err(FailedToReadRandom);
      }
      var choice := word.value;
      if choice < maxMultiple {
        return Ok(runes[choice % n]);
      }
      attempt := attempt + 1;
    }
    return Err(AllAttemptsFailed);
  }

  lemma {:induction false} PickedLetterInAlphabet(letters: string, source: Source, at: nat, attempts: nat)
    requires 0 < |letters| < TWO_64
    ensures var (r, next) := PickFrom(letters, source, at, attempts);
            at <= next <= at + attempts && (r.Ok? ==> r.value in letters)
    decreases attempts
  {
    if attempts > 0 && source(at).Some? {
      PickedLetterInAlphabet(letters, source, at + 1, attempts - 1);
    }
  }

  /** The words below the bound that select letter k. */
  ghost function WordsFor(n: nat, k: nat, bound: nat): set<nat>
    requires 0 < n
  {
    set word: nat | word < bound && word % n == k
  }

  lemma {:induction false} WordsPerLetter(n: nat, k: nat, rounds: nat)
    requires k < n
    ensures |WordsFor(n, k, rounds * n)| == rounds
  {
    if rounds == 0 {
      assert WordsFor(n, k, 0) == {};
    } else {
      WordsPerLetter(n, k, rounds - 1);
      OneMoreRound(n, k, rounds);
    }
  }

  lemma OneMoreRound(n: nat, k: nat, rounds: nat)
    requires k < n && 0 < rounds
    ensures var last := (rounds - 1) * n + k;
            && WordsFor(n, k, rounds * n) == WordsFor(n, k, (rounds - 1) * n) + {last}
            && last !in WordsFor(n, k, (rounds - 1) * n)
  {
    var start, end: nat := (rounds - 1) * n, rounds * n;
    assert end == start + n;
    DivModUnique(start + k, n, rounds - 1, k);
    forall word: nat | word < end && word % n == k && word != start + k
      ensures word < start
    {
      OneWordPerRound(n, k, rounds, word);
    }
  }

  lemma OneWordPerRound(n: nat, k: nat, rounds: nat, word: nat)
    requires k < n && 0 < rounds && word < rounds * n && word % n == k && word != (rounds - 1) * n + k
    ensures word < (rounds - 1) * n
  {
    DivLess(word, n, rounds);
    var q := word / n;
    assert word == q * n + k;
    assert q != rounds - 1;
    assert q <= rounds - 2;
    assert q * n <= (rounds - 2) * n;
    assert (rounds - 1) * n == (rounds - 2) * n + n;
  }

  /** The bound is a multiple of n, equally many words below it leave each remainder, and between one and
      n of the 2^64 words are rejected. */
  lemma RemaindersUniform(n: nat, k: nat)
    requires k < n < TWO_64
    ensures AcceptBound(n) % n == 0
    ensures |WordsFor(n, k, AcceptBound(n))| == AcceptBound(n) / n
    ensures 1 <= TWO_64 - AcceptBound(n) <= n
  {
    var max := TWO_64 - 1;
    var rounds := max / n;
    assert AcceptBound(n) == n * rounds by { assert max == n * rounds + max % n; }
    assert n * rounds == rounds * n;
    DivModUnique(AcceptBound(n), n, rounds, 0);
    WordsPerLetter(n, k, rounds);
  }

  /** The source that yields one word for ever. */
  function Constantly(word: uint64): Source {
    (i: nat) => Some(word)
  }

  /** The words that make a single try answer with letter k. */
  ghost function WordsPicking(letters: string, k: nat): set<nat>
    requires k < |letters| < TWO_64
  {
    set word: nat | word < TWO_64 && PickFrom(letters, Constantly(word), 0, 1).0 == Ok(letters[k])
  }

  /** Pick is exactly uniform: of the 2^64 words, equally many make it answer with each letter of the
      alphabet, and those at or above the bound, between one and n of them, are rejected. */
  lemma PickUniform(letters: string, k: nat)
    requires Ascending(letters) && k < |letters| < TWO_64
    ensures |WordsPicking(letters, k)| == AcceptBound(|letters|) / |letters|
    ensures AcceptBound(|letters|) % |letters| == 0 && 1 <= TWO_64 - AcceptBound(|letters|) <= |letters|
    ensures forall word: uint64 :: PickFrom(letters, Constantly(word), 0, 1).0.Err? <==> AcceptBound(|letters|) <= word
  {
    hide PickFrom;
    var n := |letters|;
    RemaindersUniform(n, k);
    forall word: uint64
      ensures PickFrom(letters, Constantly(word), 0, 1).0 == Ok(letters[k]) <==> word < AcceptBound(n) && word % n == k
      ensures PickFrom(letters, Constantly(word), 0, 1).0.Err? <==> AcceptBound(n) <= word
    {
      OneTry(letters, word, k);
    }
    SameWords(letters, k);
  }

  lemma SameWords(letters: string, k: nat)
    requires k < |letters| < TWO_64
    requires forall word: uint64 ::
               PickFrom(letters, Constantly(word), 0, 1).0 == Ok(letters[k]) <==> word < AcceptBound(|letters|) && word % |letters| == k
    ensures WordsPicking(letters, k) == WordsFor(|letters|, k, AcceptBound(|letters|))
  {
    hide PickFrom, AcceptBound;
  }

  lemma OneTry(letters: string, word: uint64, k: nat)
    requires Ascending(letters) && k < |letters| < TWO_64
    ensures var r := PickFrom(letters, Constantly(word), 0, 1).0;
            && (r == Ok(letters[k]) <==> word < AcceptBound(|letters|) && word % |letters| == k)
            && (r.Err? <==> AcceptBound(|letters|) <= word)
  {
    var j := word % |letters|;
    if j < k {
      AscendingDistinct(letters, j, k);
    } else if k < j {
      AscendingDistinct(letters, k, j);
    }
  }

  predicate RejectedAt(letters: string, source: Source, p: nat)
    requires 0 < |letters| < TWO_64
  {
    source(p).Some? && PickFrom(letters, Constantly(source(p).value), 0, 1).0.Err?
  }

  lemma OneStep(letters: string, source: Source, at: nat, attempts: nat)
    requires 0 < |letters| < TWO_64 && 0 < attempts
    ensures PickFrom(letters, source, at, attempts)
         == if source(at).None? then (Err(FailedToReadRandom), at + 1)
            else if RejectedAt(letters, source, at) then PickFrom(letters, source, at + 1, attempts - 1)
            else (PickFrom(letters, Constantly(source(at).value), 0, 1).0, at + 1)
  {
  }

  /** With the first j words rejected, the next one decides, as it would on its own; with every try spent
      on rejected words Pick gives up. */
  lemma {:induction false} PickDecidedBy(letters: string, source: Source, at: nat, attempts: nat, j: nat)
    requires 0 < |letters| < TWO_64 && j <= attempts
    requires forall p: nat :: at <= p < at + j ==> RejectedAt(letters, source, p)
    ensures j == attempts ==> PickFrom(letters, source, at, attempts) == (Err(AllAttemptsFailed), at + attempts)
    ensures j < attempts && source(at + j).None? ==>
              PickFrom(letters, source, at, attempts) == (Err(FailedToReadRandom), at + j + 1)
    ensures j < attempts && source(at + j).Some? && !RejectedAt(letters, source, at + j) ==>
              PickFrom(letters, source, at, attempts) == (PickFrom(letters, Constantly(source(at + j).value), 0, 1).0, at + j + 1)
    decreases j
  {
    assert j > 0 ==> RejectedAt(letters, source, at);
    if attempts > 0 {
      hide PickFrom, RejectedAt;
      OneStep(letters, source, at, attempts);
    }
    if j > 0 {
      hide PickFrom, RejectedAt;
      PickDecidedBy(letters, source, at + 1, attempts - 1, j - 1);
    }
  }

  /** The number of rejected words: the remainder of 2^64, but all of n where n divides it and nothing
      would need rejecting. */
  lemma RejectedExactly(n: nat)
    requires 0 < n < TWO_64
    ensures TWO_64 - AcceptBound(n) == if TWO_64 % n == 0 then n else TWO_64 % n
  {
    var r := (TWO_64 - 1) % n;
    var q := (TWO_64 - 1) / n;
    assert TWO_64 - 1 == n * q + r;
    if r == n - 1 {
      DivModUnique(TWO_64, n, q + 1, 0) by { assert n * (q + 1) == n * q + n; }
    } else {
      DivModUnique(TWO_64, n, q, r + 1);
    }
  }
}
