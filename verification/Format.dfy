/** PID formats: what they accept and what they generate (pid/pid.go, pid/pattern.go). */
module Format {
  import opened Common
  import opened Arithmetic
  import opened Charset
  import opened Template
  import opened Layout

  datatype Format = Format(pattern: string, characters: CharacterSet)

  datatype FormatError =
    | UnknownCharacters
    | InvalidCharacters
    | MissingAsterisk
    | PickFailed(cause: PickError)

  predicate IsPatternChar(c: char) {
    c == '*' || c == '-' || c == '_'
  }

  predicate IsPattern(pattern: string) {
    (forall i :: 0 <= i < |pattern| ==> IsPatternChar(pattern[i])) && '*' in pattern
  }

  predicate IsFormat(f: Format) {
    Alphabet(f.characters).Some? && IsPattern(f.pattern)
  }

  /** The language of a format. */
  predicate Accepts(f: Format, pid: string) {
    IsFormat(f) && Matches(f.pattern, Alphabet(f.characters).value, pid)
  }

  method ValidatePattern(pattern: string) returns (error: Option<FormatError>)
    ensures error.None? <==> IsPattern(pattern)
    ensures error == Some(MissingAsterisk) <==> '*' !in pattern && forall i :: 0 <= i < |pattern| ==> IsPatternChar(pattern[i])
    ensures error == Some(InvalidCharacters) <==> exists i :: 0 <= i < |pattern| && !IsPatternChar(pattern[i])
  {
    var hadAsterisk := false;
    for k := 0 to |pattern|
      invariant forall i :: 0 <= i < k ==> IsPatternChar(pattern[i])
      invariant hadAsterisk <==> '*' in pattern[..k]
    {
      var c := pattern[k];
      if c == '*' {
        hadAsterisk := true;
      } else if c != '-' && c != '_' {
        assert !IsPatternChar(pattern[k]);
        return Some(InvalidCharacters);
      }
    }
    assert pattern[..|pattern|] == pattern;
    return if hadAsterisk then None else Some(MissingAsterisk);
  }

  method Validate(f: Format) returns (error: Option<FormatError>)
    ensures error.None? <==> IsFormat(f)
    ensures error == Some(UnknownCharacters) <==> Alphabet(f.characters).None?
  {
    if Alphabet(f.characters).None? {
      return Some(UnknownCharacters);
    }
    error := ValidatePattern(f.pattern);
  }

  method IsValid(f: Format, pid: string) returns (ok: bool)
    ensures ok <==> Accepts(f, pid)
  {
    var error := Validate(f);
    if error.Some? {
      return false;
    }
    var letters := Alphabet(f.characters).value;
    if |f.pattern| != |pid| {
      return false;
    }
    var filter := LetterSet(letters);
    for k := 0 to |pid|
      invariant forall i :: 0 <= i < k ==> if f.pattern[i] == '*' then pid[i] in letters else pid[i] == f.pattern[i]
    {
      if f.pattern[k] == '*' {
        if pid[k] !in filter {
          return false;
        }
      } else if pid[k] != f.pattern[k] {
        return false;
      }
    }
    return true;
  }

  // ---- generation -----------------------------------------------------------

  /** What a pattern turns into when its slots are picked from the words at `at` onwards. */
  function GenerateFrom(pattern: string, letters: string, source: Source, at: nat): (Result<string, PickError>, nat)
    requires 0 < |letters| < TWO_64
    decreases |pattern|
  {
    if pattern == "" then (Ok(""), at)
    else
      var (picked, next) := if pattern[0] == '*' then PickFrom(letters, source, at, MAX_PICK_ATTEMPTS) else (Ok(pattern[0]), at);
      match picked
      case Err(e) => (Err(e), next)
      case Ok(c) =>
        var (rest, end) := GenerateFrom(pattern[1..], letters, source, next);
        (if rest.Ok? then Ok([c] + rest.value) else rest, end)
  }

  /** A result with text already written in front of it. */
  function Behind(written: string, outcome: (Result<string, PickError>, nat)): (Result<string, PickError>, nat) {
    (if outcome.0.Ok? then Ok(written + outcome.0.value) else outcome.0, outcome.1)
  }

  lemma BehindNothing(outcome: (Result<string, PickError>, nat))
    ensures Behind("", outcome) == outcome
  {
    assert outcome.0.Ok? ==> "" + outcome.0.value == outcome.0.value;
  }

  lemma BehindOne(written: string, c: char, outcome: (Result<string, PickError>, nat))
    ensures Behind(written + [c], outcome) == Behind(written, Behind([c], outcome))
  {
    assert outcome.0.Ok? ==> written + [c] + outcome.0.value == written + ([c] + outcome.0.value);
  }

  method Generate(f: Format, rand: Random) returns (r: Result<string, FormatError>)
    modifies rand
    ensures !IsFormat(f) ==> r.Err? && rand.position == old(rand.position)
    ensures IsFormat(f) ==>
              && 0 < |Alphabet(f.characters).value| < TWO_64
              && var (outcome, next) := GenerateFrom(f.pattern, Alphabet(f.characters).value, rand.source, old(rand.position));
                 && rand.position == next
                 && r == if outcome.Ok? then Ok(outcome.value) else Err(PickFailed(outcome.error))
  {
    var error := Validate(f);
    if error.Some? {
      return Err(error.value);
    }
    var letters := Alphabet(f.characters).value;
    KnownAlphabets(f.characters);
    var written := "";
    assert f.pattern[0..] == f.pattern;
    BehindNothing(GenerateFrom(f.pattern, letters, rand.source, rand.position));
    for k := 0 to |f.pattern|
      invariant GenerateFrom(f.pattern, letters, rand.source, old(rand.position))
             == Behind(written, GenerateFrom(f.pattern[k..], letters, rand.source, rand.position))
    {
      ghost var rest := f.pattern[k..];
      assert rest[0] == f.pattern[k] && rest[1..] == f.pattern[k + 1..];
      ghost var begun := rand.position;
      if f.pattern[k] != '*' {
        BehindOne(written, f.pattern[k], GenerateFrom(rest[1..], letters, rand.source, begun));
        written := written + [f.pattern[k]];
      } else {
        var c := Pick(f.characters, rand);
        if c.Err? {
          return Err(PickFailed(c.error));
        }
        BehindOne(written, c.value, GenerateFrom(rest[1..], letters, rand.source, rand.position));
        written := written + [c.value];
      }
    }
    assert f.pattern[|f.pattern|..] == "";
    assert written + "" == written;
    return Ok(written);
  }

  lemma {:induction false} GeneratedMatches(pattern: string, letters: string, source: Source, at: nat)
    requires 0 < |letters| < TWO_64
    ensures var r := GenerateFrom(pattern, letters, source, at).0; r.Ok? ==> Matches(pattern, letters, r.value)
    decreases |pattern|
  {
    if pattern != "" {
      PickedLetterInAlphabet(letters, source, at, MAX_PICK_ATTEMPTS);
      var next := if pattern[0] == '*' then PickFrom(letters, source, at, MAX_PICK_ATTEMPTS).1 else at;
      GeneratedMatches(pattern[1..], letters, source, next);
    }
  }

  /** The slot that starts reading at `from` gets letter c from the word at p: fewer than 100 words before
      it, all rejected, and the word at p is one that is picked as c. */
  ghost predicate SlotDrawn(letters: string, source: Source, from: nat, p: nat, c: char)
    requires 0 < |letters| < TWO_64
  {
    && from <= p < from + 100 && AllRejected(letters, source, from, p)
    && source(p).Some? && PickFrom(letters, Constantly(source(p).value), 0, 1).0 == Ok(c)
  }

  ghost predicate AllRejected(letters: string, source: Source, from: nat, to: nat)
    requires 0 < |letters| < TWO_64
  {
    forall p: nat :: from <= p < to ==> RejectedAt(letters, source, p)
  }

  /** The slots one after the other, each reading on where the one before it stopped. */
  ghost predicate SlotsDrawn(letters: string, source: Source, at: nat, places: seq<nat>, word: string)
    requires 0 < |letters| < TWO_64
    decreases |word|
  {
    if word == "" || places == [] then word == "" && places == []
    else SlotDrawn(letters, source, at, places[0], word[0]) && SlotsDrawn(letters, source, places[0] + 1, places[1..], word[1..])
  }

  function Beyond(at: nat, places: seq<nat>): nat {
    if places == [] then at else places[|places| - 1] + 1
  }

  lemma OneSlotDrawn(letters: string, source: Source, at: nat, p: nat, c: char)
    requires 0 < |letters| < TWO_64 && SlotDrawn(letters, source, at, p, c)
    ensures PickFrom(letters, source, at, MAX_PICK_ATTEMPTS) == (Ok(c), p + 1)
  {
    hide PickFrom;
    PickDecidedBy(letters, source, at, MAX_PICK_ATTEMPTS, p - at);
  }

  /** Generation fills the pattern with the letters its slots draw, in order, and reads nothing further. */
  lemma {:induction false} GeneratedFrom(pattern: string, letters: string, source: Source, at: nat, places: seq<nat>, word: string)
    requires 0 < |letters| < TWO_64 && |word| == Stars(pattern) && SlotsDrawn(letters, source, at, places, word)
    ensures GenerateFrom(pattern, letters, source, at) == (Ok(Fill(pattern, word)), Beyond(at, places))
    decreases |pattern|
  {
    hide PickFrom, SlotDrawn;
    if pattern != "" {
      if pattern[0] == '*' {
        OneSlotDrawn(letters, source, at, places[0], word[0]);
        GeneratedFrom(pattern[1..], letters, source, places[0] + 1, places[1..], word[1..]);
      } else {
        GeneratedFrom(pattern[1..], letters, source, at, places, word);
      }
    }
  }

  /** It fails at the first slot that cannot be drawn: on 100 rejected words, or on a failed read before. */
  lemma {:induction false} GenerationFails(pattern: string, letters: string, source: Source, at: nat,
                                           places: seq<nat>, word: string, j: nat)
    requires 0 < |letters| < TWO_64 && |word| < Stars(pattern) && SlotsDrawn(letters, source, at, places, word)
    requires j <= 100 && AllRejected(letters, source, Beyond(at, places), Beyond(at, places) + j)
    ensures j == 100 ==> GenerateFrom(pattern, letters, source, at) == (Err(AllAttemptsFailed), Beyond(at, places) + 100)
    ensures j < 100 && source(Beyond(at, places) + j).None? ==>
              GenerateFrom(pattern, letters, source, at) == (Err(FailedToReadRandom), Beyond(at, places) + j + 1)
    decreases |pattern|
  {
    hide PickFrom, SlotDrawn, RejectedAt;
    if pattern[0] != '*' {
      GenerationFails(pattern[1..], letters, source, at, places, word, j);
    } else if word == "" {
      PickDecidedBy(letters, source, at, MAX_PICK_ATTEMPTS, j);
    } else {
      OneSlotDrawn(letters, source, at, places[0], word[0]);
      GenerationFails(pattern[1..], letters, source, places[0] + 1, places[1..], word[1..], j);
    }
  }

  /** The words that steer generation to a given string: one per slot, the letter's place in the alphabet. */
  ghost function Steering(letters: string, slots: string): Source
    requires Over(letters, slots) && |letters| < TWO_64
  {
    (i: nat) => if i < |slots| then Some(Digit(letters, slots[i])) else None
  }

  lemma {:induction false} SteeredGeneration(pattern: string, letters: string, id: string, source: Source, at: nat)
    requires 0 < |letters| < TWO_64 && |letters| <= AcceptBound(|letters|) && Matches(pattern, letters, id)
    requires forall i :: 0 <= i < |Slots(pattern, id)| ==>
               Slots(pattern, id)[i] in letters && source(at + i) == Some(Digit(letters, Slots(pattern, id)[i]))
    ensures GenerateFrom(pattern, letters, source, at) == (Ok(id), at + Stars(pattern))
    decreases |pattern|
  {
    if pattern != "" {
      var tail := Slots(pattern[1..], id[1..]);
      var next := if pattern[0] == '*' then at + 1 else at;
      if pattern[0] == '*' {
        var d := Digit(letters, id[0]);
        assert Slots(pattern, id)[0] == id[0];
        assert source(at + 0) == Some(d);
        DivModUnique(d, |letters|, 0, d);
        assert PickFrom(letters, source, at, MAX_PICK_ATTEMPTS) == (Ok(id[0]), at + 1);
      }
      forall i | 0 <= i < |tail|
        ensures tail[i] in letters && source(next + i) == Some(Digit(letters, tail[i]))
      {
        var j := if pattern[0] == '*' then i + 1 else i;
        assert tail[i] == Slots(pattern, id)[j] && next + i == at + j;
      }
      SteeredGeneration(pattern[1..], letters, id[1..], source, next);
      assert id == [id[0]] + id[1..];
    }
  }

  /** Generation and acceptance describe the same language: a string is accepted exactly when some
      random stream generates it, reading one word per slot. */
  lemma GenerateIffAccepts(f: Format, pid: string)
    requires IsFormat(f)
    ensures 0 < |Alphabet(f.characters).value| < TWO_64
    ensures Accepts(f, pid) <==>
            exists source: Source :: GenerateFrom(f.pattern, Alphabet(f.characters).value, source, 0).0 == Ok(pid)
  {
    var letters := Alphabet(f.characters).value;
    KnownAlphabets(f.characters);
    if Accepts(f, pid) {
      SlotsThenFill(f.pattern, letters, pid);
      var source := Steering(letters, Slots(f.pattern, pid));
      assert |letters| <= AcceptBound(|letters|);
      SteeredGeneration(f.pattern, letters, pid, source, 0);
    }
    forall source: Source | GenerateFrom(f.pattern, letters, source, 0).0 == Ok(pid)
      ensures Accepts(f, pid)
    {
      GeneratedMatches(f.pattern, letters, source, 0);
    }
  }

  /** Every accepted string passes the PID check of the API. */
  lemma AcceptedIsSlug(f: Format, pid: string)
    requires Accepts(f, pid)
    ensures IsSlug(pid)
  {
    KnownAlphabets(f.characters);
    var letters := Alphabet(f.characters).value;
    forall i | 0 <= i < |pid|
      ensures 'a' <= pid[i] <= 'z' || '0' <= pid[i] <= '9' || pid[i] == '_' || pid[i] == '-'
    {
      assert IsPatternChar(f.pattern[i]);
      if f.pattern[i] == '*' {
        var d := Digit(letters, pid[i]);
        assert IsLowerAlnum(letters[d]);
      }
    }
  }

  /** The v-th accepted string in digit order. */
  function Nth(f: Format, v: nat): string
    requires IsFormat(f)
  {
    var letters := Alphabet(f.characters).value;
    KnownAlphabets(f.characters);
    WordShape(letters, v, Stars(f.pattern));
    Fill(f.pattern, Word(letters, v, Stars(f.pattern)))
  }

  /** The strings a format accepts number exactly base^stars, the Space of the layout with the same
      template: listing the numbers below it lists every accepted string once. */
  lemma AcceptedCount(f: Format) returns (ids: seq<string>)
    requires IsFormat(f)
    ensures |ids| == Pow(|Alphabet(f.characters).value|, Stars(f.pattern))
    ensures forall i, j :: 0 <= i < j < |ids| ==> ids[i] != ids[j]
    ensures forall pid: string :: Accepts(f, pid) <==> pid in ids
    ensures var l := Layout(f.characters, f.pattern); Encodable(l) ==> |ids| == Ids(l)
  {
    var letters, stars := Alphabet(f.characters).value, Stars(f.pattern);
    ids := seq(Pow(|letters|, stars), (v: nat) => Nth(f, v));
    forall i: nat, j: nat | i < j < |ids|
      ensures ids[i] != ids[j]
    {
      NthAccepted(f, i);
      NthAccepted(f, j);
    }
    forall pid: string
      ensures Accepts(f, pid) <==> pid in ids
    {
      if Accepts(f, pid) {
        var v := AcceptedIsNth(f, pid);
        assert ids[v] == pid;
      }
      if v: nat :| v < |ids| && ids[v] == pid {
        NthAccepted(f, v);
      }
    }
  }

  lemma NthAccepted(f: Format, v: nat)
    requires IsFormat(f) && v < Pow(|Alphabet(f.characters).value|, Stars(f.pattern))
    ensures Accepts(f, Nth(f, v))
    ensures Over(Alphabet(f.characters).value, Slots(f.pattern, Nth(f, v)))
    ensures Value(Alphabet(f.characters).value, Slots(f.pattern, Nth(f, v))) == v
  {
    var letters, stars := Alphabet(f.characters).value, Stars(f.pattern);
    KnownAlphabets(f.characters);
    WordShape(letters, v, stars);
    WordThenValue(letters, v, stars);
    FillThenSlots(f.pattern, letters, Word(letters, v, stars));
  }

  lemma AcceptedIsNth(f: Format, pid: string) returns (v: nat)
    requires Accepts(f, pid)
    ensures v < Pow(|Alphabet(f.characters).value|, Stars(f.pattern)) && Nth(f, v) == pid
  {
    var letters := Alphabet(f.characters).value;
    KnownAlphabets(f.characters);
    SlotsThenFill(f.pattern, letters, pid);
    ValueThenWord(letters, Slots(f.pattern, pid));
    v := Value(letters, Slots(f.pattern, pid));
  }
}
