/** Templates whose '*' slots hold letters, and words read as numbers in the alphabet's base. */
module Template {
  import opened Arithmetic
  import opened Charset

  function Stars(pattern: string): nat {
    if pattern == "" then 0 else (if pattern[0] == '*' then 1 else 0) + Stars(pattern[1..])
  }

  /** The strings a template stands for: literals in place, every '*' filled from the alphabet. */
  predicate Matches(pattern: string, letters: string, id: string) {
    && |id| == |pattern|
    && forall i :: 0 <= i < |id| ==> if pattern[i] == '*' then id[i] in letters else id[i] == pattern[i]
  }

  predicate Over(letters: string, word: string) {
    forall i :: 0 <= i < |word| ==> word[i] in letters
  }

  /** The template with its slots filled from left to right. */
  function Fill(pattern: string, word: string): string
    requires |word| == Stars(pattern)
  {
    if pattern == "" then ""
    else if pattern[0] == '*' then [word[0]] + Fill(pattern[1..], word[1..])
    else [pattern[0]] + Fill(pattern[1..], word)
  }

  /** What a string holds in the slots. */
  function Slots(pattern: string, id: string): string
    requires |id| == |pattern|
  {
    if pattern == "" then ""
    else if pattern[0] == '*' then [id[0]] + Slots(pattern[1..], id[1..])
    else Slots(pattern[1..], id[1..])
  }

  lemma {:induction false} FillThenSlots(pattern: string, letters: string, word: string)
    requires |word| == Stars(pattern) && Over(letters, word)
    ensures Matches(pattern, letters, Fill(pattern, word))
    ensures Slots(pattern, Fill(pattern, word)) == word
  {
    if pattern != "" {
      var rest := if pattern[0] == '*' then word[1..] else word;
      FillThenSlots(pattern[1..], letters, rest);
      assert Fill(pattern, word)[1..] == Fill(pattern[1..], rest);
    }
  }

  lemma {:induction false} SlotsThenFill(pattern: string, letters: string, id: string)
    requires Matches(pattern, letters, id)
    ensures |Slots(pattern, id)| == Stars(pattern) && Over(letters, Slots(pattern, id))
    ensures Fill(pattern, Slots(pattern, id)) == id
  {
    if pattern != "" {
      SlotsThenFill(pattern[1..], letters, id[1..]);
    }
  }

  lemma {:induction false} FillWithoutStars(pattern: string)
    requires Stars(pattern) == 0
    ensures Fill(pattern, "") == pattern
  {
    if pattern != "" {
      FillWithoutStars(pattern[1..]);
    }
  }

  lemma {:induction false} StarsAppend(a: string, b: string)
    ensures Stars(a + b) == Stars(a) + Stars(b)
  {
    if a == "" {
      assert a + b == b;
    } else {
      StarsAppend(a[1..], b);
      assert (a + b)[1..] == a[1..] + b;
    }
  }

  lemma {:induction false} FillAppend(a: string, b: string, u: string, v: string)
    requires |u| == Stars(a) && |v| == Stars(b)
    ensures |u + v| == Stars(a + b) && Fill(a + b, u + v) == Fill(a, u) + Fill(b, v)
  {
    StarsAppend(a, b);
    if a == "" {
      assert a + b == b && u + v == v;
    } else {
      assert (a + b)[1..] == a[1..] + b;
      if a[0] == '*' {
        assert (u + v)[1..] == u[1..] + v;
        FillAppend(a[1..], b, u[1..], v);
      } else {
        FillAppend(a[1..], b, u, v);
      }
    }
  }

  lemma FillOne(c: char, u: string)
    requires |u| == Stars([c])
    ensures Fill([c], u) == [if c == '*' then u[0] else c]
  {
    assert [c][1..] == "";
  }

  lemma StarsOne(c: char)
    ensures Stars([c]) == if c == '*' then 1 else 0
  {
    assert [c][1..] == "";
  }

  lemma StarsPrefix(pattern: string, k: nat)
    requires k < |pattern|
    ensures Stars(pattern[..k + 1]) == Stars(pattern[..k]) + (if pattern[k] == '*' then 1 else 0) <= Stars(pattern)
  {
    assert pattern[..k + 1] == pattern[..k] + [pattern[k]];
    StarsAppend(pattern[..k], [pattern[k]]);
    StarsOne(pattern[k]);
    assert pattern == pattern[..k + 1] + pattern[k + 1..];
    StarsAppend(pattern[..k + 1], pattern[k + 1..]);
  }

  /** Filling one character further. */
  lemma FillStep(pattern: string, word: string, k: nat)
    requires |word| == Stars(pattern) && k < |pattern|
    ensures Stars(pattern[..k]) <= Stars(pattern[..k + 1]) <= |word|
    ensures pattern[k] == '*' ==> Stars(pattern[..k]) < |word|
    ensures Fill(pattern[..k + 1], word[..Stars(pattern[..k + 1])])
         == Fill(pattern[..k], word[..Stars(pattern[..k])])
            + (if pattern[k] == '*' then [word[Stars(pattern[..k])]] else [pattern[k]])
  {
    hide Fill, Stars;
    var next, after := Stars(pattern[..k]), Stars(pattern[..k + 1]);
    StarsPrefix(pattern, k);
    StarsOne(pattern[k]);
    var u := word[next..after];
    assert pattern[..k + 1] == pattern[..k] + [pattern[k]];
    assert word[..after] == word[..next] + u;
    FillAppend(pattern[..k], [pattern[k]], word[..next], u);
    FillOne(pattern[k], u);
  }

  // ---- words as numbers ---------------------------------------------------

  /** The low `length` digits of a number, most significant first, written with the given letters. */
  function Word(letters: string, value: nat, length: nat): string
    requires 0 < |letters|
    decreases length
  {
    if length == 0 then "" else Word(letters, value / |letters|, length - 1) + [letters[value % |letters|]]
  }

  /** The place of a letter in the alphabet. */
  ghost function Digit(letters: string, c: char): (d: nat)
    requires c in letters
    ensures d < |letters| && letters[d] == c
  {
    var d: nat :| d < |letters| && letters[d] == c;
    d
  }

  /** The number a word stands for. */
  ghost function Value(letters: string, word: string): nat
    requires Over(letters, word)
  {
    if word == "" then 0
    else Value(letters, word[..|word| - 1]) * |letters| + Digit(letters, word[|word| - 1])
  }

  lemma {:induction false} WordShape(letters: string, value: nat, length: nat)
    requires 0 < |letters|
    ensures |Word(letters, value, length)| == length && Over(letters, Word(letters, value, length))
    decreases length
  {
    if length > 0 {
      WordShape(letters, value / |letters|, length - 1);
    }
  }

  lemma LetterUnique(letters: string, i: nat, j: nat)
    requires Ascending(letters) && i < |letters| && j < |letters| && letters[i] == letters[j]
    ensures i == j
  {
    if i < j {
      AscendingDistinct(letters, i, j);
    } else if j < i {
      AscendingDistinct(letters, j, i);
    }
  }

  lemma ValueOfLast(letters: string, word: string, d: nat)
    requires Ascending(letters) && Over(letters, word) && d < |letters|
    ensures Over(letters, word + [letters[d]])
    ensures Value(letters, word + [letters[d]]) == Value(letters, word) * |letters| + d
  {
    LetterUnique(letters, d, Digit(letters, letters[d]));
    assert (word + [letters[d]])[..|word|] == word;
  }

  /** A word in front counts for as many powers of the base as there are letters behind it. */
  lemma {:induction false} ValueAppend(letters: string, u: string, v: string)
    requires Over(letters, u) && Over(letters, v)
    ensures Over(letters, u + v) && Value(letters, u + v) == Value(letters, u) * Pow(|letters|, |v|) + Value(letters, v)
    decreases |v|
  {
    hide Value;
    if v == "" {
      assert u + v == u;
      EmptyValue(letters);
    } else {
      var front, last := v[..|v| - 1], v[|v| - 1];
      ValueAppend(letters, u, front);
      assert (u + v)[..|u + v| - 1] == u + front;
      ValueLast(letters, u + v);
      ValueLast(letters, v);
      Regroup(Value(letters, u), Pow(|letters|, |front|), Value(letters, front), |letters|);
      assert Pow(|letters|, |v|) == Pow(|letters|, |front|) * |letters|;
    }
  }

  lemma EmptyValue(letters: string)
    ensures Value(letters, "") == 0
  {
  }

  lemma ValueLast(letters: string, word: string)
    requires Over(letters, word) && word != ""
    ensures Over(letters, word[..|word| - 1]) && word[|word| - 1] in letters
    ensures Value(letters, word) == Value(letters, word[..|word| - 1]) * |letters| + Digit(letters, word[|word| - 1])
  {
  }

  lemma Regroup(x: int, p: int, y: int, b: int)
    ensures (x * p + y) * b == x * (p * b) + y * b
  {
  }

  lemma {:induction false} WordThenValue(letters: string, value: nat, length: nat)
    requires Ascending(letters) && 0 < |letters| && value < Pow(|letters|, length)
    ensures Over(letters, Word(letters, value, length)) && Value(letters, Word(letters, value, length)) == value
    decreases length
  {
    if length > 0 {
      var b := |letters|;
      DivLess(value, b, Pow(b, length - 1));
      WordThenValue(letters, value / b, length - 1);
      ValueOfLast(letters, Word(letters, value / b, length - 1), value % b);
      Recompose(value, b);
    }
  }

  lemma Recompose(value: nat, b: nat)
    requires 0 < b
    ensures (value / b) * b + value % b == value
  {
  }

  lemma {:induction false} ValueThenWord(letters: string, word: string)
    requires 0 < |letters| && Over(letters, word)
    ensures Value(letters, word) < Pow(|letters|, |word|)
    ensures Word(letters, Value(letters, word), |word|) == word
    decreases |word|
  {
    if word != "" {
      var last := |word| - 1;
      ValueThenWord(letters, word[..last]);
      ShiftIn(Value(letters, word[..last]), Digit(letters, word[last]), |letters|, Pow(|letters|, last));
      assert word == word[..last] + [word[last]];
    }
  }

  lemma ShiftIn(high: nat, d: nat, b: nat, bound: nat)
    requires d < b && high < bound
    ensures high * b + d < bound * b
    ensures (high * b + d) / b == high && (high * b + d) % b == d
  {
    DivModUnique(high * b + d, b, high, d);
    MulMonotone(high + 1, b, bound, b);
    assert (high + 1) * b == high * b + b;
  }
}
