/** Joining generator runs into one pull-based stream (internal/idgen/generator.go). */
module IdGen {
  import opened Common

  /** One (value, error) pair of a sequence. */
  datatype Item = Item(value: string, failed: bool)

  /** generator(round)(i) is element i of the sequence of that round; None once the sequence is over.
      Sequences may be finite or endless. */
  type Generator = nat -> nat -> Option<Item>

  datatype Pulled = Yielded(item: Item) | Eof

  /** The round's sequence, cut after its first error, has exactly this positive length. */
  ghost predicate HasCut(generator: Generator, round: nat, length: nat) {
    && 1 <= length
    && (forall i: nat :: i < length ==> generator(round)(i).Some?)
    && (forall i: nat :: i < length - 1 ==> !generator(round)(i).value.failed)
    && (generator(round)(length - 1).value.failed || generator(round)(length).None?)
  }

  /** The first elements of a round's sequence. */
  ghost function Front(generator: Generator, round: nat, length: nat): seq<Item>
    requires forall i: nat :: i < length ==> generator(round)(i).Some?
  {
    seq(length, (i: nat) requires i < length => generator(round)(i).value)
  }

  /** generator(0), generator(1), ..., each cut after its first error, end to end. */
  ghost function Joined(generator: Generator, cuts: seq<nat>): seq<Item>
    requires forall r: nat :: r < |cuts| ==> HasCut(generator, r, cuts[r])
  {
    if cuts == [] then []
    else
      var last := |cuts| - 1;
      assert HasCut(generator, last, cuts[last]);
      Joined(generator, cuts[..last]) + Front(generator, last, cuts[last])
  }

  lemma CutUnique(generator: Generator, round: nat, a: nat, b: nat)
    requires HasCut(generator, round, a) && HasCut(generator, round, b)
    ensures a == b
  {
    assert forall shorter: nat, longer: nat ::
        HasCut(generator, round, shorter) && HasCut(generator, round, longer) ==> !(shorter < longer) by {
      forall shorter: nat, longer: nat | HasCut(generator, round, shorter) && shorter < longer
        ensures !HasCut(generator, round, longer)
      {
        var end: nat := shorter - 1;
        assert end < longer - 1;
      }
    }
  }

  /** Elements taken from a round so far: only the last may carry an error. */
  ghost predicate Taken(generator: Generator, round: nat, index: nat, failed: bool) {
    && (forall i: nat :: i < index ==> generator(round)(i).Some?)
    && (forall i: nat :: i < index ==> generator(round)(i).value.failed == (failed && i == index - 1))
    && (failed ==> 0 < index)
  }

  ghost predicate Cuts(generator: Generator, cuts: seq<nat>) {
    forall r: nat :: r < |cuts| ==> HasCut(generator, r, cuts[r])
  }

  /** The joined stream up to a position: the rounds before it, then the elements taken from its own. */
  ghost function Stream(generator: Generator, cuts: seq<nat>, index: nat, failed: bool): seq<Item>
    requires Cuts(generator, cuts) && Taken(generator, |cuts|, index, failed)
  {
    Joined(generator, cuts) + Front(generator, |cuts|, index)
  }

  /** The answers are the stream, then Eof for ever once the operation has ended. */
  ghost predicate Answers(answers: seq<Pulled>, stream: seq<Item>, ended: bool) {
    && |stream| <= |answers|
    && (forall k :: 0 <= k < |stream| ==> answers[k] == Yielded(stream[k]))
    && (forall k :: |stream| <= k < |answers| ==> answers[k] == Eof)
    && (|stream| < |answers| ==> ended)
  }

  lemma TakeOne(generator: Generator, cuts: seq<nat>, index: nat)
    requires Cuts(generator, cuts) && Taken(generator, |cuts|, index, false) && generator(|cuts|)(index).Some?
    ensures var item := generator(|cuts|)(index).value;
            && Taken(generator, |cuts|, index + 1, item.failed)
            && Stream(generator, cuts, index + 1, item.failed) == Stream(generator, cuts, index, false) + [item]
  {
    var item := generator(|cuts|)(index).value;
    assert Front(generator, |cuts|, index + 1) == Front(generator, |cuts|, index) + [item];
  }

  lemma CloseRound(generator: Generator, cuts: seq<nat>, index: nat, failed: bool)
    requires Cuts(generator, cuts) && Taken(generator, |cuts|, index, failed)
    requires 0 < index && (failed || generator(|cuts|)(index).None?)
    ensures Cuts(generator, cuts + [index]) && Taken(generator, |cuts| + 1, 0, false)
    ensures Stream(generator, cuts + [index], 0, false) == Stream(generator, cuts, index, failed)
  {
    assert HasCut(generator, |cuts|, index);
    assert (cuts + [index])[..|cuts|] == cuts;
    assert Front(generator, |cuts| + 1, 0) == [];
  }

  /** The answers are the first of what an operation on this generator that is not stopped answers: the
      joined stream, and end of stream only once a sequence turned out empty. */
  ghost predicate Follows(generator: Generator, answers: seq<Pulled>) {
    exists cuts: seq<nat>, index: nat, failed: bool :: FollowsTo(generator, answers, cuts, index, failed)
  }

  ghost predicate FollowsTo(generator: Generator, answers: seq<Pulled>, cuts: seq<nat>, index: nat, failed: bool) {
    && Cuts(generator, cuts) && Taken(generator, |cuts|, index, failed)
    && var stream := Stream(generator, cuts, index, failed);
       Answers(answers, stream, index == 0 && generator(|cuts|)(0).None?)
  }

  lemma NothingFollows(generator: Generator)
    ensures Follows(generator, [])
  {
    assert Front(generator, 0, 0) == [];
    assert FollowsTo(generator, [], [], 0, false);
  }

  lemma {:induction false} JoinedPrefix(generator: Generator, cuts: seq<nat>, m: nat)
    requires Cuts(generator, cuts) && m <= |cuts|
    ensures Cuts(generator, cuts[..m]) && Joined(generator, cuts[..m]) <= Joined(generator, cuts)
    decreases |cuts|
  {
    assert forall r: nat :: r < m ==> cuts[..m][r] == cuts[r];
    if m == |cuts| {
      assert cuts[..m] == cuts;
    } else {
      var last := |cuts| - 1;
      assert forall r: nat :: r < last ==> cuts[..last][r] == cuts[r];
      JoinedPrefix(generator, cuts[..last], m);
      assert cuts[..last][..m] == cuts[..m];
    }
  }

  lemma CutsAgree(generator: Generator, a: seq<nat>, b: seq<nat>)
    requires Cuts(generator, a) && Cuts(generator, b) && |a| <= |b|
    ensures a == b[..|a|]
  {
    forall r: nat | r < |a|
      ensures a[r] == b[r]
    {
      assert HasCut(generator, r, a[r]) && HasCut(generator, r, b[r]);
      CutUnique(generator, r, a[r], b[r]);
    }
  }

  /** Elements taken from a round never go past its cut. */
  lemma TakenWithinCut(generator: Generator, round: nat, index: nat, failed: bool, length: nat)
    requires Taken(generator, round, index, failed) && HasCut(generator, round, length)
    ensures index <= length
  {
    var last: nat := length - 1;
    var atCut, atLast := generator(round)(length), generator(round)(last);
    assert index > length ==> atCut.Some? && last < index - 1;
  }

  lemma FrontPrefix(generator: Generator, round: nat, shorter: nat, longer: nat)
    requires shorter <= longer && forall i: nat :: i < longer ==> generator(round)(i).Some?
    ensures Front(generator, round, shorter) <= Front(generator, round, longer)
  {
  }

  /** A stream that has got through fewer rounds is a prefix of one that has got further. */
  lemma EarlierStream(generator: Generator, a: seq<nat>, i: nat, f: bool, b: seq<nat>, j: nat, g: bool)
    requires Cuts(generator, a) && Taken(generator, |a|, i, f) && Cuts(generator, b) && Taken(generator, |b|, j, g)
    requires |a| < |b| || (|a| == |b| && i <= j)
    ensures Stream(generator, a, i, f) <= Stream(generator, b, j, g)
    ensures |a| < |b| || i < j ==> generator(|a|)(0).Some?
  {
    hide HasCut, Taken;
    CutsAgree(generator, a, b);
    if |a| == |b| {
      assert a == b;
      TakenSome(generator, |a|, j, g);
      FrontPrefix(generator, |a|, i, j);
    } else {
      var next := |a| + 1;
      assert HasCut(generator, |a|, b[|a|]);
      CutSome(generator, |a|, b[|a|]);
      TakenWithinCut(generator, |a|, i, f, b[|a|]);
      FrontPrefix(generator, |a|, i, b[|a|]);
      JoinedPrefix(generator, b, next);
      assert b[..next][..|a|] == a;
      assert Joined(generator, b[..next]) == Joined(generator, a) + Front(generator, |a|, b[|a|]);
    }
  }

  lemma TakenSome(generator: Generator, round: nat, index: nat, failed: bool)
    requires Taken(generator, round, index, failed)
    ensures forall i: nat :: i < index ==> generator(round)(i).Some?
  {
  }

  lemma CutSome(generator: Generator, round: nat, length: nat)
    requires HasCut(generator, round, length)
    ensures 1 <= length && forall i: nat :: i < length ==> generator(round)(i).Some?
  {
  }

  /** What an operation answers is determined by its generator. */
  lemma FollowsUnique(generator: Generator, a: seq<Pulled>, b: seq<Pulled>)
    requires Follows(generator, a) && Follows(generator, b) && |a| <= |b|
    ensures a <= b
  {
    var cuts, i, f :| FollowsTo(generator, a, cuts, i, f);
    var cuts', j, g :| FollowsTo(generator, b, cuts', j, g);
    StreamsDecide(generator, a, cuts, i, f, b, cuts', j, g);
  }

  lemma StreamsDecide(generator: Generator, a: seq<Pulled>, cuts: seq<nat>, i: nat, f: bool,
                      b: seq<Pulled>, cuts': seq<nat>, j: nat, g: bool)
    requires FollowsTo(generator, a, cuts, i, f) && FollowsTo(generator, b, cuts', j, g) && |a| <= |b|
    ensures a <= b
  {
    hide Stream, Cuts;
    var s, t := Stream(generator, cuts, i, f), Stream(generator, cuts', j, g);
    if |cuts| < |cuts'| || (|cuts| == |cuts'| && i <= j) {
      EarlierStream(generator, cuts, i, f, cuts', j, g);
    }
    if |cuts'| < |cuts| || (|cuts| == |cuts'| && j <= i) {
      EarlierStream(generator, cuts', j, g, cuts, i, f);
    }
  }

  /** The generator without its first round. */
  function Later(generator: Generator): Generator {
    (round: nat) => generator(round + 1)
  }

  lemma LaterCuts(generator: Generator, cuts: seq<nat>)
    requires Cuts(generator, cuts) && cuts != []
    ensures Cuts(Later(generator), cuts[1..])
  {
    forall r: nat | r < |cuts| - 1
      ensures HasCut(Later(generator), r, cuts[1..][r])
    {
      assert HasCut(generator, r + 1, cuts[r + 1]);
    }
  }

  lemma LaterFront(generator: Generator, round: nat, length: nat)
    requires 0 < round && forall i: nat :: i < length ==> generator(round)(i).Some?
    ensures Front(generator, round, length) == Front(Later(generator), round - 1, length)
  {
  }

  lemma JoinedLast(generator: Generator, cuts: seq<nat>)
    requires Cuts(generator, cuts) && cuts != []
    ensures var last := |cuts| - 1;
            && Cuts(generator, cuts[..last]) && HasCut(generator, last, cuts[last])
            && (forall i: nat :: i < cuts[last] ==> generator(last)(i).Some?)
            && Joined(generator, cuts) == Joined(generator, cuts[..last]) + Front(generator, last, cuts[last])
  {
    hide HasCut, Front;
    var last := |cuts| - 1;
    assert HasCut(generator, last, cuts[last]);
    CutSome(generator, last, cuts[last]);
  }

  lemma FirstCut(generator: Generator, cuts: seq<nat>)
    requires Cuts(generator, cuts) && cuts != []
    ensures HasCut(generator, 0, cuts[0]) && forall i: nat :: i < cuts[0] ==> generator(0)(i).Some?
  {
    hide HasCut;
    assert HasCut(generator, 0, cuts[0]);
    CutSome(generator, 0, cuts[0]);
  }

  lemma NoneJoined(generator: Generator)
    ensures Joined(generator, []) == []
  {
  }

  lemma {:induction false} LaterJoined(generator: Generator, cuts: seq<nat>)
    requires Cuts(generator, cuts) && cuts != []
    ensures HasCut(generator, 0, cuts[0]) && Cuts(Later(generator), cuts[1..])
    ensures forall i: nat :: i < cuts[0] ==> generator(0)(i).Some?
    ensures Joined(generator, cuts) == Front(generator, 0, cuts[0]) + Joined(Later(generator), cuts[1..])
    decreases |cuts|
  {
    hide HasCut, Joined, Front, Later;
    var last := |cuts| - 1;
    FirstCut(generator, cuts);
    LaterCuts(generator, cuts);
    JoinedLast(generator, cuts);
    if last == 0 {
      assert cuts[..0] == [] && cuts[1..] == [];
      NoneJoined(generator);
      NoneJoined(Later(generator));
    } else {
      LaterJoined(generator, cuts[..last]);
      JoinedLast(Later(generator), cuts[1..]);
      LaterFront(generator, last, cuts[last]);
      assert cuts[..last][1..] == cuts[1..][..last - 1];
    }
  }

  /** With an empty first sequence every answer is end of stream. */
  lemma EmptyRoundEnds(generator: Generator, answers: seq<Pulled>)
    requires Follows(generator, answers) && generator(0)(0).None?
    ensures forall k :: 0 <= k < |answers| ==> answers[k] == Eof
  {
    var cuts, index, failed :| FollowsTo(generator, answers, cuts, index, failed);
    assert cuts != [] ==> HasCut(generator, 0, cuts[0]);
    assert cuts == [];
  }

  /** A first sequence that ends after `length` elements, or yields its first error there, is answered up to
      that point; what comes after it is answered as by the generator without that round. */
  lemma FirstRoundThenLater(generator: Generator, answers: seq<Pulled>, length: nat)
    requires Follows(generator, answers) && 1 <= length
    requires forall i: nat :: i < length ==> generator(0)(i).Some?
    requires forall i: nat :: i < length - 1 ==> !generator(0)(i).value.failed
    requires generator(0)(length - 1).value.failed || generator(0)(length).None?
    ensures forall k: nat :: k < length && k < |answers| ==> answers[k] == Yielded(generator(0)(k).value)
    ensures length <= |answers| ==> Follows(Later(generator), answers[length..])
  {
    var cuts, index, failed :| FollowsTo(generator, answers, cuts, index, failed);
    assert HasCut(generator, 0, length);
    hide HasCut, Stream, Answers, Taken, Follows;
    if cuts == [] {
      WithinFirstRound(generator, answers, index, failed, length);
    } else {
      FirstCut(generator, cuts);
      CutUnique(generator, 0, cuts[0], length);
      BehindFirstRound(generator, answers, cuts, index, failed);
      if length <= |answers| {
        LaterAnswers(generator, answers, cuts, index, failed, length);
      }
    }
  }

  lemma WithinFirstRound(generator: Generator, answers: seq<Pulled>, index: nat, failed: bool, length: nat)
    requires FollowsTo(generator, answers, [], index, failed) && HasCut(generator, 0, length)
    requires forall i: nat :: i < length ==> generator(0)(i).Some?
    ensures forall k: nat :: k < length && k < |answers| ==> answers[k] == Yielded(generator(0)(k).value)
    ensures length <= |answers| ==> Follows(Later(generator), answers[length..])
  {
    CutSome(generator, 0, length);
    TakenWithinCut(generator, 0, index, failed, length);
    hide HasCut, Follows;
    NoneJoined(generator);
    if length <= |answers| {
      assert |answers| == length == index;
      assert answers[length..] == [];
      NothingFollows(Later(generator));
    }
  }

  lemma BehindFirstRound(generator: Generator, answers: seq<Pulled>, cuts: seq<nat>, index: nat, failed: bool)
    requires FollowsTo(generator, answers, cuts, index, failed) && cuts != []
    requires forall i: nat :: i < cuts[0] ==> generator(0)(i).Some?
    ensures forall k: nat :: k < cuts[0] && k < |answers| ==> answers[k] == Yielded(generator(0)(k).value)
  {
    hide HasCut, Taken, Joined, Later;
    LaterJoined(generator, cuts);
  }

  lemma LaterAnswers(generator: Generator, answers: seq<Pulled>, cuts: seq<nat>, index: nat, failed: bool, length: nat)
    requires FollowsTo(generator, answers, cuts, index, failed) && cuts != [] && cuts[0] == length <= |answers|
    ensures Follows(Later(generator), answers[length..])
  {
    LaterJoined(generator, cuts);
    TakenSome(generator, |cuts|, index, failed);
    LaterFront(generator, |cuts|, index);
    LaterTaken(generator, |cuts|, index, failed);
    var stream, rest := Stream(generator, cuts, index, failed), Stream(Later(generator), cuts[1..], index, failed);
    assert stream == Front(generator, 0, length) + rest;
    assert FollowsTo(Later(generator), answers[length..], cuts[1..], index, failed);
  }

  lemma LaterTaken(generator: Generator, round: nat, index: nat, failed: bool)
    requires 0 < round && Taken(generator, round, index, failed)
    ensures Taken(Later(generator), round - 1, index, failed)
  {
  }

  /** A first sequence that never ends and never errs is all there is. */
  lemma EndlessRound(generator: Generator, answers: seq<Pulled>)
    requires Follows(generator, answers)
    requires forall i: nat :: generator(0)(i).Some? && !generator(0)(i).value.failed
    ensures forall k: nat :: k < |answers| ==> answers[k] == Yielded(generator(0)(k).value)
  {
    var cuts, index, failed :| FollowsTo(generator, answers, cuts, index, failed);
    forall length: nat
      ensures !HasCut(generator, 0, length)
    {
      NeverCut(generator, length);
    }
    hide HasCut, Taken;
    if cuts != [] {
      FirstCut(generator, cuts);
      assert false;
    }
    NoneJoined(generator);
  }

  lemma NeverCut(generator: Generator, length: nat)
    requires forall i: nat :: generator(0)(i).Some? && !generator(0)(i).value.failed
    ensures !HasCut(generator, 0, length)
  {
  }

  /** The coroutine behind PullIDs: suspended after the element it last yielded. */
  class Puller {
    const generator: Generator
    var round: nat          // the sequence being consumed
    var index: nat          // elements taken from it
    var failed: bool        // its last element carried an error
    var started: nat        // generator calls made so far
    var ended: bool
    ghost var stopped: bool
    ghost var cuts: seq<nat>
    ghost var answers: seq<Pulled>

    /** The round number counts the non-empty sequences used up; everything answered so far is the
        joined stream, then Eof; only an empty sequence or Stop ends it. */
    ghost predicate Valid()
      reads this
    {
      && |cuts| == round && Cuts(generator, cuts) && Taken(generator, round, index, failed)
      && Answers(answers, Stream(generator, cuts, index, failed), ended)
      && (started == round + 1 || (started == 0 && round == 0 && index == 0))
      && (ended && !stopped ==> started == round + 1 && index == 0 && generator(round)(0).None?)
    }

    /** What was answered so far follows the generator. */
    lemma AnswersFollow()
      requires Valid() && !stopped
      ensures Follows(generator, answers)
    {
      assert FollowsTo(generator, answers, cuts, index, failed);
    }

    constructor (generator: Generator)
      ensures Valid() && this.generator == generator && answers == [] && started == 0 && !ended && !stopped
    {
      this.generator := generator;
      round, index, failed, started, ended := 0, 0, false, 0, false;
      stopped, cuts, answers := false, [], [];
    }

    /** Starts a generator only when the one before it is used up; each call adds one answer. */
    method Next() returns (r: Pulled)
      requires Valid()
      modifies this
      ensures Valid() && answers == old(answers) + [r] && stopped == old(stopped)
      ensures old(ended) ==> ended && r == Eof && started == old(started) && round == old(round)
      ensures r == Eof ==> ended
      ensures old(started) <= started <= old(started) + 1
    {
      if ended {
        answers := answers + [Eof];
        return Eof;
      }
      if started == 0 {
        started := 1;
      }
      if 0 < index && (failed || generator(round)(index).None?) {
        StartNext();
      }
      var item := generator(round)(index);
      if item.None? {
        ended := true;
        answers := answers + [Eof];
        return Eof;
      }
      Yield(item.value);
      return Yielded(item.value);
    }

    method StartNext()
      requires Valid() && !ended && 0 < index && (failed || generator(round)(index).None?)
      modifies this
      ensures Valid() && !ended && index == 0 && !failed && round == old(round) + 1
      ensures started == old(started) + 1 && answers == old(answers) && stopped == old(stopped)
    {
      CloseRound(generator, cuts, index, failed);
      cuts := cuts + [index];
      round, index, failed, started := round + 1, 0, false, started + 1;
    }

    method Yield(item: Item)
      requires Valid() && !ended && !failed && 0 < started && generator(round)(index) == Some(item)
      modifies this
      ensures Valid() && !ended && answers == old(answers) + [Yielded(item)]
      ensures started == old(started) && stopped == old(stopped)
    {
      TakeOne(generator, cuts, index);
      index, failed := index + 1, item.failed;
      answers := answers + [Yielded(item)];
    }

    method Stop()
      requires Valid()
      modifies this
      ensures Valid() && ended && answers == old(answers) && started == old(started)
    {
      ended, stopped := true, true;
    }
  }
}
