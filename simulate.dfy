/**
 * The Simulate rules (simulate/simulate/game.py), a Simon game: the game plays
 * a pattern of coloured buttons one longer each round, and the player must
 * repeat it.  One frame of the main loop is one Step, given the button pressed
 * during the frame (if any), the button the game would draw at random, and
 * whether the input timeout has passed.
 */
module Simulate {
  import opened Options

  datatype Button = Yellow | Blue | Red | Green

  class Game {
    /** The buttons the player has to repeat, in order. */
    var pattern: seq<Button>
    /** How many buttons of the pattern the player has repeated so far this round. */
    var currentStep: nat
    var score: nat
    /** False while the pattern is being played, true while the player enters it. */
    var waitingForInput: bool

    /**
     * Each completed round added one button to the pattern, and the round in
     * progress added one more once it was played; the player is always
     * somewhere inside the pattern.
     */
    ghost predicate Valid()
      reads this
    {
      |pattern| == score + (if waitingForInput then 1 else 0) &&
      (waitingForInput ==> currentStep < |pattern|) &&
      (!waitingForInput ==> currentStep == 0)
    }

    /** The fields, as a value. */
    ghost function Snapshot(): (s: State)
      reads this
      ensures Valid() <==> Inv(s)
    {
      State(pattern, currentStep, score, waitingForInput)
    }

    constructor ()
      ensures Valid() && Snapshot() == Initial
      ensures pattern == [] && currentStep == 0 && score == 0 && !waitingForInput
    {
      pattern := [];
      currentStep := 0;
      score := 0;
      waitingForInput := false;
    }

    /**
     * One pass of the main loop.  When the pattern is not being entered, the
     * game appends `drawn` to it, plays it and starts waiting.  Otherwise the
     * right button advances the player one step, and the last step of the
     * pattern scores a point and ends the round; a wrong button, or the timeout
     * once the player has started entering the pattern, ends the game and
     * starts a new one.
     */
    method Step(clicked: Option<Button>, drawn: Button, timedOut: bool)
      requires Valid()
      modifies this
      ensures Valid()
      ensures Snapshot() == Next(old(Snapshot()), clicked, drawn, timedOut)
      ensures !old(waitingForInput) ==>
        pattern == old(pattern) + [drawn] && waitingForInput &&
        currentStep == old(currentStep) && score == old(score)
      ensures old(waitingForInput) && clicked == Some(old(pattern[currentStep])) ==>
        pattern == old(pattern) &&
        if old(currentStep) + 1 == |pattern| then
          score == old(score) + 1 && currentStep == 0 && !waitingForInput
        else
          score == old(score) && currentStep == old(currentStep) + 1 && waitingForInput
      ensures old(waitingForInput) && clicked != Some(old(pattern[currentStep])) &&
              (clicked.Some? || (old(currentStep) != 0 && timedOut)) ==>
        pattern == [] && currentStep == 0 && score == 0 && !waitingForInput
      ensures old(waitingForInput) && clicked.None? && (old(currentStep) == 0 || !timedOut) ==>
        pattern == old(pattern) && currentStep == old(currentStep) && score == old(score) && waitingForInput
    {
      if !waitingForInput {
        pattern := pattern + [drawn];
        waitingForInput := true;
      } else if clicked.Some? && clicked.value == pattern[currentStep] {
        currentStep := currentStep + 1;
        if currentStep == |pattern| {
          score := score + 1;
          waitingForInput := false;
          currentStep := 0;
        }
      } else if (clicked.Some? && clicked.value != pattern[currentStep]) || (currentStep != 0 && timedOut) {
        pattern := [];
        currentStep := 0;
        waitingForInput := false;
        score := 0;
      }
    }
  }

  /** The game state, as a value. */
  datatype State = State(pattern: seq<Button>, currentStep: nat, score: nat, waitingForInput: bool)

  /** The invariant Game.Valid, on values. */
  predicate Inv(s: State) {
    |s.pattern| == s.score + (if s.waitingForInput then 1 else 0) &&
    (s.waitingForInput ==> s.currentStep < |s.pattern|) &&
    (!s.waitingForInput ==> s.currentStep == 0)
  }

  /** The state a new game starts in. */
  const Initial := State([], 0, 0, false)

  /** One pass of the main loop, on values: the specification of Game.Step. */
  function Next(s: State, clicked: Option<Button>, drawn: Button, timedOut: bool): (r: State)
    requires Inv(s)
    ensures Inv(r)
  {
    if !s.waitingForInput then
      s.(pattern := s.pattern + [drawn], waitingForInput := true)
    else if clicked.Some? && clicked.value == s.pattern[s.currentStep] then
      if s.currentStep + 1 == |s.pattern| then
        s.(score := s.score + 1, currentStep := 0, waitingForInput := false)
      else
        s.(currentStep := s.currentStep + 1)
    else if (clicked.Some? && clicked.value != s.pattern[s.currentStep]) || (s.currentStep != 0 && timedOut) then
      Initial
    else
      s
  }

  /** The states the player's presses lead through, one frame per press, with no timeout. */
  function Replay(s: State, presses: seq<Button>, drawn: Button): (r: State)
    requires Inv(s)
    ensures Inv(r)
    decreases |presses|
  {
    if presses == [] then s
    else Replay(Next(s, Some(presses[0]), drawn, false), presses[1..], drawn)
  }

  /**
   * A player who presses the rest of the pattern correctly ends the round: the
   * pattern is kept, the score is one higher and the game plays the pattern
   * again (with one more button) on the next frame.
   */
  lemma {:induction false} FinishRound(s: State, drawn: Button)
    requires Inv(s) && s.waitingForInput
    ensures Replay(s, s.pattern[s.currentStep..], drawn) == State(s.pattern, 0, s.score + 1, false)
    decreases |s.pattern| - s.currentStep
  {
    var presses := s.pattern[s.currentStep..];
    var n := Next(s, Some(s.pattern[s.currentStep]), drawn, false);
    assert presses[0] == s.pattern[s.currentStep];
    if s.currentStep + 1 == |s.pattern| {
      assert presses[1..] == [];
    } else {
      assert presses[1..] == n.pattern[n.currentStep..];
      FinishRound(n, drawn);
    }
  }

  /**
   * Scoring needs the whole pattern: a player who has pressed only part of
   * it correctly, from the start of a round, has not scored.
   */
  lemma {:induction false} PartialRoundDoesNotScore(s: State, k: nat, drawn: Button)
    requires Inv(s) && s.waitingForInput && s.currentStep == 0 && k < |s.pattern|
    ensures Replay(s, s.pattern[..k], drawn) == s.(currentStep := k)
    decreases k
  {
    if k > 0 {
      PartialRoundDoesNotScore(s, k - 1, drawn);
      ReplaySnoc(s, s.pattern[..k - 1], s.pattern[k - 1], drawn);
      assert s.pattern[..k] == s.pattern[..k - 1] + [s.pattern[k - 1]];
    }
  }

  /** Replaying one more press is one more Next. */
  lemma {:induction false} ReplaySnoc(s: State, presses: seq<Button>, b: Button, drawn: Button)
    requires Inv(s)
    ensures Replay(s, presses + [b], drawn) == Next(Replay(s, presses, drawn), Some(b), drawn, false)
    decreases |presses|
  {
    if presses == [] {
      assert [b][1..] == [];
    } else {
      assert (presses + [b])[1..] == presses[1..] + [b];
      ReplaySnoc(Next(s, Some(presses[0]), drawn, false), presses[1..], b, drawn);
    }
  }
}
