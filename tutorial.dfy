/**
 * The first-visit tutorial (showTutorialStep, script.js:287-312, and the
 * Prev/Next handlers, script.js:428-440): a step counter over the nine
 * entries of tutorialSteps (script.js:248-285) and the two navigation
 * buttons whose `disabled` flags showTutorialStep sets. Texts, highlighting
 * and the modal's visibility are left to the DOM.
 */
module Tutorial {

  /** The number of entries of tutorialSteps. */
  const StepCount: nat := 9

  /** Index of the last step. */
  const LastStep: nat := StepCount - 1

  /** The step the Prev handler moves to: one back, unless already at the first. */
  function StepAfterPrev(step: nat): (r: nat)
    ensures r <= step
    ensures r == step <==> step == 0
    ensures step > 0 ==> r + 1 == step
  {
    if step > 0 then step - 1 else step
  }

  /** The step the Next handler moves to: one on, unless already at the last. */
  function StepAfterNext(step: nat): (r: nat)
    ensures r >= step
    ensures r == step <==> step >= LastStep
    ensures step < LastStep ==> r == step + 1
  {
    if step < LastStep then step + 1 else step
  }

  /** Both moves keep the counter on an existing step. */
  lemma NavigationStaysInRange(step: nat)
    requires step <= LastStep
    ensures StepAfterPrev(step) <= LastStep && StepAfterNext(step) <= LastStep
  {
  }

  /** Next undoes Prev, and Prev undoes Next, away from the end they stop at. */
  lemma NavigationInverse(step: nat)
    requires step <= LastStep
    ensures step > 0 ==> StepAfterNext(StepAfterPrev(step)) == step
    ensures step < LastStep ==> StepAfterPrev(StepAfterNext(step)) == step
  {
  }

  /** The step after pressing Next `presses` times. */
  function NextPresses(step: nat, presses: nat): nat
    decreases presses
  {
    if presses == 0 then step else NextPresses(StepAfterNext(step), presses - 1)
  }

  /** From any step, enough Next presses reach the last one and stay there. */
  lemma {:induction false} NextReachesLast(step: nat, presses: nat)
    requires step <= LastStep && step + presses >= LastStep
    ensures NextPresses(step, presses) == LastStep
    decreases presses
  {
    if presses > 0 {
      NextReachesLast(StepAfterNext(step), presses - 1);
    }
  }

  /** The tutorial modal: the global tutorialStep and the two buttons. */
  class TutorialModal {
    var step: nat
    var prevDisabled: bool
    var nextDisabled: bool

    /** The counter is on an existing step and the buttons show whether a move is possible. */
    ghost predicate Valid()
      reads this
    {
      && step <= LastStep
      && prevDisabled == (step == 0)
      && nextDisabled == (step == LastStep)
    }

    /** First load: tutorialStep starts at 0 and showTutorialStep(0) sets the buttons. */
    constructor Open()
      ensures Valid() && step == 0
      ensures prevDisabled && !nextDisabled
    {
      step := 0;
      prevDisabled := true;
      nextDisabled := LastStep == 0;
    }

    /** showTutorialStep(step): sets the buttons for the current step. */
    method Show()
      requires step <= LastStep
      modifies this
      ensures step == old(step)
      ensures Valid()
    {
      prevDisabled := step == 0;
      nextDisabled := step == LastStep;
    }

    /** The Prev button: step back and redraw, unless already at the first step. */
    method Prev()
      requires Valid()
      modifies this
      ensures Valid()
      ensures step == StepAfterPrev(old(step))
      ensures old(step) == 0 ==> unchanged(this)
    {
      if step > 0 {
        step := step - 1;
        Show();
      }
    }

    /** The Next button: step on and redraw, unless already at the last step. */
    method Next()
      requires Valid()
      modifies this
      ensures Valid()
      ensures step == StepAfterNext(old(step))
      ensures old(step) == LastStep ==> unchanged(this)
    {
      if step < LastStep {
        step := step + 1;
        Show();
      }
    }
  }
}
