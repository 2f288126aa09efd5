/**
 * The active-task card: its `isCompleted` and `showConfetti` state, the
 * once-only completion toggle, and the parts of the card that depend on them.
 * The sounds and the timer of the toggle are not modelled.
 */
module ActiveTask {

  /** What the card shows besides the task text. */
  datatype Card = Card(checkmark: bool, ripple: bool, dimmedText: bool, strikethrough: bool,
                       completionMessage: bool, newTaskButton: bool)

  class ActiveTaskState {
    var isCompleted: bool
    var showConfetti: bool
    /** the `onComplete` calls made since `isCompleted` was last set from a `false` prop */
    ghost var completionsReported: nat

    /** `onComplete` has been called at most once, and only if the task now shows as completed. */
    ghost predicate Valid()
      reads this
    {
      completionsReported <= 1 && (completionsReported == 1 ==> isCompleted)
    }

    /** Mounting: `isCompleted` starts as the prop `task.completed`, no confetti. */
    constructor (taskCompleted: bool)
      ensures Valid()
      ensures isCompleted == taskCompleted && !showConfetti && completionsReported == 0
    {
      isCompleted := taskCompleted;
      showConfetti := false;
      completionsReported := 0;
    }

    /**
     * The effect on `[task.completed]`: the state follows the prop. React runs
     * it on mount and whenever the prop's value changes, so a caller that
     * leaves the prop `false` after a failed completion never runs it again:
     * the card then stays completed and cannot call `onComplete` again.
     */
    method SyncCompleted(taskCompleted: bool)
      requires Valid()
      modifies this
      ensures Valid()
      ensures isCompleted == taskCompleted && showConfetti == old(showConfetti)
      ensures completionsReported == if taskCompleted then old(completionsReported) else 0
    {
      isCompleted := taskCompleted;
      if !taskCompleted {
        completionsReported := 0;
      }
    }

    /**
     * `handleToggle`: the first toggle of an incomplete task marks it
     * completed, starts the confetti and calls `onComplete` (reported as
     * `calledOnComplete`); a toggle of a completed task does nothing.
     */
    method HandleToggle() returns (calledOnComplete: bool)
      requires Valid()
      modifies this
      ensures Valid()
      ensures calledOnComplete <==> !old(isCompleted)
      ensures isCompleted
      ensures showConfetti == (calledOnComplete || old(showConfetti))
      ensures completionsReported == old(completionsReported) + (if calledOnComplete then 1 else 0)
    {
      calledOnComplete := false;
      if !isCompleted {
        isCompleted := true;
        showConfetti := true;
        calledOnComplete := true;
        completionsReported := completionsReported + 1;
      }
    }

    /** `handleConfettiComplete`: the confetti stops; completion is untouched. */
    method HandleConfettiComplete()
      requires Valid()
      modifies this`showConfetti
      ensures Valid()
      ensures !showConfetti
    {
      showConfetti := false;
    }

    /**
     * The checkmark, the dimmed text, the strikethrough, the completion message
     * and the new-task button show exactly when completed; the ripple exactly
     * while the confetti runs.
     */
    function Render(): (c: Card)
      reads this
      ensures c.checkmark == c.dimmedText == c.strikethrough == isCompleted
      ensures c.completionMessage == c.newTaskButton == isCompleted
      ensures c.ripple == showConfetti
    {
      Card(isCompleted, showConfetti, isCompleted, isCompleted, isCompleted, isCompleted)
    }
  }
}
