/**
 * Closing and reopening an engagement: two updates of its `active` flag and `status`.
 * Saving the engagement and closing a linked issue-tracker epic are not part of this model.
 */
module EngagementLifecycle {
  const Completed: string := "Completed"
  const InProgress: string := "In Progress"

  /** The engagement fields the two helpers touch, and its name, which they leave alone. */
  class Engagement {
    var name: string
    var active: bool
    var status: string

    constructor (name: string, active: bool, status: string)
      ensures this.name == name && this.active == active && this.status == status
    {
      this.name := name;
      this.active := active;
      this.status := status;
    }

    /** A closed engagement is inactive and completed. */
    predicate IsClosed()
      reads this
    {
      !active && status == Completed
    }

    /** A reopened engagement is active and in progress. */
    predicate IsInProgress()
      reads this
    {
      active && status == InProgress
    }

    /** Marks the engagement inactive and completed; only those two fields change. */
    method Close()
      modifies this`active, this`status
      ensures !active && status == Completed
      ensures IsClosed() && !IsInProgress()
      ensures name == old(name)
    {
      active := false;
      status := Completed;
    }

    /** Marks the engagement active and in progress; only those two fields change. */
    method Reopen()
      modifies this`active, this`status
      ensures active && status == InProgress
      ensures IsInProgress() && !IsClosed()
      ensures name == old(name)
    {
      active := true;
      status := InProgress;
    }
  }
}
