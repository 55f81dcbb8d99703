/** The part of the git repository the navigation commands touch: the branch that is
    checked out. Reading it and checking out another branch are git operations this
    model does not implement; whether they fail is an input (`fault`), and when they
    fail the error is passed on unchanged and nothing moves.
 */
module Repo {
  import opened Stacks

  class Repository {
    /** The branch currently checked out (HEAD). */
    var current: BranchName
    /** Every branch a checkout was asked for, in order, whether or not it succeeded. */
    ghost var checkouts: seq<BranchName>

    constructor (head: BranchName)
      ensures current == head && checkouts == []
    {
      current := head;
      checkouts := [];
    }

    /** `current_branch_name`: the checked-out branch, or the git layer's error. */
    method CurrentBranchName(fault: Option<VcsError>) returns (r: Result<BranchName>)
      ensures fault.Some? ==> r == Err(Vcs(fault.value))
      ensures fault.None? ==> r == Ok(current)
    {
      if fault.Some? {
        r := Err(Vcs(fault.value));
      } else {
        r := Ok(current);
      }
    }

    /** `checkout_branch`: atomic; either HEAD moves to `target` or the error comes back
        and HEAD stays where it was. */
    method CheckoutBranch(target: BranchName, fault: Option<VcsError>) returns (r: Result<()>)
      modifies this
      ensures fault.Some? ==> r == Err(Vcs(fault.value)) && current == old(current)
      ensures fault.None? ==> r == Ok(()) && current == target
      ensures checkouts == old(checkouts) + [target]
    {
      checkouts := checkouts + [target];
      if fault.Some? {
        r := Err(Vcs(fault.value));
      } else {
        current := target;
        r := Ok(());
      }
    }
  }

  /** Carries out a command's decision on the repository: errors are returned, a
      boundary is reported without touching the repository, and a move makes exactly
      one checkout, whose error is returned unchanged. */
  method ApplyOutcome(repo: Repository, o: Outcome, checkoutFault: Option<VcsError>)
    returns (r: Result<Report>)
    modifies repo
    ensures r == Reported(o, checkoutFault)
    ensures repo.current == if r.Ok? && r.value.Moved? then r.value.branch else old(repo.current)
    ensures repo.checkouts == old(repo.checkouts) + Checkouts(o)
  {
    match o
    case NoStackFound =>
      r := Err(StError.NoStackFound);
    case BranchNotTracked(name) =>
      r := Err(StError.BranchNotTracked(name));
    case AlreadyAtBoundary(name) =>
      r := Ok(Stayed(name));
    case MoveTo(target) =>
      var done := repo.CheckoutBranch(target, checkoutFault);
      if done.Err? {
        r := Err(done.error);
      } else {
        r := Ok(Moved(target));
      }
  }
}
