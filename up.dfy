/** `st up`: move to the branch above the current one in the stack. */
module UpCmd {
  import opened Stacks
  import opened Repo

  /** The decision `up` takes: no stack when only trunk (or nothing) was discovered,
      an error when the current branch is not in the stack, a no-op when the first
      occurrence of the current branch is the last index, and otherwise a move to the
      branch just above that first occurrence. */
  function Resolve(stack: seq<BranchName>, current: BranchName): (o: Outcome)
    ensures o.NoStackFound? <==> |stack| <= 1
    ensures o.BranchNotTracked? <==> |stack| > 1 && current !in stack
    ensures o.BranchNotTracked? ==> o.name == current
    ensures o.AlreadyAtBoundary? <==>
      |stack| > 1 && stack[|stack| - 1] == current && current !in stack[..|stack| - 1]
    ensures o.AlreadyAtBoundary? ==> o.name == current
    ensures o.MoveTo? ==>
      exists i | 0 <= i < |stack| - 1 ::
        stack[i] == current && current !in stack[..i] && o.target == stack[i + 1]
  {
    if |stack| <= 1 then Outcome.NoStackFound
    else
      match Position(stack, current)
      case None => Outcome.BranchNotTracked(current)
      case Some(i) =>
        assert current !in stack[..i];
        if i == |stack| - 1 then AlreadyAtBoundary(current)
        else MoveTo(stack[i + 1])
  }

  /** `UpCmd::run`: the same guards and error passing as `down`, with the move going
      one index up instead of one down. */
  method Run(repo: Repository, discovered: Result<seq<BranchName>>,
             readFault: Option<VcsError>, checkoutFault: Option<VcsError>)
    returns (r: Result<Report>)
    modifies repo
    ensures discovered.Err? ==> r == Err(discovered.error)
    ensures discovered.Ok? && |discovered.value| <= 1 ==> r == Err(StError.NoStackFound)
    ensures discovered.Ok? && |discovered.value| > 1 && readFault.Some? ==>
      r == Err(Vcs(readFault.value))
    ensures discovered.Ok? && |discovered.value| > 1 && readFault.None? ==>
      r == Reported(Resolve(discovered.value, old(repo.current)), checkoutFault)
    ensures repo.current == if r.Ok? && r.value.Moved? then r.value.branch else old(repo.current)
    ensures discovered.Ok? && |discovered.value| > 1 && readFault.None? ==>
      repo.checkouts == old(repo.checkouts) + Checkouts(Resolve(discovered.value, old(repo.current)))
    ensures !(discovered.Ok? && |discovered.value| > 1 && readFault.None?) ==>
      repo.checkouts == old(repo.checkouts)
  {
    if discovered.Err? {
      return Err(discovered.error);
    }
    var stack := discovered.value;
    if |stack| <= 1 {
      return Err(StError.NoStackFound);
    }
    var head := repo.CurrentBranchName(readFault);
    if head.Err? {
      return Err(head.error);
    }
    r := ApplyOutcome(repo, Resolve(stack, head.value), checkoutFault);
  }
}
