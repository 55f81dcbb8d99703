/** `st bottom`: move to the first branch after trunk. */
module BottomCmd {
  import opened Stacks
  import opened Repo

  /** The decision `bottom` takes. Like `top`, it never reads HEAD. */
  function Resolve(stack: seq<BranchName>): (o: Outcome)
    ensures o.NoStackFound? <==> |stack| <= 1
    ensures o.NoStackFound? || o.MoveTo?
    ensures o.MoveTo? ==> o.target == stack[1]
  {
    if |stack| <= 1 then Outcome.NoStackFound else MoveTo(stack[1])
  }

  /** `BottomCmd::run`: errors of discovery and of the checkout are returned unchanged,
      and the repository changes only on a reported move, to the branch reported. */
  method Run(repo: Repository, discovered: Result<seq<BranchName>>,
             checkoutFault: Option<VcsError>)
    returns (r: Result<Report>)
    modifies repo
    ensures discovered.Err? ==> r == Err(discovered.error)
    ensures discovered.Ok? ==> r == Reported(Resolve(discovered.value), checkoutFault)
    ensures repo.current == if r.Ok? && r.value.Moved? then r.value.branch else old(repo.current)
    ensures discovered.Ok? ==>
      repo.checkouts == old(repo.checkouts) + Checkouts(Resolve(discovered.value))
    ensures discovered.Err? ==> repo.checkouts == old(repo.checkouts)
  {
    if discovered.Err? {
      return Err(discovered.error);
    }
    var stack := discovered.value;
    if |stack| <= 1 {
      return Err(StError.NoStackFound);
    }
    r := ApplyOutcome(repo, Resolve(stack), checkoutFault);
  }
}
