/** `st top`: move to the tip of the stack. */
module TopCmd {
  import opened Stacks
  import opened Repo

  /** The decision `top` takes. It has no current-branch parameter: the command never
      reads HEAD, so its decision depends on the stack alone. */
  function Resolve(stack: seq<BranchName>): (o: Outcome)
    ensures o.NoStackFound? <==> |stack| <= 1
    ensures o.NoStackFound? || o.MoveTo?
    ensures o.MoveTo? ==> o.target == stack[|stack| - 1]
  {
    if |stack| <= 1 then Outcome.NoStackFound else MoveTo(stack[|stack| - 1])
  }

  /** `TopCmd::run`: errors of discovery and of the checkout are returned unchanged,
      and the repository changes only on a reported move, to the branch reported. */
  method Run(repo: Repository, discovered: Result<seq<BranchName>>,
             checkoutFault: Option<VcsError>)
    returns (r: Result<Report>)
    modifies repo
    ensures discovered.Err? ==> r == Err(discovered.error)
    ensures discovered.Ok? ==> r == Reported(Resolve(discovered.value), checkoutFault)
    ensures repo.current == if r.Ok? && r.value.Moved? then r.value.branch else old(repo.current)
    ensures discovered.Ok? ==>
      repo.checkouts == old(repo.checkouts) + Checkouts(Resolve(discovered.value))
    ensures discovered.Err? ==> repo.checkouts == old(repo.checkouts)
  {
    if discovered.Err? {
      return Err(discovered.error);
    }
    var stack := discovered.value;
    if |stack| <= 1 {
      return Err(StError.NoStackFound);
    }
    r := ApplyOutcome(repo, Resolve(stack), checkoutFault);
  }
}
