/** Vocabulary shared by the four navigation commands (`top`, `bottom`, `up`, `down`):
    branch names, the discovered stack, the error kinds they can return, the decision a
    command takes over the stack, and the first-index search used to place the current
    branch in the stack.

    A stack is a sequence of branch names with trunk at index 0 and the tip of the stack
    at the last index.
 */
module Stacks {

  type BranchName = string

  datatype Option<T> = None | Some(value: T)

  /** A failure reported by the git layer (reading HEAD, checking out a branch,
      discovering the stack); it is passed on to the caller as it is. */
  datatype VcsError = VcsError(message: string)

  /** The errors the navigation commands return. */
  datatype StError =
    | NoStackFound
    | BranchNotTracked(name: BranchName)
    | Vcs(cause: VcsError)

  /** The result type of every command (`StResult`). */
  datatype Result<T> = Ok(value: T) | Err(error: StError)

  /** What a navigation command decides once it knows the stack (and, for `up` and
      `down`, the current branch): fail, stay where it is, or check out one branch. */
  datatype Outcome =
    | NoStackFound
    | BranchNotTracked(name: BranchName)
    | AlreadyAtBoundary(name: BranchName)
    | MoveTo(target: BranchName)

  /** What a successful command reports to the user: it stayed on `branch` (already at
      trunk, already at the top), or it moved to `branch`. */
  datatype Report = Stayed(branch: BranchName) | Moved(branch: BranchName)

  /** No branch name occurs twice in the stack. */
  predicate Distinct(stack: seq<BranchName>) {
    forall i, j | 0 <= i < j < |stack| :: stack[i] != stack[j]
  }

  /** The index of the FIRST occurrence of `name` in `stack`, if any (the iterator
      `position` the commands use to locate the current branch). */
  function Position(stack: seq<BranchName>, name: BranchName): (r: Option<nat>)
    ensures r.None? <==> name !in stack
    ensures r.Some? ==> r.value < |stack| && stack[r.value] == name
    ensures r.Some? ==> forall j | 0 <= j < r.value :: stack[j] != name
  {
    if |stack| == 0 then None
    else if stack[0] == name then Some(0)
    else
      match Position(stack[1..], name)
      case None => None
      case Some(i) => Some(i + 1)
  }

  /** In a stack without repeated names, every branch is found at its own index. */
  lemma PositionOfDistinct(stack: seq<BranchName>, i: nat)
    requires Distinct(stack) && i < |stack|
    ensures Position(stack, stack[i]) == Some(i)
  {
  }

  /** The command's result for an outcome, given whether the checkout it may ask the
      git layer for fails (and with which error). */
  function Reported(o: Outcome, checkoutFault: Option<VcsError>): Result<Report> {
    match o
    case NoStackFound => Err(StError.NoStackFound)
    case BranchNotTracked(name) => Err(StError.BranchNotTracked(name))
    case AlreadyAtBoundary(name) => Ok(Stayed(name))
    case MoveTo(target) =>
      if checkoutFault.Some? then Err(Vcs(checkoutFault.value)) else Ok(Moved(target))
  }

  /** The current branch after an outcome has been carried out from `head` with a
      checkout that succeeds. */
  function Landing(head: BranchName, o: Outcome): BranchName {
    if o.MoveTo? then o.target else head
  }

  /** The checkouts an outcome asks the git layer for: one for a move, none otherwise. */
  function Checkouts(o: Outcome): seq<BranchName> {
    if o.MoveTo? then [o.target] else []
  }
}
