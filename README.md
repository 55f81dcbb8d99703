# Stack navigation in `st`

`st` manages stacks of dependent git branches. A stack is an ordered chain of branch
names with trunk first and the tip of the stack last. This project models the four
local navigation commands, each of which picks one branch of the current stack and
checks it out:

- `top` moves to the last branch of the stack.
- `bottom` moves to the first branch after trunk.
- `up` moves to the branch just above the current one.
- `down` moves to the branch just below the current one.

All four first refuse a stack that holds only trunk (`NoStackFound`). `up` and `down`
then read the current branch and look up its first occurrence in the stack. A branch
that is not in the stack is an error (`BranchNotTracked` with that name). Being at the
top (for `up`) or at trunk (for `down`) is a success that moves nowhere. Otherwise one
checkout is made. Errors of the git layer are passed on unchanged.

Layout, one module per source file plus two shared ones:

- `stacks.dfy`, module `Stacks`: branch names, the error kinds (`StError`), the result
  type, the decision a command takes (`Outcome`: `NoStackFound`,
  `BranchNotTracked(name)`, `AlreadyAtBoundary(name)`, `MoveTo(target)`), what a
  successful run reports (`Report`: `Stayed` or `Moved`), and `Position`, the
  first-index search.
- `repository.dfy`, module `Repo`: class `Repository`. Its field `current` is the
  checked-out branch. A ghost field, `checkouts`, logs every checkout asked for. It also holds `ApplyOutcome`, which carries out a decision on the
  repository.
- `down.dfy`, `up.dfy`, `top.dfy`, `bottom.dfy`, modules `DownCmd`, `UpCmd`, `TopCmd`,
  `BottomCmd`. Each has a pure `Resolve` (the decision) and a `Run` method (the
  command's `run`).
- `laws.dfy`, module `NavigationLaws`: properties that relate the commands to each
  other. `up` and `down` undo each other. `up` from trunk goes where `bottom` goes.
  After `top`, `up` stays put. `top` and `bottom` are idempotent. Repeated `up` reaches
  the branch `top` picks, and repeated `down` reaches trunk. It also has client methods
  that show the same laws on a `Repository`.

Collaborators the model does not implement are inputs:

- Stack discovery is the `discovered: Result<seq<BranchName>>` parameter of each `Run`.
- Reading HEAD may fail. Its failure is the `readFault` parameter.
- A checkout may fail. Its failure is the `checkoutFault` parameter.

The code comments at `src/subcommands/local/down.rs:35` ("can't go up") and
`src/subcommands/local/up.rs:35` ("trunk branch") describe the other command. The model
follows the code. Each command raises `NoStackFound` through its own length check
(`down.rs:22-24`, `up.rs:22-24`, `top.rs:22-24`, `bottom.rs:22-24`), not through
discovery.

The inverse law and most other laws need the stack's names to be distinct. A stack of
branches does have distinct names, but nothing in this model enforces it. So the laws
take `Distinct(stack)` as a precondition. `NavigationLaws.UpDownNeedDistinctNames`
shows a stack with a repeated name on which `up` followed by `down` does not return.

## Model

| member | source | states |
|---|---|---|
| `Stacks.Position` | src/subcommands/local/down.rs:30-33 | the result is the index of the first occurrence of the name, and it is absent exactly when the name is not in the stack |
| `Stacks.PositionOfDistinct` | src/subcommands/local/up.rs:30-33 | in a stack without repeated names, each branch is found at its own index |
| `Repo.Repository.CurrentBranchName` | src/subcommands/local/up.rs:27 | reading HEAD returns the checked-out branch, or the git error unchanged |
| `Repo.Repository.CheckoutBranch` | src/subcommands/local/down.rs:47 | the checkout is atomic: HEAD becomes the target, or the error comes back and HEAD is unchanged; either way exactly one checkout, of the target, is logged |
| `Repo.ApplyOutcome` | src/subcommands/local/down.rs:36-49 | an error or a boundary makes no checkout; a move makes exactly one checkout, of its target, and returns that checkout's error unchanged; HEAD changes only on a reported move, to the reported branch |
| `DownCmd.Resolve` | src/subcommands/local/down.rs:22-44 | `NoStackFound` exactly when the stack has at most one branch; `BranchNotTracked(current)` exactly when the current branch is missing from a longer stack; a no-op exactly when the current branch is trunk; otherwise a move to the branch just below the first occurrence of the current branch |
| `DownCmd.Run` | src/subcommands/local/down.rs:17-52 | discovery errors pass unchanged; `NoStackFound` is decided before HEAD is read, so it wins over a read error; read and checkout errors pass unchanged; otherwise the result is the one `Resolve` decides for the HEAD read; exactly one checkout is made when that decision is a move and none otherwise (none on any earlier error); HEAD moves only on a reported move |
| `UpCmd.Resolve` | src/subcommands/local/up.rs:22-44 | `NoStackFound` exactly when the stack has at most one branch; `BranchNotTracked(current)` exactly when the current branch is missing; a no-op exactly when the first occurrence of the current branch is the last index; otherwise a move to the branch just above that first occurrence |
| `UpCmd.Run` | src/subcommands/local/up.rs:17-52 | same guards, order and error passing as `down`, with the decision of `UpCmd.Resolve`; one checkout exactly when that decision is a move, none otherwise; HEAD moves only on a reported move |
| `TopCmd.Resolve` | src/subcommands/local/top.rs:22-27 | `NoStackFound` exactly when the stack has at most one branch, otherwise a move to the last branch; it never reports a boundary or an untracked branch, and takes no current branch |
| `TopCmd.Run` | src/subcommands/local/top.rs:17-38 | discovery and checkout errors pass unchanged, HEAD is never read, no checkout is made for a short stack or a discovery error and exactly one (to the tip) otherwise, and HEAD moves only on a reported move |
| `BottomCmd.Resolve` | src/subcommands/local/bottom.rs:22-27 | `NoStackFound` exactly when the stack has at most one branch, otherwise a move to the first branch after trunk; it takes no current branch |
| `BottomCmd.Run` | src/subcommands/local/bottom.rs:17-38 | discovery and checkout errors pass unchanged, HEAD is never read, no checkout is made for a short stack or a discovery error and exactly one (to the first branch after trunk) otherwise, and HEAD moves only on a reported move |
| `NavigationLaws.UpThenDownReturns` | src/subcommands/local/up.rs:30-44 | with distinct names, `up` from index i moves to i+1 and `down` from i+1 moves back to i |
| `NavigationLaws.DownThenUpReturns` | src/subcommands/local/down.rs:30-44 | with distinct names, `down` from index i > 0 moves to i-1 and `up` from there moves back to i |
| `NavigationLaws.UpDownNeedDistinctNames` | src/subcommands/local/up.rs:30-33 | with a repeated name, the first-occurrence lookup makes `up` then `down` end on trunk instead of where it started |
| `NavigationLaws.UpFromTrunkIsBottom` | src/subcommands/local/bottom.rs:27 | `up` from trunk decides exactly what `bottom` decides, for every stack |
| `NavigationLaws.DownFromBottomIsTrunk` | src/subcommands/local/down.rs:44 | with distinct names, `down` from the branch `bottom` picks moves to trunk |
| `NavigationLaws.TopAndBottomAvoidTrunk` | src/subcommands/local/top.rs:27 | with distinct names and a real stack, neither `top` nor `bottom` targets trunk |
| `NavigationLaws.UpAfterTopStays` | src/subcommands/local/up.rs:36-42 | with distinct names, `up` from the branch `top` picks reports that it is already at the top |
| `NavigationLaws.TopIsBottomOnSingleBranch` | src/subcommands/local/top.rs:27 | on a stack of trunk and one branch, `top` and `bottom` pick that branch |
| `NavigationLaws.TopAndBottomIdempotent` | src/subcommands/local/top.rs:27-30 | carrying out `top` (or `bottom`) a second time from where the first run landed lands on the same branch |
| `NavigationLaws.UpStepsReachTop` | src/subcommands/local/up.rs:36-47 | with distinct names, at least (last index - i) runs of `up` from index i end on the branch `top` picks |
| `NavigationLaws.DownStepsReachTrunk` | src/subcommands/local/down.rs:36-47 | with distinct names, at least i runs of `down` from index i end on trunk |
| `NavigationLaws.TopTwice` | src/subcommands/local/top.rs:17-38 | two runs of `top` on the same stack both report the tip and each checks out the tip once, and HEAD stays on it |
| `NavigationLaws.BottomTwice` | src/subcommands/local/bottom.rs:17-38 | two runs of `bottom` on the same stack both report the first branch after trunk and each checks it out once, and HEAD stays on it |
| `NavigationLaws.UpThenDown` | src/subcommands/local/up.rs:17-52 | on a repository, `up` then `down` from a branch below the top reports both moves, checks out the two branches in that order, and returns HEAD to that branch |
| `NavigationLaws.DownThenUp` | src/subcommands/local/down.rs:17-52 | on a repository, `down` then `up` from a branch above trunk reports both moves, checks out the two branches in that order, and returns HEAD to that branch |
| `NavigationLaws.DownOnTrunk` | src/subcommands/local/down.rs:36-42 | `down` on trunk is a success that reports trunk, makes no checkout and does not move HEAD |

## Left out

- Stack discovery (`discover_stack`) is not part of this model. Its result, or its error, is an input to each `Run`.
- Reading HEAD (`current_branch_name`) and checking out a branch (`checkout_branch`) are not part of this model. Their success or failure is an input (`readFault`, `checkoutFault`). The repository's current branch is the only real state modelled. A ghost log, `checkouts`, records every checkout asked for, so that contracts can count them.
- The printed messages and their colours are not modelled. A success is reported as `Stayed(branch)` or `Moved(branch)`, and which command ran tells the message apart.
- The command dispatch in `src/subcommands/mod.rs` and the module list in `src/subcommands/local/mod.rs` hold no logic and are not modelled.
- The remote commands (`sync`, `submit`, `status`) and the other local commands (`create`, `delete`, `restack`, `track`, `untrack`, `log`, `checkout`, `config`) are not part of this model, because they are separate commands outside stack navigation.
- NavigationLaws.TopTwice: in the program the second run discovers the stack again from the new HEAD; the method assumes that discovery returns the same stack both times.
- NavigationLaws.BottomTwice: assumes, as `TopTwice` does, that discovery returns the same stack both times.
- NavigationLaws.UpThenDown: in the program the `down` run discovers the stack again from the new HEAD; the method assumes that discovery returns the same stack for both runs.
- NavigationLaws.DownThenUp: in the program the `up` run discovers the stack again from the new HEAD; the method assumes that discovery returns the same stack for both runs.
