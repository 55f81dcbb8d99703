/** Properties that relate the four navigation commands to each other: `up` and `down`
    undo each other, `top` and `bottom` are idempotent and agree with `up` and `down`
    at the ends of the stack, and walking up (or down) one step at a time ends on the
    branch `top` (or trunk) names. Most of them need the stack's branch names to be
    distinct, which is what a discovered stack is; `UpDownNeedDistinctNames` shows why.
 */
module NavigationLaws {
  import opened Stacks
  import opened Repo
  import DownCmd
  import UpCmd
  import TopCmd
  import BottomCmd

  // ---------------------------------------------------------------------------
  // Decisions

  /** Inverse law: from any branch below the top, `up` moves one index up, and `down`
      from there comes back to where `up` started. */
  lemma UpThenDownReturns(stack: seq<BranchName>, i: nat)
    requires Distinct(stack) && i + 1 < |stack|
    ensures UpCmd.Resolve(stack, stack[i]) == MoveTo(stack[i + 1])
    ensures DownCmd.Resolve(stack, stack[i + 1]) == MoveTo(stack[i])
  {
    PositionOfDistinct(stack, i);
    PositionOfDistinct(stack, i + 1);
  }

  /** Inverse law, the other way round: from any branch above trunk, `down` moves one
      index down, and `up` from there comes back. */
  lemma DownThenUpReturns(stack: seq<BranchName>, i: nat)
    requires Distinct(stack) && 0 < i < |stack|
    ensures DownCmd.Resolve(stack, stack[i]) == MoveTo(stack[i - 1])
    ensures UpCmd.Resolve(stack, stack[i - 1]) == MoveTo(stack[i])
  {
    UpThenDownReturns(stack, i - 1);
  }

  /** Without distinct names the inverse law fails: `up` from the first `feature` stays
      on a branch named `feature`, and `down` from there goes to trunk. */
  lemma UpDownNeedDistinctNames()
    ensures UpCmd.Resolve(["main", "feature", "feature"], "feature") == MoveTo("feature")
    ensures DownCmd.Resolve(["main", "feature", "feature"], "feature") == MoveTo("main")
  {
    assert Position(["main", "feature", "feature"], "feature") == Some(1);
  }

  /** `up` from trunk goes where `bottom` goes (whatever the names are: trunk is always
      found at index 0). */
  lemma UpFromTrunkIsBottom(stack: seq<BranchName>)
    requires |stack| >= 1
    ensures UpCmd.Resolve(stack, stack[0]) == BottomCmd.Resolve(stack)
  {
    assert Position(stack, stack[0]) == Some(0);
  }

  /** `down` from the bottom branch goes to trunk. */
  lemma DownFromBottomIsTrunk(stack: seq<BranchName>)
    requires Distinct(stack) && |stack| > 1
    ensures DownCmd.Resolve(stack, BottomCmd.Resolve(stack).target) == MoveTo(stack[0])
  {
    DownThenUpReturns(stack, 1);
  }

  /** `top` and `bottom` never name trunk. */
  lemma TopAndBottomAvoidTrunk(stack: seq<BranchName>)
    requires Distinct(stack) && |stack| > 1
    ensures TopCmd.Resolve(stack).target != stack[0]
    ensures BottomCmd.Resolve(stack).target != stack[0]
  {
  }

  /** After `top`, `up` reports that it is already at the top and moves nowhere. */
  lemma UpAfterTopStays(stack: seq<BranchName>)
    requires Distinct(stack) && |stack| > 1
    ensures UpCmd.Resolve(stack, TopCmd.Resolve(stack).target)
         == AlreadyAtBoundary(stack[|stack| - 1])
  {
    PositionOfDistinct(stack, |stack| - 1);
  }

  /** On a stack of trunk and one branch, `top` and `bottom` pick the same branch. */
  lemma TopIsBottomOnSingleBranch(stack: seq<BranchName>)
    requires |stack| == 2
    ensures TopCmd.Resolve(stack) == BottomCmd.Resolve(stack) == MoveTo(stack[1])
  {
  }

  /** `top` and `bottom` are idempotent: carried out a second time from where the first
      run landed, they land on the same branch. */
  lemma TopAndBottomIdempotent(stack: seq<BranchName>, head: BranchName)
    ensures var h := Landing(head, TopCmd.Resolve(stack));
            Landing(h, TopCmd.Resolve(stack)) == h
    ensures var h := Landing(head, BottomCmd.Resolve(stack));
            Landing(h, BottomCmd.Resolve(stack)) == h
  {
  }

  // ---------------------------------------------------------------------------
  // Walking the stack one step at a time

  /** The current branch after `n` successful runs of `up` from `head`. */
  function UpSteps(stack: seq<BranchName>, head: BranchName, n: nat): BranchName
    decreases n
  {
    if n == 0 then head else UpSteps(stack, Landing(head, UpCmd.Resolve(stack, head)), n - 1)
  }

  /** The current branch after `n` successful runs of `down` from `head`. */
  function DownSteps(stack: seq<BranchName>, head: BranchName, n: nat): BranchName
    decreases n
  {
    if n == 0 then head else DownSteps(stack, Landing(head, DownCmd.Resolve(stack, head)), n - 1)
  }

  /** From index `i`, enough runs of `up` end on the branch `top` goes to, and further
      runs stay there. */
  lemma {:induction false} UpStepsReachTop(stack: seq<BranchName>, i: nat, n: nat)
    requires Distinct(stack) && |stack| > 1 && i < |stack|
    requires n >= |stack| - 1 - i
    ensures UpSteps(stack, stack[i], n) == TopCmd.Resolve(stack).target
    decreases n
  {
    if n > 0 {
      if i + 1 < |stack| {
        UpThenDownReturns(stack, i);
        UpStepsReachTop(stack, i + 1, n - 1);
      } else {
        UpAfterTopStays(stack);
        UpStepsReachTop(stack, i, n - 1);
      }
    }
  }

  /** From index `i`, enough runs of `down` end on trunk, and further runs stay there. */
  lemma {:induction false} DownStepsReachTrunk(stack: seq<BranchName>, i: nat, n: nat)
    requires Distinct(stack) && |stack| > 1 && i < |stack|
    requires n >= i
    ensures DownSteps(stack, stack[i], n) == stack[0]
    decreases n
  {
    if n > 0 {
      if i > 0 {
        DownThenUpReturns(stack, i);
        DownStepsReachTrunk(stack, i - 1, n - 1);
      } else {
        assert Position(stack, stack[0]) == Some(0);
        DownStepsReachTrunk(stack, 0, n - 1);
      }
    }
  }

  // ---------------------------------------------------------------------------
  // The same laws on the repository, through the commands' `run`

  /** Running `top` twice on the same stack: both runs report the tip, and the second
      leaves HEAD where the first put it. */
  method TopTwice(repo: Repository, stack: seq<BranchName>)
    returns (first: Result<Report>, second: Result<Report>)
    requires |stack| > 1
    modifies repo
    ensures first == second == Ok(Moved(stack[|stack| - 1]))
    ensures repo.current == stack[|stack| - 1]
    ensures repo.checkouts == old(repo.checkouts) + [stack[|stack| - 1], stack[|stack| - 1]]
  {
    first := TopCmd.Run(repo, Ok(stack), None);
    second := TopCmd.Run(repo, Ok(stack), None);
  }

  /** Running `bottom` twice on the same stack: both runs report the first branch after
      trunk, and the second leaves HEAD where the first put it. */
  method BottomTwice(repo: Repository, stack: seq<BranchName>)
    returns (first: Result<Report>, second: Result<Report>)
    requires |stack| > 1
    modifies repo
    ensures first == second == Ok(Moved(stack[1]))
    ensures repo.current == stack[1]
    ensures repo.checkouts == old(repo.checkouts) + [stack[1], stack[1]]
  {
    first := BottomCmd.Run(repo, Ok(stack), None);
    second := BottomCmd.Run(repo, Ok(stack), None);
  }

  /** `up` then `down` from a branch below the top brings HEAD back to that branch. */
  method UpThenDown(repo: Repository, stack: seq<BranchName>, i: nat)
    returns (up: Result<Report>, down: Result<Report>)
    requires Distinct(stack) && i + 1 < |stack| && repo.current == stack[i]
    modifies repo
    ensures up == Ok(Moved(stack[i + 1])) && down == Ok(Moved(stack[i]))
    ensures repo.current == stack[i]
    ensures repo.checkouts == old(repo.checkouts) + [stack[i + 1], stack[i]]
  {
    UpThenDownReturns(stack, i);
    up := UpCmd.Run(repo, Ok(stack), None, None);
    down := DownCmd.Run(repo, Ok(stack), None, None);
  }

  /** `down` then `up` from a branch above trunk brings HEAD back to that branch. */
  method DownThenUp(repo: Repository, stack: seq<BranchName>, i: nat)
    returns (down: Result<Report>, up: Result<Report>)
    requires Distinct(stack) && 0 < i < |stack| && repo.current == stack[i]
    modifies repo
    ensures down == Ok(Moved(stack[i - 1])) && up == Ok(Moved(stack[i]))
    ensures repo.current == stack[i]
    ensures repo.checkouts == old(repo.checkouts) + [stack[i - 1], stack[i]]
  {
    DownThenUpReturns(stack, i);
    down := DownCmd.Run(repo, Ok(stack), None, None);
    up := UpCmd.Run(repo, Ok(stack), None, None);
  }

  /** `down` on trunk is a success that reports trunk and leaves HEAD there. */
  method DownOnTrunk(repo: Repository, stack: seq<BranchName>)
    returns (r: Result<Report>)
    requires |stack| > 1 && repo.current == stack[0]
    modifies repo
    ensures r == Ok(Stayed(stack[0])) && repo.current == stack[0]
    ensures repo.checkouts == old(repo.checkouts)
  {
    r := DownCmd.Run(repo, Ok(stack), None, None);
  }
}
