/** The run as the program performs it: one step after another, the prompt's
    answer held in an array that is reversed in place, and a loop that issues
    one cherry-pick per selected commit and leaves at the first failure. */
module Orchestrator {
  import opened ArrayReverse
  import opened Pickaboo

  /** Runs the tool once. Returns the calls made to the outside world, in
      order, and how the run ended; both are those `Behaviour` prescribes. */
  method RunMain(args: seq<string>, branches: seq<string>,
                 history: (string, string) -> seq<Commit>,
                 answer: seq<string> -> seq<string>,
                 ok: Op -> bool)
    returns (trace: seq<Op>, outcome: Outcome)
    ensures Execution(trace, outcome) == Behaviour(args, branches, history, answer, ok)
  {
    trace := [];
    if |args| < 2 || args[0] == "" || args[1] == "" {
      outcome := UsageError;
      return;
    }
    var sourceBranch, destBranch := args[0], args[1];

    trace := trace + [Fetch];
    if !ok(Fetch) {
      outcome := Failed(Fetch);
      return;
    }
    trace := trace + [ListBranches];
    if !ok(ListBranches) {
      outcome := Failed(ListBranches);
      return;
    }
    if sourceBranch !in branches {
      outcome := BranchNotFound(sourceBranch);
      return;
    }
    if destBranch !in branches {
      outcome := BranchNotFound(destBranch);
      return;
    }

    var rest;
    rest, outcome := SelectAndApply(sourceBranch, destBranch, history, answer, ok);
    trace := trace + rest;
  }

  /** The part of the run after the branch checks: reads the log for
      from = destination, to = source, prompts, checks out the destination and applies
      the selected commits oldest first. */
  method SelectAndApply(sourceBranch: string, destBranch: string,
                        history: (string, string) -> seq<Commit>,
                        answer: seq<string> -> seq<string>,
                        ok: Op -> bool)
    returns (trace: seq<Op>, outcome: Outcome)
    ensures Execution(trace, outcome) == FromRange(sourceBranch, destBranch, history, answer, ok)
  {
    var range := Log(destBranch, sourceBranch);
    trace := [range];
    if !ok(range) {
      outcome := Failed(range);
      return;
    }
    var log := history(destBranch, sourceBranch);
    var commits := ChoiceValues(log);
    if |commits| == 0 {
      outcome := NothingToPick;
      return;
    }

    trace := trace + [Prompt(commits)];
    if !ok(Prompt(commits)) {
      outcome := Failed(Prompt(commits));
      return;
    }
    var selected := answer(commits);
    var commitsToPick := new string[|selected|](i requires 0 <= i < |selected| => selected[i]);
    if commitsToPick.Length == 0 {
      outcome := NothingSelected;
      return;
    }

    trace := trace + [Checkout(destBranch)];
    if !ok(Checkout(destBranch)) {
      outcome := Failed(Checkout(destBranch));
      return;
    }

    assert commitsToPick[..] == selected;
    ReverseInPlace(commitsToPick);
    var picks;
    picks, outcome := CherryPickAll(commitsToPick, ok);
    trace := trace + picks;
  }

  /** Issues one cherry-pick per element of `commitsToPick`, in array order,
      and leaves at the first one that fails. */
  method CherryPickAll(commitsToPick: array<string>, ok: Op -> bool)
    returns (picks: seq<Op>, outcome: Outcome)
    ensures Execution(picks, outcome) == ApplyPicks(commitsToPick[..], ok)
  {
    ghost var order := commitsToPick[..];
    picks := [];
    var i := 0;
    assert order[i..] == order;
    while i < commitsToPick.Length
      invariant 0 <= i <= commitsToPick.Length
      invariant ApplyPicks(order, ok) ==
                Execution(picks + ApplyPicks(order[i..], ok).trace, ApplyPicks(order[i..], ok).outcome)
    {
      var commit := commitsToPick[i];
      assert order[i..][0] == commit;
      assert order[i..][1..] == order[i + 1..];
      picks := picks + [CherryPick(commit)];
      if !ok(CherryPick(commit)) {
        outcome := Conflict(commit);
        return;
      }
      i := i + 1;
    }
    assert order[i..] == [];
    outcome := Success;
  }
}
