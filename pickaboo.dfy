/** The run of `cherry-pickaboo <source> <destination>`: what it asks of the
    version-control tool and of the user, in which order, and how it ends.
    Every external effect is an input: the branch list, the commits the log
    reports, the user's answer to the checkbox prompt, and whether each call to
    the outside world succeeds. */
module Pickaboo {
  import opened ArrayReverse

  /** A commit as the version-control log reports it. */
  datatype Commit = Commit(hash: string, message: string, author: string, date: string)

  /** One call to the outside world, recorded in the order the run makes it. */
  datatype Op =
    | Fetch                             // synchronise remote refs
    | ListBranches                      // read every known branch name
    | Log(from: string, to: string)     // read the commits the log reports for from, to
    | Prompt(choices: seq<string>)      // show the checkbox prompt; the selectable values
    | Checkout(branch: string)          // switch to a branch
    | CherryPick(hash: string)          // apply one commit

  /** How a run ends. */
  datatype Outcome =
    | UsageError                        // source or destination argument missing
    | BranchNotFound(branch: string)    // a named branch is not in the branch list
    | NothingToPick                     // the range holds no commit
    | NothingSelected                   // the user selected no commit
    | Conflict(hash: string)            // this cherry-pick failed; later ones were not tried
    | Failed(op: Op)                    // any other call failed and the run was aborted
    | Success                           // every selected commit was applied

  /** The calls a run made and how it ended. */
  datatype Execution = Execution(trace: seq<Op>, outcome: Outcome)

  /** The process exit status that goes with an outcome. */
  function ExitCode(o: Outcome): int
  {
    match o
    case NothingToPick => 0
    case NothingSelected => 0
    case Success => 0
    case _ => 1
  }

  /** Both positional arguments are present; a JavaScript empty string is as
      good as absent. `args` are the command-line words after the script. */
  predicate ArgsGiven(args: seq<string>)
  {
    |args| >= 2 && args[0] != "" && args[1] != ""
  }

  /** The selectable values of the prompt: one per commit of the log, its hash. */
  function ChoiceValues(log: seq<Commit>): (values: seq<string>)
    ensures |values| == |log|
    ensures forall i :: 0 <= i < |log| ==> values[i] == log[i].hash
  {
    if log == [] then [] else [log[0].hash] + ChoiceValues(log[1..])
  }

  /** The values offered to the user: the commits the log reports for
      from = destination, to = source. */
  function ChoicesFor(args: seq<string>, history: (string, string) -> seq<Commit>): seq<string>
    requires ArgsGiven(args)
  {
    ChoiceValues(history(args[1], args[0]))
  }

  /** Cherry-picks `hashes` one after another, stopping at the first failure. */
  function ApplyPicks(hashes: seq<string>, ok: Op -> bool): Execution
  {
    if hashes == [] then
      Execution([], Success)
    else if !ok(CherryPick(hashes[0])) then
      Execution([CherryPick(hashes[0])], Conflict(hashes[0]))
    else
      var rest := ApplyPicks(hashes[1..], ok);
      Execution([CherryPick(hashes[0])] + rest.trace, rest.outcome)
  }

  /** A batch of cherry-picks ends in success or in a conflict. It issues a
      prefix of `hashes`, in order; it succeeds exactly when every pick
      succeeds, after all of them, and otherwise stops at the first pick that
      fails and names it. */
  lemma {:induction false} ApplyPicksStopsAtFirstFailure(hashes: seq<string>, ok: Op -> bool)
    ensures var e := ApplyPicks(hashes, ok);
            && (e.outcome.Success? || e.outcome.Conflict?)
            && |e.trace| <= |hashes|
            && (forall i :: 0 <= i < |e.trace| ==> e.trace[i] == CherryPick(hashes[i]))
            && (e.outcome.Success? <==> forall i :: 0 <= i < |hashes| ==> ok(CherryPick(hashes[i])))
            && (e.outcome.Success? ==> |e.trace| == |hashes|)
            && (e.outcome.Conflict? ==>
                  && 1 <= |e.trace|
                  && e.outcome.hash == hashes[|e.trace| - 1]
                  && !ok(CherryPick(e.outcome.hash))
                  && forall i :: 0 <= i < |e.trace| - 1 ==> ok(CherryPick(hashes[i])))
  {
    if hashes != [] && ok(CherryPick(hashes[0])) {
      ApplyPicksStopsAtFirstFailure(hashes[1..], ok);
      var rest := ApplyPicks(hashes[1..], ok);
      if !rest.outcome.Success? {
        assert !ok(CherryPick(hashes[1..][|rest.trace| - 1]));
      }
    }
  }

  /** The whole run: argument check, fetch, branch checks, then the commits
      of the range. A call for which `ok` is false throws and ends the run. */
  function Behaviour(args: seq<string>, branches: seq<string>,
                     history: (string, string) -> seq<Commit>,
                     answer: seq<string> -> seq<string>,
                     ok: Op -> bool): Execution
  {
    if !ArgsGiven(args) then Execution([], UsageError)
    else if !ok(Fetch) then Execution([Fetch], Failed(Fetch))
    else if !ok(ListBranches) then Execution([Fetch, ListBranches], Failed(ListBranches))
    else if args[0] !in branches then Execution([Fetch, ListBranches], BranchNotFound(args[0]))
    else if args[1] !in branches then Execution([Fetch, ListBranches], BranchNotFound(args[1]))
    else
      var rest := FromRange(args[0], args[1], history, answer, ok);
      Execution([Fetch, ListBranches] + rest.trace, rest.outcome)
  }

  /** The run once both branches are known to exist: log for
      from = destination, to = source, prompt, checkout of the destination, then the
      selected commits oldest first. */
  function FromRange(source: string, dest: string,
                     history: (string, string) -> seq<Commit>,
                     answer: seq<string> -> seq<string>,
                     ok: Op -> bool): Execution
  {
    var logged := [Log(dest, source)];
    if !ok(Log(dest, source)) then Execution(logged, Failed(Log(dest, source)))
    else if history(dest, source) == [] then Execution(logged, NothingToPick)
    else
      var choices := ChoiceValues(history(dest, source));
      var prompted := logged + [Prompt(choices)];
      if !ok(Prompt(choices)) then Execution(prompted, Failed(Prompt(choices)))
      else if answer(choices) == [] then Execution(prompted, NothingSelected)
      else
        var checkedOut := prompted + [Checkout(dest)];
        if !ok(Checkout(dest)) then Execution(checkedOut, Failed(Checkout(dest)))
        else
          var picks := ApplyPicks(Reversed(answer(choices)), ok);
          Execution(checkedOut + picks.trace, picks.outcome)
  }
}
