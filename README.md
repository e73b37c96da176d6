# cherry-pickaboo: a verified model of one run

`cherry-pickaboo <sourceBranch> <destinationBranch>` lets a developer tick
commits that `git.log({from: destination, to: source})` reports in a checkbox prompt and cherry-picks the
ticked ones onto the destination branch, oldest first, stopping at the first
conflict. This project models the run orchestrated by `main()` in
`bin/pickaboo.js` and proves how it orders its calls, where it stops and
which outcome it reports.

Every effect on the outside world is an input of the model:

- `args`: the command-line words after the script name (`process.argv[2..]`).
  An argument is missing when it is absent or the empty string, which is
  what the JavaScript test `!sourceBranch` accepts.
- `branches`: the branch list that `git.branch()` reports.
- `history(from, to)`: the commits that `git.log({from, to})` returns.
- `answer(choices)`: the hashes the user ticks, given the hashes offered.
- `ok(op)`: whether a call to the outside world succeeds. A failing
  cherry-pick is a conflict; any other failing call throws into the
  top-level `catch` and aborts the run.

A run yields an `Execution`: the `trace` of calls in the order made (`Fetch`,
`ListBranches`, `Log(from, to)`, `Prompt(choices)`, `Checkout(branch)`,
`CherryPick(hash)`) and an `Outcome` (`UsageError`, `BranchNotFound(b)`,
`NothingToPick`, `NothingSelected`, `Conflict(h)`, `Failed(op)`, `Success`).
`ExitCode` gives the exit status of each outcome: 0 for the two no-ops and
for success, 1 otherwise.

Files:

- `pickaboo.dfy` (module `Pickaboo`): the data model, the projection of the
  log onto the prompt's values, the cherry-pick batch `ApplyPicks`, and the
  reference definition of a run, `Behaviour`. `Behaviour` covers the
  argument and branch checks. `FromRange` covers the rest of the run.
- `orchestrator.dfy` (module `Orchestrator`): the run as the program performs
  it. It works step by step. The prompt's answer is copied into a fresh
  array. After the checkout that array is reversed in place. A loop then
  issues one cherry-pick per element and leaves at the first failure. Each
  method is proved equal to its reference definition.
- `array_reverse.dfy` (module `ArrayReverse`): `Array.prototype.reverse` as
  a function on sequences and as an in-place method on arrays.
- `properties.dfy` (module `PickabooProperties`): the properties of a run.
  They are stated over all inputs. `Protocol` lists every call a run makes
  when nothing fails, and every trace is a prefix of it.

## Model

| member | source | states |
|---|---|---|
| `Orchestrator.RunMain` | bin/pickaboo.js:9-99 | the calls the program makes and the outcome it reports are exactly those of the reference run `Behaviour` for the same inputs |
| `Orchestrator.SelectAndApply` | bin/pickaboo.js:31-94 | after the branch checks, the log, prompt, checkout and reverse-and-apply steps produce exactly the calls and outcome of `FromRange` |
| `Orchestrator.CherryPickAll` | bin/pickaboo.js:74-88 | the loop over the reversed array issues one cherry-pick per element, in array order, and leaves at the first failure, as `ApplyPicks` describes |
| `ArrayReverse.ReverseInPlace` | bin/pickaboo.js:74 | after the call the array holds its old contents reversed |
| `ArrayReverse.Reversed` | bin/pickaboo.js:74 | the result has the input's length and element `i` is the input's element `n-1-i` |
| `Pickaboo.ChoiceValues` | bin/pickaboo.js:33-39 | one selectable value per commit of the log, in log order, and value `i` is the hash of commit `i` |
| `Pickaboo.ApplyPicksStopsAtFirstFailure` | bin/pickaboo.js:74-88 | a batch ends in success or a conflict; it issues a prefix of the hashes in order; it succeeds exactly when every pick succeeds, after all of them; otherwise it stops at the first failing pick and names that hash |
| `PickabooProperties.TraceFollowsProtocol` | bin/pickaboo.js:21-88 | every trace is a prefix of fetch, branch list, log, prompt, checkout, then the cherry-picks of the reversed selection; without both arguments the trace is empty |
| `PickabooProperties.UsageErrorBeforeAnyCall` | bin/pickaboo.js:10-19 | the outcome is a usage error exactly when the source or destination argument is absent or empty; the trace is then empty, not even a fetch, and the exit status non-zero |
| `PickabooProperties.FetchThenListBranchesFirst` | bin/pickaboo.js:22-23 | with both arguments the first call is the fetch and, if it succeeds, the second is the branch listing; each occurs once and every other call comes after both |
| `PickabooProperties.BranchNotFoundNamesFirstMissing` | bin/pickaboo.js:24-29 | `BranchNotFound(b)` is reported exactly when `b` is missing from the branch list and is the source, or is the destination while the source is present; the trace then stops after the branch listing and the exit status is non-zero |
| `PickabooProperties.RangeAndChoices` | bin/pickaboo.js:31-57 | every log call asks for from = destination, to = source; every prompt offers one value per commit of that log, in log order, each its hash |
| `PickabooProperties.EmptyRangeIsNoOp` | bin/pickaboo.js:41-48 | the outcome is `NothingToPick` exactly when the log of the range was read and is empty; there is then no prompt, checkout or cherry-pick, and the exit status is 0 |
| `PickabooProperties.EmptySelectionIsNoOp` | bin/pickaboo.js:64-67 | the outcome is `NothingSelected` exactly when the prompt was answered with no hash; there is then no checkout or cherry-pick, and the exit status is 0 |
| `PickabooProperties.CheckoutOnceBeforePicks` | bin/pickaboo.js:72-74 | there is at most one checkout, of the destination; it happens exactly when the selection is non-empty; and every cherry-pick comes after it |
| `PickabooProperties.CheckedOutRun` | bin/pickaboo.js:72-88 | once the destination is checked out, the run is the five fixed calls followed by the batch over the reversed selection, with the batch's outcome |
| `PickabooProperties.PicksArePrefixOfReversedSelection` | bin/pickaboo.js:74-88 | the cherry-picked hashes are a non-empty prefix of the reversed selection once the destination is checked out, and there are none otherwise |
| `PickabooProperties.SuccessOnlyAfterAllPicks` | bin/pickaboo.js:74-94 | `Success` is reported exactly when the destination was checked out and every pick of the reversed selection succeeds; the picks are then the whole reversed selection, the trace the whole protocol, the exit status 0 |
| `PickabooProperties.FirstFailingPickHaltsRun` | bin/pickaboo.js:79-87 | if pick `k` of the reversed selection is the first to fail, the outcome is `Conflict` of that hash after exactly `k + 1` picks, with the failing pick last and a non-zero exit status |
| `PickabooProperties.ConflictNamesFirstFailingPick` | bin/pickaboo.js:74-87 | after checkout the outcome is success or conflict; a conflict names the last attempted pick, which failed, after picks that all succeeded, and exits non-zero |
| `PickabooProperties.RunStopsAtFirstFailure` | bin/pickaboo.js:21-98 | every call before the last one succeeded; a conflict or failure names the last call, which failed; any other outcome follows only successful calls |
| `PickabooProperties.OldestOfThreeConflicts` | bin/pickaboo.js:74-87 | with three commits of the range all selected and the oldest conflicting, the run reports a conflict on the oldest after exactly one cherry-pick and exits with 1 |

## Left out

- Console messages, `chalk` colours and emoji (bin/pickaboo.js:13-17, 42-46, 65, 69-71, 76-85, 90-94 and 96): presentation only.
- The label of each choice, with the short hash, message, author and locale-formatted date (bin/pickaboo.js:34-37): it is presentation only and not part of the value the user selects, so a choice is modelled by its hash alone.
- The `inquirer` prompt itself, its `pageSize` and its `validate` callback: foreign library code. The prompt is the input `answer`, and any answer is allowed, including the empty one that line 64 checks. A `null` answer is treated like an empty one.
- `simple-git`: what `fetch`, `branch`, `log`, `checkout` and `raw` do in the repository, including which commits `log({from, to})` returns: given `from` and `to`, simple-git builds the symmetric range `from...to` by default, so the prompt may also list commits that exist only on the destination. The model leaves the log's contents to the input `history`. These are the inputs `branches`, `history` and `ok`. The model records each call with its arguments.
- `async`/`await` and `process.exit`: the run is sequential, and each exit becomes the returned outcome with its `ExitCode`. The error message of the top-level `catch` is not modelled; `Failed(op)` names the call that threw.
- No keyword argument and no `--no-commit` flag: `main()` reads only the first two arguments (bin/pickaboo.js:10).
