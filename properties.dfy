/** What a run of the tool promises: the order of its calls, where it stops,
    and which outcome it reports, stated over every input the outside world
    can supply. */
module PickabooProperties {
  import opened ArrayReverse
  import opened Pickaboo

  // ---------------------------------------------------------------------
  // How far a run gets

  /** Both branches were found after a successful fetch and branch listing. */
  predicate BranchesFound(args: seq<string>, branches: seq<string>, ok: Op -> bool)
  {
    ArgsGiven(args) && ok(Fetch) && ok(ListBranches) && args[0] in branches && args[1] in branches
  }

  /** The log for from = destination, to = source was read and is not
      empty, so the user is asked. */
  predicate Prompted(args: seq<string>, branches: seq<string>,
                     history: (string, string) -> seq<Commit>, ok: Op -> bool)
  {
    BranchesFound(args, branches, ok) && ok(Log(args[1], args[0])) && history(args[1], args[0]) != []
  }

  /** The hashes the user selected, newest first as the prompt shows them. */
  function Selection(args: seq<string>, history: (string, string) -> seq<Commit>,
                     answer: seq<string> -> seq<string>): seq<string>
    requires ArgsGiven(args)
  {
    answer(ChoicesFor(args, history))
  }

  /** The user selected something and the destination was checked out. */
  predicate CheckedOut(args: seq<string>, branches: seq<string>,
                       history: (string, string) -> seq<Commit>,
                       answer: seq<string> -> seq<string>, ok: Op -> bool)
  {
    && Prompted(args, branches, history, ok)
    && ok(Prompt(ChoicesFor(args, history)))
    && Selection(args, history, answer) != []
    && ok(Checkout(args[1]))
  }

  // ---------------------------------------------------------------------
  // The order of calls

  /** One cherry-pick call per hash, in the order given. */
  function PickOps(hashes: seq<string>): (ops: seq<Op>)
    ensures |ops| == |hashes|
    ensures forall i :: 0 <= i < |hashes| ==> ops[i] == CherryPick(hashes[i])
  {
    if hashes == [] then [] else [CherryPick(hashes[0])] + PickOps(hashes[1..])
  }

  /** The hashes of the cherry-pick calls of a trace, in order. */
  function Picks(trace: seq<Op>): seq<string>
  {
    if trace == [] then []
    else if trace[0].CherryPick? then [trace[0].hash] + Picks(trace[1..])
    else Picks(trace[1..])
  }

  lemma {:induction false} PicksAppend(a: seq<Op>, b: seq<Op>)
    ensures Picks(a + b) == Picks(a) + Picks(b)
  {
    if a == [] {
      assert a + b == b;
    } else {
      assert (a + b)[1..] == a[1..] + b;
      PicksAppend(a[1..], b);
    }
  }

  lemma {:induction false} PicksOfPickOps(hashes: seq<string>)
    ensures Picks(PickOps(hashes)) == hashes
  {
    if hashes != [] {
      assert PickOps(hashes)[1..] == PickOps(hashes[1..]);
      PicksOfPickOps(hashes[1..]);
    }
  }

  lemma {:induction false} PicksWithoutPicks(trace: seq<Op>)
    requires forall i :: 0 <= i < |trace| ==> !trace[i].CherryPick?
    ensures Picks(trace) == []
  {
    if trace != [] {
      PicksWithoutPicks(trace[1..]);
    }
  }

  /** Every call a run could make from the log onwards, in order, when no
      call fails. */
  function RangeProtocol(source: string, dest: string,
                         history: (string, string) -> seq<Commit>,
                         answer: seq<string> -> seq<string>): seq<Op>
  {
    var choices := ChoiceValues(history(dest, source));
    [Log(dest, source), Prompt(choices), Checkout(dest)] + PickOps(Reversed(answer(choices)))
  }

  /** Every call a run could make, in the order it would make them, when no
      call fails: the whole protocol of one run. */
  function Protocol(args: seq<string>, history: (string, string) -> seq<Commit>,
                    answer: seq<string> -> seq<string>): seq<Op>
    requires ArgsGiven(args)
  {
    [Fetch, ListBranches] + RangeProtocol(args[0], args[1], history, answer)
  }

  lemma FromRangeFollowsProtocol(source: string, dest: string,
                                 history: (string, string) -> seq<Commit>,
                                 answer: seq<string> -> seq<string>, ok: Op -> bool)
    ensures FromRange(source, dest, history, answer, ok).trace <= RangeProtocol(source, dest, history, answer)
  {
    var t := FromRange(source, dest, history, answer, ok).trace;
    var p := RangeProtocol(source, dest, history, answer);
    var choices := ChoiceValues(history(dest, source));
    var order := Reversed(answer(choices));
    ApplyPicksStopsAtFirstFailure(order, ok);
    if ok(Log(dest, source)) && history(dest, source) != [] && ok(Prompt(choices)) && answer(choices) != [] && ok(Checkout(dest)) {
      RangeAfterCheckout(source, dest, history, answer, ok);
      forall i | 0 <= i < |t|
        ensures t[i] == p[i]
      {
      }
    }
  }

  /** Every run makes a prefix of the protocol's calls, and none without its arguments. */
  lemma TraceFollowsProtocol(args: seq<string>, branches: seq<string>,
                             history: (string, string) -> seq<Commit>,
                             answer: seq<string> -> seq<string>, ok: Op -> bool)
    ensures var e := Behaviour(args, branches, history, answer, ok);
            if ArgsGiven(args) then e.trace <= Protocol(args, history, answer)
            else e.trace == []
  {
    if BranchesFound(args, branches, ok) {
      FromRangeFollowsProtocol(args[0], args[1], history, answer, ok);
    }
  }

  /** The protocol at a position: the five fixed steps, then the picks. */
  lemma ProtocolAt(args: seq<string>, history: (string, string) -> seq<Commit>,
                   answer: seq<string> -> seq<string>, i: nat)
    requires ArgsGiven(args) && i < |Protocol(args, history, answer)|
    ensures var p := Protocol(args, history, answer);
            && (p[i] == Fetch <==> i == 0)
            && (p[i] == ListBranches <==> i == 1)
            && (p[i].Log? <==> i == 2) && (i == 2 ==> p[i] == Log(args[1], args[0]))
            && (p[i].Prompt? <==> i == 3) && (i == 3 ==> p[i] == Prompt(ChoicesFor(args, history)))
            && (p[i].Checkout? <==> i == 4) && (i == 4 ==> p[i] == Checkout(args[1]))
            && (p[i].CherryPick? <==> i >= 5)
  {
  }

  // ---------------------------------------------------------------------
  // Argument check and branch checks

  /** A missing source or destination argument is a usage error, reported
      before any call at all, not even a fetch; and only then. */
  lemma UsageErrorBeforeAnyCall(args: seq<string>, branches: seq<string>,
                                history: (string, string) -> seq<Commit>,
                                answer: seq<string> -> seq<string>, ok: Op -> bool)
    ensures var e := Behaviour(args, branches, history, answer, ok);
            && (e.outcome == UsageError <==> |args| < 2 || args[0] == "" || args[1] == "")
            && (e.outcome == UsageError ==> e.trace == [] && ExitCode(e.outcome) != 0)
            && (e.outcome != UsageError ==> e.trace != [])
  {
    if ArgsGiven(args) {
      ApplyPicksStopsAtFirstFailure(Reversed(Selection(args, history, answer)), ok);
    }
    TraceFollowsProtocol(args, branches, history, answer, ok);
  }

  /** The fetch comes first and the branch listing second; each happens once,
      and every log, prompt, checkout and cherry-pick comes after both. */
  lemma FetchThenListBranchesFirst(args: seq<string>, branches: seq<string>,
                                   history: (string, string) -> seq<Commit>,
                                   answer: seq<string> -> seq<string>, ok: Op -> bool)
    requires ArgsGiven(args)
    ensures var t := Behaviour(args, branches, history, answer, ok).trace;
            && 1 <= |t| && t[0] == Fetch
            && (ok(Fetch) ==> 2 <= |t| && t[1] == ListBranches)
            && (forall i :: 0 <= i < |t| && t[i] == Fetch ==> i == 0)
            && (forall i :: 0 <= i < |t| && t[i] == ListBranches ==> i == 1)
            && (forall i :: 0 <= i < |t| && !t[i].Fetch? && !t[i].ListBranches? ==> 2 <= i)
  {
    var t := Behaviour(args, branches, history, answer, ok).trace;
    TraceFollowsProtocol(args, branches, history, answer, ok);
    forall i | 0 <= i < |t|
      ensures (t[i] == Fetch <==> i == 0) && (t[i] == ListBranches <==> i == 1)
    {
      ProtocolAt(args, history, answer, i);
    }
  }

  /** The source is checked before the destination and the first missing
      one is reported; a branch is reported only when it is missing, and the
      run then stops after listing the branches. */
  lemma BranchNotFoundNamesFirstMissing(args: seq<string>, branches: seq<string>,
                                        history: (string, string) -> seq<Commit>,
                                        answer: seq<string> -> seq<string>, ok: Op -> bool,
                                        b: string)
    ensures var e := Behaviour(args, branches, history, answer, ok);
            && (e.outcome == BranchNotFound(b) <==>
                  && ArgsGiven(args) && ok(Fetch) && ok(ListBranches)
                  && b !in branches
                  && (b == args[0] || (args[0] in branches && b == args[1])))
            && (e.outcome.BranchNotFound? ==>
                  e.trace == [Fetch, ListBranches] && ExitCode(e.outcome) != 0)
  {
    if ArgsGiven(args) {
      ApplyPicksStopsAtFirstFailure(Reversed(Selection(args, history, answer)), ok);
    }
    if BranchesFound(args, branches, ok) {
      var rest := FromRange(args[0], args[1], history, answer, ok);
      assert !rest.outcome.BranchNotFound?;
    }
  }

  // ---------------------------------------------------------------------
  // The commit range and the prompt

  /** The log asked for has from = destination and to = source, and the
      prompt offers exactly the hashes of that log, in log order. */
  lemma RangeAndChoices(args: seq<string>, branches: seq<string>,
                        history: (string, string) -> seq<Commit>,
                        answer: seq<string> -> seq<string>, ok: Op -> bool)
    ensures var t := Behaviour(args, branches, history, answer, ok).trace;
            forall i :: 0 <= i < |t| ==>
              && (t[i].Log? ==> ArgsGiven(args) && t[i].from == args[1] && t[i].to == args[0])
              && (t[i].Prompt? ==>
                    && ArgsGiven(args)
                    && var log := history(args[1], args[0]);
                       |t[i].choices| == |log| &&
                       forall k :: 0 <= k < |log| ==> t[i].choices[k] == log[k].hash)
  {
    var t := Behaviour(args, branches, history, answer, ok).trace;
    TraceFollowsProtocol(args, branches, history, answer, ok);
    forall i | 0 <= i < |t|
      ensures t[i].Log? ==> ArgsGiven(args) && t[i] == Log(args[1], args[0])
      ensures t[i].Prompt? ==> ArgsGiven(args) && t[i] == Prompt(ChoicesFor(args, history))
    {
      ProtocolAt(args, history, answer, i);
    }
  }

  /** An empty range ends the run as a no-op: no prompt, no checkout, no
      cherry-pick, exit status 0; and only an empty range does. */
  lemma EmptyRangeIsNoOp(args: seq<string>, branches: seq<string>,
                         history: (string, string) -> seq<Commit>,
                         answer: seq<string> -> seq<string>, ok: Op -> bool)
    ensures var e := Behaviour(args, branches, history, answer, ok);
            && (e.outcome == NothingToPick <==>
                  BranchesFound(args, branches, ok) && ok(Log(args[1], args[0])) && history(args[1], args[0]) == [])
            && (e.outcome == NothingToPick ==>
                  && ExitCode(e.outcome) == 0
                  && forall i :: 0 <= i < |e.trace| ==>
                       !e.trace[i].Prompt? && !e.trace[i].Checkout? && !e.trace[i].CherryPick?)
  {
    if ArgsGiven(args) {
      ApplyPicksStopsAtFirstFailure(Reversed(Selection(args, history, answer)), ok);
    }
    var e := Behaviour(args, branches, history, answer, ok);
    if e.outcome == NothingToPick {
      assert e.trace == [Fetch, ListBranches, Log(args[1], args[0])];
    }
  }

  /** An empty selection ends the run as a no-op: no checkout and no
      cherry-pick, exit status 0; and only an empty selection does. */
  lemma EmptySelectionIsNoOp(args: seq<string>, branches: seq<string>,
                             history: (string, string) -> seq<Commit>,
                             answer: seq<string> -> seq<string>, ok: Op -> bool)
    ensures var e := Behaviour(args, branches, history, answer, ok);
            && (e.outcome == NothingSelected <==>
                  && Prompted(args, branches, history, ok)
                  && ok(Prompt(ChoicesFor(args, history)))
                  && Selection(args, history, answer) == [])
            && (e.outcome == NothingSelected ==>
                  && ExitCode(e.outcome) == 0
                  && forall i :: 0 <= i < |e.trace| ==> !e.trace[i].Checkout? && !e.trace[i].CherryPick?)
  {
    if ArgsGiven(args) {
      ApplyPicksStopsAtFirstFailure(Reversed(Selection(args, history, answer)), ok);
    }
    var e := Behaviour(args, branches, history, answer, ok);
    if e.outcome == NothingSelected {
      assert e.trace == [Fetch, ListBranches, Log(args[1], args[0]), Prompt(ChoicesFor(args, history))];
    }
  }

  // ---------------------------------------------------------------------
  // Checkout and cherry-picks

  /** The destination is checked out at most once, exactly when the user
      selected something, and before every cherry-pick. */
  lemma CheckoutOnceBeforePicks(args: seq<string>, branches: seq<string>,
                                history: (string, string) -> seq<Commit>,
                                answer: seq<string> -> seq<string>, ok: Op -> bool)
    ensures var t := Behaviour(args, branches, history, answer, ok).trace;
            && (forall i, j :: 0 <= i < |t| && 0 <= j < |t| && t[i].Checkout? && t[j].Checkout? ==> i == j)
            && (forall i :: 0 <= i < |t| && t[i].Checkout? ==> ArgsGiven(args) && t[i].branch == args[1])
            && ((exists i :: 0 <= i < |t| && t[i].Checkout?) <==>
                  && Prompted(args, branches, history, ok)
                  && ok(Prompt(ChoicesFor(args, history)))
                  && Selection(args, history, answer) != [])
            && (forall j :: 0 <= j < |t| && t[j].CherryPick? ==>
                  exists i :: 0 <= i < j && t[i].Checkout?)
  {
    var t := Behaviour(args, branches, history, answer, ok).trace;
    TraceFollowsProtocol(args, branches, history, answer, ok);
    forall i | 0 <= i < |t|
      ensures t[i].Checkout? <==> i == 4
      ensures t[i].Checkout? ==> t[i] == Checkout(args[1])
      ensures t[i].CherryPick? ==> 4 < i
    {
      ProtocolAt(args, history, answer, i);
    }
    if Prompted(args, branches, history, ok) && ok(Prompt(ChoicesFor(args, history)))
       && Selection(args, history, answer) != [] {
      assert t[4].Checkout?;
    } else {
      assert |t| <= 4;
    }
    forall j | 0 <= j < |t| && t[j].CherryPick?
      ensures exists i :: 0 <= i < j && t[i].Checkout?
    {
      assert t[4].Checkout?;
    }
  }

  /** Once the destination is checked out, the rest of the run is the batch
      of cherry-picks over the selection reversed. */
  lemma CheckedOutRun(args: seq<string>, branches: seq<string>,
                      history: (string, string) -> seq<Commit>,
                      answer: seq<string> -> seq<string>, ok: Op -> bool)
    requires CheckedOut(args, branches, history, answer, ok)
    ensures var e := Behaviour(args, branches, history, answer, ok);
            var picks := ApplyPicks(Reversed(Selection(args, history, answer)), ok);
            && e.outcome == picks.outcome
            && e.trace == Protocol(args, history, answer)[..5] + picks.trace
            && |picks.trace| <= |Selection(args, history, answer)|
            && Picks(e.trace) == Reversed(Selection(args, history, answer))[..|picks.trace|]
  {
    if ArgsGiven(args) {
      ApplyPicksStopsAtFirstFailure(Reversed(Selection(args, history, answer)), ok);
    }
    var source, dest := args[0], args[1];
    var choices := ChoicesFor(args, history);
    var order := Reversed(answer(choices));
    var picks := ApplyPicks(order, ok);
    RangeAfterCheckout(source, dest, history, answer, ok);
    var fixed := [Fetch, ListBranches, Log(dest, source), Prompt(choices), Checkout(dest)];
    assert Protocol(args, history, answer)[..5] == fixed;
    assert Behaviour(args, branches, history, answer, ok) == Execution(fixed + picks.trace, picks.outcome);
    PicksOfBatch(fixed, order, ok);
  }

  /** Proof step: unfolds `FromRange` once, for the case where the log,
      prompt and checkout succeed and the selection is not empty. */
  lemma RangeAfterCheckout(source: string, dest: string,
                           history: (string, string) -> seq<Commit>,
                           answer: seq<string> -> seq<string>, ok: Op -> bool)
    requires ok(Log(dest, source)) && history(dest, source) != []
    requires ok(Prompt(ChoiceValues(history(dest, source))))
    requires answer(ChoiceValues(history(dest, source))) != [] && ok(Checkout(dest))
    ensures var choices := ChoiceValues(history(dest, source));
            var picks := ApplyPicks(Reversed(answer(choices)), ok);
            FromRange(source, dest, history, answer, ok)
              == Execution([Log(dest, source), Prompt(choices), Checkout(dest)] + picks.trace, picks.outcome)
  {
  }

  /** The cherry-picks of a batch run after calls that are no cherry-picks. */
  lemma PicksOfBatch(before: seq<Op>, order: seq<string>, ok: Op -> bool)
    requires forall i :: 0 <= i < |before| ==> !before[i].CherryPick?
    ensures var picks := ApplyPicks(order, ok);
            |picks.trace| <= |order| && Picks(before + picks.trace) == order[..|picks.trace|]
  {
    var picks := ApplyPicks(order, ok);
    ApplyPicksStopsAtFirstFailure(order, ok);
    PicksAppend(before, picks.trace);
    PicksWithoutPicks(before);
    assert picks.trace == PickOps(order[..|picks.trace|]);
    PicksOfPickOps(order[..|picks.trace|]);
  }

  /** The cherry-picks of a run are a prefix of the selection reversed, that
      is oldest first; there are none unless the destination was checked
      out, and at least one once it was. */
  lemma PicksArePrefixOfReversedSelection(args: seq<string>, branches: seq<string>,
                                          history: (string, string) -> seq<Commit>,
                                          answer: seq<string> -> seq<string>, ok: Op -> bool)
    ensures var t := Behaviour(args, branches, history, answer, ok).trace;
            if CheckedOut(args, branches, history, answer, ok) then
              1 <= |Picks(t)| && Picks(t) <= Reversed(Selection(args, history, answer))
            else
              Picks(t) == []
  {
    if ArgsGiven(args) {
      ApplyPicksStopsAtFirstFailure(Reversed(Selection(args, history, answer)), ok);
    }
    var t := Behaviour(args, branches, history, answer, ok).trace;
    if CheckedOut(args, branches, history, answer, ok) {
      CheckedOutRun(args, branches, history, answer, ok);
    } else {
      TraceFollowsProtocol(args, branches, history, answer, ok);
      forall i | 0 <= i < |t|
        ensures !t[i].CherryPick?
      {
        ProtocolAt(args, history, answer, i);
      }
      PicksWithoutPicks(t);
    }
  }

  /** Success is reported only when every selected commit, oldest first,
      was cherry-picked without failure; the run then made every call of
      the protocol and exits with 0. */
  lemma SuccessOnlyAfterAllPicks(args: seq<string>, branches: seq<string>,
                                 history: (string, string) -> seq<Commit>,
                                 answer: seq<string> -> seq<string>, ok: Op -> bool)
    ensures var e := Behaviour(args, branches, history, answer, ok);
            && (e.outcome == Success <==>
                  && CheckedOut(args, branches, history, answer, ok)
                  && var order := Reversed(Selection(args, history, answer));
                     forall i :: 0 <= i < |order| ==> ok(CherryPick(order[i])))
            && (e.outcome == Success ==>
                  && Picks(e.trace) == Reversed(Selection(args, history, answer))
                  && e.trace == Protocol(args, history, answer)
                  && ExitCode(e.outcome) == 0)
  {
    if ArgsGiven(args) {
      ApplyPicksStopsAtFirstFailure(Reversed(Selection(args, history, answer)), ok);
    }
    var e := Behaviour(args, branches, history, answer, ok);
    if CheckedOut(args, branches, history, answer, ok) {
      CheckedOutRun(args, branches, history, answer, ok);
      var order := Reversed(Selection(args, history, answer));
      var picks := ApplyPicks(order, ok);
      if e.outcome == Success {
        assert order[..|picks.trace|] == order;
        var p := Protocol(args, history, answer);
        assert |e.trace| == |p|;
        forall i | 0 <= i < |p|
          ensures e.trace[i] == p[i]
        {
        }
      }
    } else {
      TraceFollowsProtocol(args, branches, history, answer, ok);
    }
  }

  /** When the k-th pick of the batch (counting from 0, oldest first) is the
      first to fail, the run reports a conflict on that hash after exactly
      k + 1 cherry-picks, with a non-zero exit status. */
  lemma FirstFailingPickHaltsRun(args: seq<string>, branches: seq<string>,
                                 history: (string, string) -> seq<Commit>,
                                 answer: seq<string> -> seq<string>, ok: Op -> bool,
                                 k: nat)
    requires CheckedOut(args, branches, history, answer, ok)
    requires k < |Selection(args, history, answer)|
    requires !ok(CherryPick(Reversed(Selection(args, history, answer))[k]))
    requires forall j :: 0 <= j < k ==> ok(CherryPick(Reversed(Selection(args, history, answer))[j]))
    ensures var e := Behaviour(args, branches, history, answer, ok);
            var order := Reversed(Selection(args, history, answer));
            && e.outcome == Conflict(order[k])
            && Picks(e.trace) == order[..k + 1]
            && e.trace[|e.trace| - 1] == CherryPick(order[k])
            && ExitCode(e.outcome) != 0
  {
    if ArgsGiven(args) {
      ApplyPicksStopsAtFirstFailure(Reversed(Selection(args, history, answer)), ok);
    }
    CheckedOutRun(args, branches, history, answer, ok);
    var order := Reversed(Selection(args, history, answer));
    var picks := ApplyPicks(order, ok);
    assert !picks.outcome.Success?;
    assert |picks.trace| == k + 1;
  }

  /** A reported conflict names the first failing pick of the batch, oldest
      first, and every pick before it succeeded. */
  lemma ConflictNamesFirstFailingPick(args: seq<string>, branches: seq<string>,
                                      history: (string, string) -> seq<Commit>,
                                      answer: seq<string> -> seq<string>, ok: Op -> bool)
    ensures var e := Behaviour(args, branches, history, answer, ok);
            && (CheckedOut(args, branches, history, answer, ok) ==> e.outcome.Success? || e.outcome.Conflict?)
            && (e.outcome.Conflict? ==>
                  && CheckedOut(args, branches, history, answer, ok)
                  && var order := Reversed(Selection(args, history, answer));
                     var k := |Picks(e.trace)|;
                     && 1 <= k <= |order|
                     && Picks(e.trace) == order[..k]
                     && e.outcome.hash == order[k - 1]
                     && !ok(CherryPick(order[k - 1]))
                     && (forall j :: 0 <= j < k - 1 ==> ok(CherryPick(order[j])))
                     && ExitCode(e.outcome) != 0)
  {
    if ArgsGiven(args) {
      ApplyPicksStopsAtFirstFailure(Reversed(Selection(args, history, answer)), ok);
    }
    var e := Behaviour(args, branches, history, answer, ok);
    if CheckedOut(args, branches, history, answer, ok) {
      CheckedOutRun(args, branches, history, answer, ok);
    } else {
      TraceFollowsProtocol(args, branches, history, answer, ok);
    }
  }

  /** Every call before the last succeeded; a run that ends in a conflict
      or a failure ends with the call that failed; any other run made only
      calls that succeeded. */
  predicate HaltsOnFirstFailure(e: Execution, ok: Op -> bool)
  {
    && (forall i :: 0 <= i < |e.trace| - 1 ==> ok(e.trace[i]))
    && (e.outcome.Failed? ==>
          && e.trace != [] && e.trace[|e.trace| - 1] == e.outcome.op
          && !ok(e.outcome.op) && !e.outcome.op.CherryPick?)
    && (e.outcome.Conflict? ==>
          && e.trace != [] && e.trace[|e.trace| - 1] == CherryPick(e.outcome.hash)
          && !ok(CherryPick(e.outcome.hash)))
    && (!e.outcome.Failed? && !e.outcome.Conflict? ==>
          forall i :: 0 <= i < |e.trace| ==> ok(e.trace[i]))
  }

  /** Calls that all succeeded, put in front of a run that halts on its
      first failure, give a run that does too. */
  lemma SucceededPrefixKeepsHalting(before: seq<Op>, e: Execution, ok: Op -> bool)
    requires forall i :: 0 <= i < |before| ==> ok(before[i])
    requires HaltsOnFirstFailure(e, ok)
    ensures HaltsOnFirstFailure(Execution(before + e.trace, e.outcome), ok)
  {
  }

  /** The part of the run after the branch checks halts on its first failure. */
  lemma RangeHaltsOnFirstFailure(source: string, dest: string,
                                 history: (string, string) -> seq<Commit>,
                                 answer: seq<string> -> seq<string>, ok: Op -> bool)
    ensures HaltsOnFirstFailure(FromRange(source, dest, history, answer, ok), ok)
  {
    var choices := ChoiceValues(history(dest, source));
    var order := Reversed(answer(choices));
    if ok(Log(dest, source)) && history(dest, source) != [] && ok(Prompt(choices))
       && answer(choices) != [] && ok(Checkout(dest)) {
      ApplyPicksStopsAtFirstFailure(order, ok);
      RangeAfterCheckout(source, dest, history, answer, ok);
      SucceededPrefixKeepsHalting([Log(dest, source), Prompt(choices), Checkout(dest)], ApplyPicks(order, ok), ok);
    }
  }

  /** A run stops at the first call that fails: every call before the last
      succeeded, and a run that ends in a conflict or a failure ends with the
      call that failed. */
  lemma RunStopsAtFirstFailure(args: seq<string>, branches: seq<string>,
                               history: (string, string) -> seq<Commit>,
                               answer: seq<string> -> seq<string>, ok: Op -> bool)
    ensures HaltsOnFirstFailure(Behaviour(args, branches, history, answer, ok), ok)
  {
    if BranchesFound(args, branches, ok) {
      RangeHaltsOnFirstFailure(args[0], args[1], history, answer, ok);
      SucceededPrefixKeepsHalting([Fetch, ListBranches], FromRange(args[0], args[1], history, answer, ok), ok);
    }
  }

  // ---------------------------------------------------------------------
  // A concrete run

  /** Three commits on `feature` that `main` lacks, all selected; the oldest
      conflicts. Exactly one cherry-pick is attempted, of the oldest commit,
      and the run fails. */
  lemma OldestOfThreeConflicts()
    ensures var e := Behaviour(["feature", "main"], ["main", "feature"],
                               (from, to) => if from == "main" && to == "feature" then
                                               [Commit("c3", "third", "ann", "d3"),
                                                Commit("c2", "second", "bob", "d2"),
                                                Commit("c1", "first", "ann", "d1")]
                                             else [],
                               choices => choices,
                               op => op != CherryPick("c1"));
            && e.outcome == Conflict("c1")
            && Picks(e.trace) == ["c1"]
            && ExitCode(e.outcome) == 1
  {
    var args := ["feature", "main"];
    var branches := ["main", "feature"];
    var history := (from, to) => if from == "main" && to == "feature" then
                                   [Commit("c3", "third", "ann", "d3"),
                                    Commit("c2", "second", "bob", "d2"),
                                    Commit("c1", "first", "ann", "d1")]
                                 else [];
    var answer := (choices: seq<string>) => choices;
    var ok := (op: Op) => op != CherryPick("c1");
    var selection := Selection(args, history, answer);
    assert selection == ["c3", "c2", "c1"];
    assert Reversed(selection)[0] == "c1";
    FirstFailingPickHaltsRun(args, branches, history, answer, ok, 0);
    assert Reversed(selection)[..1] == ["c1"];
  }
}
