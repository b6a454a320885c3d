/** Debounced validation of a configuration form, where only the newest request counts. */
module ConfigurationValidation {
  import opened Text

  datatype Status = Unavailable | Validating | Correct | Incorrect

  datatype Report = Report(valid: bool, text: string)

  datatype State = State(status: Status, report: Option<Report>, error: string)

  /** What the form gives when the request is built, and how its validation ends. */
  datatype Built = NothingToValidate | BuildError(message: string) | Ready
  datatype Outcome = Reported(report: Report) | ValidateError(message: string)

  /** What can happen between two awaits; a run may end late, and in any order. */
  datatype Event =
    | FormChanges
    | UserValidates(built: Built)
    | ReportArrives(report: Report)
    | TimerElapses(built: Built)
    | RunEnds(sequence: nat, outcome: Outcome)

  function OfReport(report: Report): State {
    State(if report.valid then Correct else Incorrect, Some(report), "")
  }

  function OfOutcome(outcome: Outcome): State {
    match outcome
    case Reported(report) => OfReport(report)
    case ValidateError(message) => State(Unavailable, None, message)
  }

  /** Each method runs from one await to the next; any interleaving is a sequence of these calls. */
  class ConfigurationValidation {
    var validation: State
    var sequence: nat
    /** The sequence number the running timer will use. */
    var timer: Option<nat>
    /** Runs whose validation has not ended: the promises that are pending. */
    var runs: set<nat>
    /** The scope was disposed and nothing was started since. */
    ghost var disposed: bool

    /** A timer or a run with the current number is under way. */
    ghost predicate Pending()
      reads this
    {
      timer.Some? || sequence in runs
    }

    ghost predicate Valid()
      reads this
    {
      (timer.Some? ==> timer.value == sequence && sequence !in runs)
      && (forall s :: s in runs ==> s <= sequence)
      && (disposed ==> !Pending())
      && (!disposed ==> (validation.status == Validating <==> Pending()))
    }

    constructor ()
      ensures Valid() && !Pending() && !disposed && sequence == 0
    {
      validation, sequence, timer, runs, disposed := State(Unavailable, None, ""), 0, None, {}, false;
    }

    method CancelPending() returns (current: nat)
      requires Valid()
      modifies this`sequence, this`timer
      ensures sequence == old(sequence) + 1 == current && timer.None? && sequence !in runs
    {
      sequence := sequence + 1;
      timer := None;
      return sequence;
    }

    method ApplyReport(report: Report)
      requires Valid()
      modifies this
      ensures validation.report == Some(report) && (validation.status == Correct <==> report.valid)
      ensures Valid() && !disposed && validation == OfReport(report) && !Pending() && runs == old(runs)
        && sequence > old(sequence)
    {
      var current := CancelPending();
      validation := OfReport(report);
      disposed := false;
    }

    method Schedule()
      requires Valid()
      modifies this
      ensures Valid() && !disposed && validation == State(Validating, None, "") && timer == Some(sequence)
        && runs == old(runs)
      ensures sequence > old(sequence)
    {
      var current := CancelPending();
      validation := State(Validating, None, "");
      disposed := false;
      timer := Some(current);
    }

    method ValidateNow(built: Built)
      requires Valid()
      modifies this
      ensures Valid() && !disposed && timer.None? && sequence > old(sequence)
      ensures built.Ready? ==> validation == State(Validating, None, "") && runs == old(runs) + {sequence}
      ensures !built.Ready? ==> validation.status == Unavailable && runs == old(runs)
    {
      var current := CancelPending();
      validation := State(Validating, None, "");
      disposed := false;
      Run(current, built);
    }

    method TimerFires(built: Built)
      requires Valid() && timer.Some?
      modifies this
      ensures Valid() && !disposed && timer.None? && sequence == old(sequence)
      ensures built.Ready? ==> validation == old(validation) && runs == old(runs) + {sequence}
      ensures !built.Ready? ==> validation.status == Unavailable && runs == old(runs)
    {
      var current := timer.value;
      timer := None;
      Run(current, built);
    }

    /** The part of `run` before its await, entered with the current number and the status `Validating`. */
    method Run(current: nat, built: Built)
      requires current == sequence && sequence !in runs && timer.None? && !disposed
      requires validation.status == Validating && forall s :: s in runs ==> s <= sequence
      modifies this`validation, this`runs
      ensures Valid()
      ensures built.Ready? ==> validation == old(validation) && runs == old(runs) + {current}
      ensures !built.Ready? ==> validation.status == Unavailable && runs == old(runs)
    {
      match built
      case NothingToValidate => validation := State(Unavailable, None, "");
      case BuildError(message) => validation := State(Unavailable, None, message);
      case Ready => runs := runs + {current};
    }

    /** The part of `run` after its await: an outdated run changes nothing. */
    method Ends(current: nat, outcome: Outcome)
      requires Valid() && current in runs
      modifies this`validation, this`runs
      ensures Valid() && runs == old(runs) - {current}
      ensures current != sequence ==> validation == old(validation)
      ensures current == sequence ==> !Pending() && validation == OfOutcome(outcome)
      ensures current == sequence && outcome.Reported? ==>
        validation.report == Some(outcome.report) && (validation.status == Correct <==> outcome.report.valid)
    {
      runs := runs - {current};
      if current == sequence {
        match outcome
        case Reported(report) => validation := OfReport(report);
        case ValidateError(message) => validation := State(Unavailable, None, message);
      }
    }

    /** Disposal stops the timer and outdates every run, but leaves the state as it was. */
    method Dispose()
      requires Valid()
      modifies this`sequence, this`timer, this`disposed
      ensures Valid() && disposed && !Pending() && validation == old(validation)
    {
      var current := CancelPending();
      disposed := true;
    }

    /** Any interleaving before disposal: the status is `Validating` exactly while something current is under way. */
    method Play(events: seq<Event>)
      requires Valid() && !disposed
      modifies this
      ensures Valid() && !disposed && (validation.status == Validating <==> Pending())
    {
      for i := 0 to |events|
        invariant Valid() && !disposed
      {
        match events[i] {
          case FormChanges => Schedule();
          case UserValidates(built) => ValidateNow(built);
          case ReportArrives(report) => ApplyReport(report);
          case TimerElapses(built) => if timer.Some? { TimerFires(built); }
          case RunEnds(of, outcome) => if of in runs { Ends(of, outcome); }
        }
      }
    }

    /** Once nothing current is under way, late replies leave the state alone, disposed or not. */
    method LateReplies(late: seq<(nat, Outcome)>)
      requires Valid() && !Pending()
      modifies this`validation, this`runs
      ensures Valid() && !Pending() && validation == old(validation)
    {
      for k := 0 to |late|
        invariant Valid() && !Pending() && validation == old(validation)
      {
        if late[k].0 in runs { Ends(late[k].0, late[k].1); }
      }
    }
  }
}
