/** Whole runs of the pass machine on concrete sessions. */
module StudyCafeScenarios {
  import opened Optional
  import opened Exceptions
  import opened StudyCafeModel
  import opened StudyCafePassMachine

  /** A user who picks the first pass listed; with nothing listed the pick is refused. */
  function PickFirst(candidates: seq<Pass>): (r: Step<Pass>)
  {
    if candidates == [] then Raised(AppException("no pass to select")) else Done(candidates[0])
  }

  /**
   * An hourly pass picked from a mixed catalog whose locker catalog holds two
   * entries matching it at different prices: the first of them is offered and,
   * once confirmed, is the one in the summary.
   */
  method HourlyPassWithConfirmedLocker() returns (outcome: RunOutcome, trace: seq<Event>)
    ensures outcome == Summary(Pass(Hourly, 2, 4000), Some(LockerPass(Hourly, 2, 1000)))
    ensures AskLocker(LockerPass(Hourly, 2, 1000)) in trace
    ensures AskLocker(LockerPass(Hourly, 2, 1500)) !in trace
  {
    var s := Session(Done(Hourly), Done([Pass(Weekly, 2, 30000), Pass(Hourly, 2, 4000)]), PickFirst,
                     Done([LockerPass(Weekly, 2, 5000), LockerPass(Hourly, 2, 1000), LockerPass(Hourly, 2, 1500)]),
                     Done(true));
    outcome, trace := Run(s);
    assert FindAllPassesBy([Pass(Weekly, 2, 30000), Pass(Hourly, 2, 4000)], Hourly) == [Pass(Hourly, 2, 4000)];
  }

  /**
   * A fixed pass: the summary carries no locker, and the locker catalog is never
   * read, so even an unreadable locker file does not matter.
   */
  method FixedPassWithoutLocker() returns (outcome: RunOutcome, trace: seq<Event>)
    ensures outcome == Summary(Pass(Fixed, 4, 250000), None)
    ensures ReadLockerCatalog !in trace
    ensures forall e :: e in trace ==> !e.AskLocker?
  {
    var s := Session(Done(Fixed), Done([Pass(Fixed, 4, 250000)]), PickFirst,
                     Raised(OtherException("locker file unreadable")), Done(true));
    outcome, trace := Run(s);
    assert FindAllPassesBy([Pass(Fixed, 4, 250000)], Fixed) == [Pass(Fixed, 4, 250000)];
  }

  /** An invalid pass type ends the run after its own message, with no further prompt. */
  method InvalidPassType() returns (outcome: RunOutcome, trace: seq<Event>)
    ensures outcome == AppError("invalid pass type")
    ensures trace == [ShowWelcome, ShowAnnouncement, AskPassType, ReadPassType, ShowMessage("invalid pass type")]
  {
    var s := Session(Raised(AppException("invalid pass type")), Done([Pass(Hourly, 1, 2000)]), PickFirst,
                     Done([]), Done(true));
    outcome, trace := Run(s);
  }

  /**
   * An unreadable pass catalog ends the run right after the read with the fixed
   * message; the fault's own text is never shown.
   */
  method UnreadablePassCatalog() returns (outcome: RunOutcome, trace: seq<Event>)
    ensures outcome == UnknownError
    ensures trace == [ShowWelcome, ShowAnnouncement, AskPassType, ReadPassType, ReadPassCatalog,
                      ShowMessage(UnknownErrorMessage)]
    ensures ShowMessage("pass file missing") !in trace
  {
    var s := Session(Done(Hourly), Raised(OtherException("pass file missing")), PickFirst,
                     Done([]), Done(true));
    outcome, trace := Run(s);
  }
}
