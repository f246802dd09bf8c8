/**
 * The study-cafe pass machine: one console ordering run. The user picks a pass type,
 * the catalog is narrowed to that type, the user picks a pass, a matching locker is
 * offered unless the pass is a FIXED one, and the order summary is shown; a failure
 * in any step ends the run with exactly one message.
 *
 * The console and the catalog files are not modelled: what each call into them
 * returns or throws is given in a `Session`, and every call the machine makes is
 * recorded, in order, as an `Event` of the run's trace.
 */
module StudyCafePassMachine {
  import opened Optional
  import opened Exceptions
  import opened StudyCafeModel

  /** The message shown for any failure that is not an AppException. */
  const UnknownErrorMessage: string := "알 수 없는 오류가 발생했습니다."

  /** One call the machine makes into the console or the catalog files. */
  datatype Event =
    | ShowWelcome                                          // outputHandler.showWelcomeMessage
    | ShowAnnouncement                                     // outputHandler.showAnnouncement
    | AskPassType                                          // outputHandler.askPassTypeSelection
    | ReadPassType                                         // inputHandler.getPassTypeSelectingUserAction
    | ReadPassCatalog                                      // studyCafeFileHandler.readStudyCafePasses
    | ShowPassList(candidates: seq<Pass>)                  // outputHandler.showPassListForSelection
    | ReadPassSelection                                    // inputHandler.getSelectPass
    | ReadLockerCatalog                                    // studyCafeFileHandler.readLockerPasses
    | AskLocker(offer: LockerPass)                         // outputHandler.askLockerPass
    | ReadLockerAnswer                                     // inputHandler.getLockerSelection
    | ShowSummary(pass: Pass, locker: Option<LockerPass>)  // outputHandler.showPassOrderSummary
    | ShowMessage(text: string)                            // outputHandler.showSimpleMessage

  /**
   * What the collaborators answer during one run: the user's answers and the
   * catalog contents, each of which may instead be an exception.
   */
  datatype Session = Session(
    passTypeInput: Step<PassType>,
    passCatalog: Step<seq<Pass>>,
    passSelection: seq<Pass> -> Step<Pass>,  // the user's pick from the list shown
    lockerCatalog: Step<seq<LockerPass>>,
    lockerInput: Step<bool>)

  /** How a run ends. */
  datatype RunOutcome =
    | Summary(pass: Pass, locker: Option<LockerPass>)
    | AppError(message: string)
    | UnknownError

  // ---------------------------------------------------------------------------
  // The stream pipelines and the boolean checks

  /** The catalog passes of the chosen type, in catalog order. */
  function FindAllPassesBy(passes: seq<Pass>, passType: PassType): (r: seq<Pass>)
    ensures |r| <= |passes|
    ensures forall p :: p in r <==> p in passes && IsSameType(p, passType)
  {
    if passes == [] then []
    else if IsSameType(passes[0], passType) then [passes[0]] + FindAllPassesBy(passes[1..], passType)
    else FindAllPassesBy(passes[1..], passType)
  }

  /** `xs` is `ys` with some entries dropped and the rest kept in their order. */
  ghost predicate IsSubsequenceOf(xs: seq<Pass>, ys: seq<Pass>)
    decreases |ys|
  {
    if xs == [] then true
    else if ys == [] then false
    else (xs[0] == ys[0] && IsSubsequenceOf(xs[1..], ys[1..])) || IsSubsequenceOf(xs, ys[1..])
  }

  lemma {:induction false} FindAllPassesByPreservesOrder(passes: seq<Pass>, passType: PassType)
    ensures IsSubsequenceOf(FindAllPassesBy(passes, passType), passes)
  {
    if passes != [] {
      var rest := FindAllPassesBy(passes[1..], passType);
      FindAllPassesByPreservesOrder(passes[1..], passType);
      if IsSameType(passes[0], passType) {
        assert ([passes[0]] + rest)[1..] == rest;
      }
    }
  }

  /** Every catalog pass of the chosen type is kept, as often as it occurs, and no other. */
  lemma {:induction false} FindAllPassesByKeepsEveryPassOfType(passes: seq<Pass>, passType: PassType, p: Pass)
    ensures multiset(FindAllPassesBy(passes, passType))[p]
         == if IsSameType(p, passType) then multiset(passes)[p] else 0
  {
    if passes != [] {
      FindAllPassesByKeepsEveryPassOfType(passes[1..], passType, p);
      assert passes == [passes[0]] + passes[1..];
    }
  }

  /** A FIXED pass never comes with a locker. */
  predicate DoesNotSupportLockerPass(pass: Pass)
  {
    IsSameType(pass, Fixed)
  }

  /** A locker pass matches a pass when both type and duration agree. */
  predicate IsSameTypeAndDuration(lockerPass: LockerPass, pass: Pass)
  {
    lockerPass.passType == pass.passType && lockerPass.duration == pass.duration
  }

  /** The first locker pass of the catalog that matches `pass`, if any. */
  function FindLockerPass(lockerPasses: seq<LockerPass>, pass: Pass): (r: Option<LockerPass>)
    ensures r.Some? ==> r.value in lockerPasses && IsSameTypeAndDuration(r.value, pass)
    ensures r.None? <==> forall l :: l in lockerPasses ==> !IsSameTypeAndDuration(l, pass)
  {
    if lockerPasses == [] then None
    else if IsSameTypeAndDuration(lockerPasses[0], pass) then Some(lockerPasses[0])
    else FindLockerPass(lockerPasses[1..], pass)
  }

  /** The locker pass found sits at a matching position with no match before it. */
  lemma {:induction false} FindLockerPassIsEarliest(lockerPasses: seq<LockerPass>, pass: Pass)
    ensures FindLockerPass(lockerPasses, pass).Some? ==>
      exists i :: 0 <= i < |lockerPasses| && lockerPasses[i] == FindLockerPass(lockerPasses, pass).value
        && forall j :: 0 <= j < i ==> !IsSameTypeAndDuration(lockerPasses[j], pass)
  {
    if lockerPasses != [] {
      if IsSameTypeAndDuration(lockerPasses[0], pass) {
        assert lockerPasses[0] == FindLockerPass(lockerPasses, pass).value;
      } else {
        var tail := lockerPasses[1..];
        FindLockerPassIsEarliest(tail, pass);
        if FindLockerPass(tail, pass).Some? {
          var i :| 0 <= i < |tail| && tail[i] == FindLockerPass(tail, pass).value
            && forall j :: 0 <= j < i ==> !IsSameTypeAndDuration(tail[j], pass);
          assert lockerPasses[i + 1] == tail[i];
          assert forall j :: 0 < j < i + 1 ==> lockerPasses[j] == tail[j - 1];
        }
      }
    }
  }

  /** When several locker passes match, the first of them in catalog order is the one found. */
  lemma {:induction false} FindLockerPassFirstMatch(lockerPasses: seq<LockerPass>, pass: Pass, i: nat)
    requires i < |lockerPasses| && IsSameTypeAndDuration(lockerPasses[i], pass)
    requires forall j :: 0 <= j < i ==> !IsSameTypeAndDuration(lockerPasses[j], pass)
    ensures FindLockerPass(lockerPasses, pass) == Some(lockerPasses[i])
  {
    if i > 0 {
      var tail := lockerPasses[1..];
      assert forall j :: 0 <= j < i - 1 ==> tail[j] == lockerPasses[j + 1];
      FindLockerPassFirstMatch(tail, pass, i - 1);
    }
  }

  // ---------------------------------------------------------------------------
  // What the two selection steps yield

  /** The pass that selectStudyCafePass returns, or the exception it throws. */
  ghost function PassSelection(s: Session): (r: Step<Pass>)
  {
    match s.passTypeInput
    case Raised(f) => Raised(f)
    case Done(passType) =>
      match s.passCatalog
      case Raised(f) => Raised(f)
      case Done(passes) => s.passSelection(FindAllPassesBy(passes, passType))
  }

  /** The locker pass (or its absence) that selectLockerPass returns for `pass`, or the exception it throws. */
  ghost function LockerSelection(pass: Pass, s: Session): (r: Step<Option<LockerPass>>)
  {
    if DoesNotSupportLockerPass(pass) then Done(None)
    else
      match s.lockerCatalog
      case Raised(f) => Raised(f)
      case Done(lockerPasses) =>
        match FindLockerPass(lockerPasses, pass)
        case None => Done(None)
        case Some(lockerPass) =>
          match s.lockerInput
          case Raised(f) => Raised(f)
          case Done(confirmed) => Done(if confirmed then Some(lockerPass) else None)
  }

  /**
   * The calls selectStudyCafePass makes, in order: the type prompt and read, then
   * (if a type was read) the catalog read, then (if the catalog was read) the
   * listing of the passes of that type and the pick. The step makes no locker
   * call and shows no summary or message.
   */
  ghost function PassEvents(s: Session): (events: seq<Event>)
    ensures |events| >= 2 && events[0] == AskPassType && events[1] == ReadPassType
    ensures forall e :: e in events ==>
      && !e.ShowSummary? && !e.ShowMessage?
      && e != ReadLockerCatalog && !e.AskLocker? && e != ReadLockerAnswer
  {
    [AskPassType, ReadPassType]
      + match s.passTypeInput
        case Raised(_) => []
        case Done(passType) =>
          [ReadPassCatalog]
            + match s.passCatalog
              case Raised(_) => []
              case Done(passes) => [ShowPassList(FindAllPassesBy(passes, passType)), ReadPassSelection]
  }

  /**
   * The calls selectLockerPass makes for `pass`: none for a FIXED pass; otherwise
   * the locker catalog read, followed, only when a locker pass matched, by the
   * offer of the first match and the read of the answer. The step only ever
   * touches the locker catalog and the locker prompt.
   */
  ghost function LockerEvents(pass: Pass, s: Session): (events: seq<Event>)
    ensures DoesNotSupportLockerPass(pass) <==> events == []
    ensures forall e :: e in events ==> e == ReadLockerCatalog || e.AskLocker? || e == ReadLockerAnswer
  {
    if DoesNotSupportLockerPass(pass) then []
    else
      [ReadLockerCatalog]
        + match s.lockerCatalog
          case Raised(_) => []
          case Done(lockerPasses) =>
            match FindLockerPass(lockerPasses, pass)
            case None => []
            case Some(lockerPass) => [AskLocker(lockerPass), ReadLockerAnswer]
  }

  /**
   * If the user's pick is always one of the passes listed, the pass selected is a
   * catalog pass of the type the user chose.
   */
  lemma PassSelectionHasChosenType(s: Session)
    requires forall c :: s.passSelection(c).Done? ==> s.passSelection(c).value in c
    ensures PassSelection(s).Done? ==>
      && s.passTypeInput.Done? && s.passCatalog.Done?
      && PassSelection(s).value in s.passCatalog.value
      && PassSelection(s).value.passType == s.passTypeInput.value
  {
    if s.passTypeInput.Done? && s.passCatalog.Done? {
      var candidates := FindAllPassesBy(s.passCatalog.value, s.passTypeInput.value);
      assert PassSelection(s) == s.passSelection(candidates);
    }
  }

  /**
   * No locker is added when the pass is FIXED, whatever the locker catalog and the
   * user would answer, nor when no locker pass of the catalog matches.
   */
  lemma LockerSelectionWithoutOffer(pass: Pass, s: Session)
    ensures DoesNotSupportLockerPass(pass) ==> LockerSelection(pass, s) == Done(None)
    ensures !DoesNotSupportLockerPass(pass) && s.lockerCatalog.Done?
      && (forall l :: l in s.lockerCatalog.value ==> !IsSameTypeAndDuration(l, pass))
      ==> LockerSelection(pass, s) == Done(None)
  {
  }

  /**
   * When the i-th catalog locker pass is the first to match a pass that supports
   * lockers, it is the one offered, and it is added exactly when the user confirms.
   */
  lemma LockerSelectionOffersFirstMatch(pass: Pass, s: Session, i: nat)
    requires !DoesNotSupportLockerPass(pass) && s.lockerCatalog.Done?
    requires i < |s.lockerCatalog.value| && IsSameTypeAndDuration(s.lockerCatalog.value[i], pass)
    requires forall j :: 0 <= j < i ==> !IsSameTypeAndDuration(s.lockerCatalog.value[j], pass)
    ensures s.lockerInput.Done? ==>
      (LockerSelection(pass, s) == Done(Some(s.lockerCatalog.value[i])) <==> s.lockerInput.value)
    ensures s.lockerInput == Done(false) ==> LockerSelection(pass, s) == Done(None)
    ensures s.lockerInput.Raised? ==> LockerSelection(pass, s) == Raised(s.lockerInput.failure)
  {
    FindLockerPassFirstMatch(s.lockerCatalog.value, pass, i);
  }

  /**
   * A locker pass that is added has the pass's type and duration, is the earliest
   * match in the locker catalog, and was confirmed by the user.
   */
  lemma LockerSelectionMatchesPass(pass: Pass, s: Session)
    ensures LockerSelection(pass, s).Done? && LockerSelection(pass, s).value.Some? ==>
      var lockerPass := LockerSelection(pass, s).value.value;
      && !DoesNotSupportLockerPass(pass)
      && lockerPass.passType == pass.passType && lockerPass.duration == pass.duration
      && s.lockerInput == Done(true)
      && s.lockerCatalog.Done?
      && exists i :: 0 <= i < |s.lockerCatalog.value| && s.lockerCatalog.value[i] == lockerPass
           && forall j :: 0 <= j < i ==> !IsSameTypeAndDuration(s.lockerCatalog.value[j], pass)
  {
    if !DoesNotSupportLockerPass(pass) && s.lockerCatalog.Done? {
      FindLockerPassIsEarliest(s.lockerCatalog.value, pass);
    }
  }

  // ---------------------------------------------------------------------------
  // The steps of a run

  method SelectPassType(s: Session) returns (r: Step<PassType>, events: seq<Event>)
    ensures events == [AskPassType, ReadPassType]
    ensures r == s.passTypeInput
  {
    events := [AskPassType];
    r := s.passTypeInput;
    events := events + [ReadPassType];
  }

  /** Lists the candidates, even when there are none, and returns the user's pick. */
  method SelectPassFrom(candidates: seq<Pass>, s: Session) returns (r: Step<Pass>, events: seq<Event>)
    ensures events == [ShowPassList(candidates), ReadPassSelection]
    ensures r == s.passSelection(candidates)
  {
    events := [ShowPassList(candidates)];
    r := s.passSelection(candidates);
    events := events + [ReadPassSelection];
  }

  /**
   * Asks for the pass type, reads the pass catalog and lets the user pick among
   * the passes of that type; the first exception ends the step.
   */
  method SelectStudyCafePass(s: Session) returns (r: Step<Pass>, events: seq<Event>)
    ensures r == PassSelection(s)
    ensures events == PassEvents(s)
  {
    var passType;
    passType, events := SelectPassType(s);
    if passType.Raised? {
      return Raised(passType.failure), events;
    }
    events := events + [ReadPassCatalog];
    if s.passCatalog.Raised? {
      return Raised(s.passCatalog.failure), events;
    }
    var passes := FindAllPassesBy(s.passCatalog.value, passType.value);
    var selectEvents;
    r, selectEvents := SelectPassFrom(passes, s);
    events := events + selectEvents;
  }

  /** Shows the locker offer and reads the user's yes or no. */
  method ConfirmLockerPassSelection(lockerPass: LockerPass, s: Session) returns (r: Step<bool>, events: seq<Event>)
    ensures events == [AskLocker(lockerPass), ReadLockerAnswer]
    ensures r == s.lockerInput
  {
    events := [AskLocker(lockerPass)];
    r := s.lockerInput;
    events := events + [ReadLockerAnswer];
  }

  /**
   * Decides the locker for the selected pass: none for a FIXED pass (without
   * reading the locker catalog or asking), none when no locker pass matches
   * (without asking), otherwise the first match, if the user confirms it.
   */
  method SelectLockerPass(pass: Pass, s: Session) returns (r: Step<Option<LockerPass>>, events: seq<Event>)
    ensures r == LockerSelection(pass, s)
    ensures events == LockerEvents(pass, s)
  {
    events := [];
    if DoesNotSupportLockerPass(pass) {
      return Done(None), events;
    }
    events := [ReadLockerCatalog];
    if s.lockerCatalog.Raised? {
      return Raised(s.lockerCatalog.failure), events;
    }
    var optionalLockerPass := FindLockerPass(s.lockerCatalog.value, pass);
    if optionalLockerPass.Some? {
      var lockerPass := optionalLockerPass.value;
      var isLockerPassConfirmed, confirmEvents := ConfirmLockerPassSelection(lockerPass, s);
      events := events + confirmEvents;
      if isLockerPassConfirmed.Raised? {
        return Raised(isLockerPassConfirmed.failure), events;
      }
      if isLockerPassConfirmed.value {
        return Done(Some(lockerPass)), events;
      }
    }
    r := Done(None);
  }

  // ---------------------------------------------------------------------------
  // The whole run

  /** The exception thrown by the first step that fails, if one does. */
  ghost function FirstFailure(s: Session): (r: Option<Failure>)
  {
    match PassSelection(s)
    case Raised(f) => Some(f)
    case Done(pass) =>
      match LockerSelection(pass, s)
      case Raised(f) => Some(f)
      case Done(_) => None
  }

  /** The catch clauses of run: which outcome an exception becomes. */
  function Caught(f: Failure): (outcome: RunOutcome)
  {
    match f
    case AppException(message) => AppError(message)
    case OtherException(_) => UnknownError
  }

  /** The last call of a run: the summary, or the one message shown for a failure. */
  function Closing(outcome: RunOutcome): (e: Event)
  {
    match outcome
    case Summary(pass, locker) => ShowSummary(pass, locker)
    case AppError(message) => ShowMessage(message)
    case UnknownError => ShowMessage(UnknownErrorMessage)
  }

  /** One ordering run, from the welcome to the summary or to the single error message. */
  method Run(s: Session) returns (outcome: RunOutcome, trace: seq<Event>)
    // the summary, exactly when no step fails, with the pass selected and the
    // locker decided for exactly that pass
    ensures outcome.Summary? <==> FirstFailure(s).None?
    ensures outcome.Summary? ==>
      PassSelection(s) == Done(outcome.pass) && LockerSelection(outcome.pass, s) == Done(outcome.locker)
    // an AppException shows its own message, any other exception the fixed one
    ensures FirstFailure(s).Some? && FirstFailure(s).value.AppException? ==>
      outcome == AppError(FirstFailure(s).value.message)
    ensures FirstFailure(s).Some? && FirstFailure(s).value.OtherException? ==> outcome == UnknownError
    // welcome and announcement, the calls of pass selection, those of locker
    // selection only when a pass was selected, and the closing call: nothing runs
    // after a failure
    ensures trace == [ShowWelcome, ShowAnnouncement] + PassEvents(s)
      + (if PassSelection(s).Done? then LockerEvents(PassSelection(s).value, s) else [])
      + [Closing(outcome)]
    // welcome and announcement first; the summary or one message last, and nowhere else
    ensures |trace| >= 5 && trace[0] == ShowWelcome && trace[1] == ShowAnnouncement
    ensures trace[|trace| - 1] == Closing(outcome)
    ensures forall i :: 0 <= i < |trace| - 1 ==> !trace[i].ShowSummary? && !trace[i].ShowMessage?
    // a FIXED pass: no locker catalog read, no locker offer, no locker answer read
    ensures PassSelection(s).Done? && DoesNotSupportLockerPass(PassSelection(s).value) ==>
      forall e :: e in trace ==> e != ReadLockerCatalog && !e.AskLocker? && e != ReadLockerAnswer
    // a pass that supports lockers is offered the first matching locker pass, if there is one
    ensures (&& PassSelection(s).Done? && !DoesNotSupportLockerPass(PassSelection(s).value)
             && s.lockerCatalog.Done? && FindLockerPass(s.lockerCatalog.value, PassSelection(s).value).Some?) ==>
      AskLocker(FindLockerPass(s.lockerCatalog.value, PassSelection(s).value).value) in trace
    // a pass type that cannot be read ends the run with no further prompt
    ensures s.passTypeInput.Raised? ==>
      trace == [ShowWelcome, ShowAnnouncement, AskPassType, ReadPassType, Closing(outcome)]
  {
    trace := [ShowWelcome, ShowAnnouncement];
    var selectedPass, passEvents := SelectStudyCafePass(s);
    trace := trace + passEvents;
    match selectedPass {
      case Raised(f) =>
        outcome := Caught(f);
      case Done(pass) =>
        var selectedLockerPass, lockerEvents := SelectLockerPass(pass, s);
        trace := trace + lockerEvents;
        match selectedLockerPass {
          case Raised(f) =>
            outcome := Caught(f);
          case Done(lockerPass) =>
            outcome := Summary(pass, lockerPass);
        }
    }
    trace := trace + [Closing(outcome)];
  }
}
