# Study cafe pass machine, in Dafny

This project models the ordering core of the study-cafe console program
(`StudyCafePassMachine`). In one run the user picks a pass type, the pass
catalog is narrowed to that type, and the user picks a pass. If the pass is
not a FIXED one, the first locker pass of the locker catalog with the same type
and duration is offered, and it is added only if the user confirms. The run
ends with the order summary. A failure in any step ends the run with exactly
one message instead: an `AppException` shows its own message, and any other
exception shows a fixed text.

Layout:

- `optional.dfy`: module `Optional`, an `Option` datatype. It stands for
  `java.util.Optional` and for the nullable locker pass.
- `exceptions.dfy`: module `Exceptions`. `Failure` is `AppException(message)` or
  `OtherException(detail)`. `Step<T>` is one collaborator call's result, either
  `Done(value)` or `Raised(failure)`.
- `model.dfy`: module `StudyCafeModel`, with `PassType`, `Pass` and `LockerPass`
  as values (type, duration and price), and `IsSameType`.
- `pass_machine.dfy`: module `StudyCafePassMachine`, the machine itself.
- `scenarios.dfy`: module `StudyCafeScenarios`, whole runs on concrete sessions.

How the effects are modelled. The machine calls the console and the catalog
files. A `Session` value says what each of those calls returns or throws:
- the pass type read;
- the pass catalog;
- the user's pick, as a function of the list shown;
- the locker catalog;
- the locker yes/no answer.

Every call the machine makes is recorded in order as an `Event`, covering both
output calls and reads. A step's method returns its result as a `Step` plus the
events it caused. `Run` returns a `RunOutcome`, which is `Summary(pass, locker)`,
`AppError(message)` or `UnknownError`, together with the whole trace.
The stream pipelines `findAllPassesBy` and `findLockerPass` are recursive
functions over `seq`. The step methods are proved against ghost functions:
`PassSelection` and `LockerSelection` for their results, and `PassEvents` and
`LockerEvents` for the calls they make. The lemmas state the properties of
those functions.

## Model

| member | source | states |
|---|---|---|
| `StudyCafePassMachine.FindAllPassesBy` | src/main/java/cleancode/studycafe/tobe/StudyCafePassMachine.java:47-52 | a pass is in the result exactly when it is in the catalog and has the chosen type; the result is never longer than the catalog |
| `StudyCafePassMachine.FindAllPassesByPreservesOrder` | src/main/java/cleancode/studycafe/tobe/StudyCafePassMachine.java:48-51 | the filtered list is a subsequence of the catalog, so catalog order is kept |
| `StudyCafePassMachine.FindAllPassesByKeepsEveryPassOfType` | src/main/java/cleancode/studycafe/tobe/StudyCafePassMachine.java:47-52 | each pass of the chosen type occurs in the result as often as in the catalog; a pass of another type never occurs |
| `StudyCafePassMachine.FindLockerPass` | src/main/java/cleancode/studycafe/tobe/StudyCafePassMachine.java:80-90 | a found locker pass is in the locker catalog and has the pass's type and duration; nothing is found exactly when no catalog entry matches |
| `StudyCafePassMachine.FindLockerPassIsEarliest` | src/main/java/cleancode/studycafe/tobe/StudyCafePassMachine.java:82-84 | the locker pass found stands at a catalog position with no matching entry before it |
| `StudyCafePassMachine.FindLockerPassFirstMatch` | src/main/java/cleancode/studycafe/tobe/StudyCafePassMachine.java:82-84 | when entry i is the first match, entry i itself is the one found; later matching entries, which may differ in price, are not |
| `StudyCafePassMachine.PassSelectionHasChosenType` | src/main/java/cleancode/studycafe/tobe/StudyCafePassMachine.java:36-57 | if the user's pick is always one of the listed passes, the selected pass is a catalog pass of the chosen type; a pass is selected only if the type and the catalog were both read |
| `StudyCafePassMachine.LockerSelectionWithoutOffer` | src/main/java/cleancode/studycafe/tobe/StudyCafePassMachine.java:59-78 | a FIXED pass gets no locker whatever the locker catalog and the answer would be; a pass with no matching locker pass gets none |
| `StudyCafePassMachine.LockerSelectionOffersFirstMatch` | src/main/java/cleancode/studycafe/tobe/StudyCafePassMachine.java:64-73 | for a pass that supports lockers, when entry i is the first match: the result is that locker pass exactly when the user confirms, absent when the user declines, and the answer's exception when reading the answer fails |
| `StudyCafePassMachine.LockerSelectionMatchesPass` | src/main/java/cleancode/studycafe/tobe/StudyCafePassMachine.java:59-90 | an added locker pass belongs to a non-FIXED pass, has that pass's type and duration, is the earliest match in the locker catalog, and was confirmed |
| `StudyCafePassMachine.PassEvents` | src/main/java/cleancode/studycafe/tobe/StudyCafePassMachine.java:36-57 | pass selection starts with the type prompt and read; it never touches the locker catalog or prompt and never shows a summary or message |
| `StudyCafePassMachine.LockerEvents` | src/main/java/cleancode/studycafe/tobe/StudyCafePassMachine.java:59-95 | locker selection makes no call at all exactly when the pass is FIXED; it only reads the locker catalog, shows the offer and reads the answer |
| `StudyCafePassMachine.SelectPassType` | src/main/java/cleancode/studycafe/tobe/StudyCafePassMachine.java:42-45 | the prompt comes before the read, and the read's result or exception is the step's |
| `StudyCafePassMachine.SelectPassFrom` | src/main/java/cleancode/studycafe/tobe/StudyCafePassMachine.java:54-57 | the candidates are listed, even when there are none, and the pick is made from exactly that list |
| `StudyCafePassMachine.SelectStudyCafePass` | src/main/java/cleancode/studycafe/tobe/StudyCafePassMachine.java:36-40 | the result is `PassSelection` and the calls are `PassEvents`: type prompt and read, catalog read, then listing and pick of the filtered passes; the first exception stops the step |
| `StudyCafePassMachine.ConfirmLockerPassSelection` | src/main/java/cleancode/studycafe/tobe/StudyCafePassMachine.java:92-95 | the offer is shown for the given locker pass before the answer is read; the answer is the step's result |
| `StudyCafePassMachine.SelectLockerPass` | src/main/java/cleancode/studycafe/tobe/StudyCafePassMachine.java:59-74 | the result is `LockerSelection` and the calls are `LockerEvents`: a FIXED pass makes no call at all; otherwise the locker catalog is read, and the offer and answer follow only when a locker pass matched, for that first match |
| `StudyCafePassMachine.Run` | src/main/java/cleancode/studycafe/tobe/StudyCafePassMachine.java:20-34 | a summary exactly when no step fails, for the selected pass and the locker decided for that same pass; an AppException becomes its own message, any other exception the fixed message; the trace is exactly welcome, announcement, the pass-selection calls, the locker-selection calls only when a pass was selected, and one closing summary or message, so nothing runs after a failure; a FIXED pass causes no locker call; the first matching locker is offered; a failed pass-type read is followed by nothing but the message |
| `StudyCafeScenarios.HourlyPassWithConfirmedLocker` | src/main/java/cleancode/studycafe/tobe/StudyCafePassMachine.java:20-34 | an hourly pass is picked from a mixed catalog with two matching lockers at different prices; the first locker is offered and the second is not, and once confirmed the summary holds the pass and the first locker |
| `StudyCafeScenarios.FixedPassWithoutLocker` | src/main/java/cleancode/studycafe/tobe/StudyCafePassMachine.java:20-34 | a fixed pass ends in a summary without a locker; the locker catalog is never read, even when it is unreadable, and no locker offer is shown |
| `StudyCafeScenarios.InvalidPassType` | src/main/java/cleancode/studycafe/tobe/StudyCafePassMachine.java:20-34 | an AppException from the pass-type read ends the run with its message right after that read |
| `StudyCafeScenarios.UnreadablePassCatalog` | src/main/java/cleancode/studycafe/tobe/StudyCafePassMachine.java:20-34 | any other exception from the catalog read ends the run right after that read with the fixed message; the whole trace is given, and the exception's own text is never shown |

`DoesNotSupportLockerPass` (lines 76-78) and `IsSameTypeAndDuration`
(lines 87-90) are the two boolean checks. They are stated by the rows of
`SelectLockerPass`, `LockerSelectionWithoutOffer` and `FindLockerPass`, which
use them. `Caught` models the two catch clauses (lines 29-32): an
`AppException` becomes `AppError` with its own message, and any other exception
becomes `UnknownError`. `Closing` models the last output call of a run (lines
28, 30 and 32): the summary, the exception's message, or the fixed message.
Both are stated by the `Run` row, whose contract uses them.

## Left out

- `InputHandler`, `OutputHandler` and `StudyCafeFileHandler` are not part of this model. What their calls return or throw is a `Session` parameter, and their calls appear only as trace events.
- `PassSelectionHasChosenType`: the index check inside `InputHandler.getSelectPass` is not visible. The pick is any function from the listed passes to a pass or an exception, so the lemma assumes, and does not prove, that the pick is one of the listed passes. Nothing is proved about an index out of range.
- The output calls are taken never to throw. The text of the welcome, announcement, lists, offer and summary is not modelled. Only the fixed message for unknown errors is kept, as the source's own constant.
- Prices are kept but play no part in any decision. Other descriptive fields of a pass, such as a discount, are not part of this model.
- `StudyCafePass.isSameType` is not part of this model. It is taken to be equality of pass types (`StudyCafeModel.IsSameType`), in line with the explicit type comparison at line 88.
- `StudyCafePassType` is not part of this model. Its values are taken to be HOURLY, WEEKLY and FIXED; only FIXED plays a part in a decision.
- The Java exception hierarchy is not modelled. `catch (AppException e)` versus `catch (Exception e)` becomes the two constructors of `Failure`.
- Java `null` for "no locker" is modelled as `None`.
