# WorkHQ verification model

A Dafny model of the self-contained logic of WorkHQ's backend and web client, with proofs of what that
logic promises. `dafny verify dfyconfig.toml` checks the whole project.

What is modelled, by file:

- **Formula language** (`FormulaNumbers`, `FormulaLexer`, `FormulaLexemes`, `FormulaGrammar`, `FormulaParsing`,
  `FormulaEvaluator`, `FormulaMeaning`, `FormulaLayers`, `FormulaOperations`, `FormulaParentheses`, `FormulaVariables`, `FormulaLocality`,
  `FormulaCompletion`, `FormulaAcceptance`): the tokenizer, the recursive-descent evaluator with its cursor, and the
  validator. Numbers are exact reals with infinities and NaN. The evaluator's methods are proved against functions over
  the token list, and those functions against a grammar of trees and the strict value of a tree; the grammar is then
  fixed layer by layer with its own symbols, and every operation and function by laws of its result.
- **Outbox dispatcher** (`Outbox`, `OutboxHandlers`, `OutboxDispatcher`): a step relation over rows, row locks and
  replicas, the handlers that outlive their transaction, and one replica's polling loop, which is proved to take only
  such steps whatever the other replicas do between them.
- **Payroll periods** (`Calendar`, `CivilDays`, `IsoDates`, `StringSort`, `PayrollPeriod`, `PayrollGrouping`): day numbers as in
  ECMA-262 section 21.4.1, date text as in section 5.6 of RFC 3339, and the 25th-to-23rd rules on top.
- **Thai dates** (`ThaiDates`, `ThaiMultiDates`, `ThaiNotations`, `ThaiRanges`, `ThaiTexts`, `WebThaiDates`): single dates,
  ranges and lists on the server with what each notation denotes, and the Buddhist-year field of the web client. The current year is a parameter.
- **Lease lock** (`LeaseLock`): the Redis lock service and timed runs of several instances.
- **Smaller parts**: `CancelLinkedApprovals`, `Chunking`, `Timeline`, `BreakPenalty` (exact reals), and
  `BangkokTime` (zone fixed at UTC+7).

Facts about the code that the proofs settle, where a comment or a name suggests otherwise:

- The dispatcher's header says replicas never process one row concurrently. Row locks guarantee that for transactions
  only: when a transaction is lost while its handler runs, to its 120-second limit or with its database session, the
  handler goes on and another replica can run its own for the same row
  (`OutboxHandlers.LostTransactionLetsHandlersOverlap`). Unless a handler outlives its transaction the promise holds
  (`OutboxHandlers.OneHandlerWithoutStrays`); after some have, it holds as long as no more do exactly when every one
  still running is for a processed or exhausted row (`OutboxHandlers.OneHandlerExactlyWhenStraysAreSettled`).
- The lock's token is per process, not per acquire. A release issued late, after the same process has acquired the key
  again, deletes the new lease. Exclusion holds exactly without releases that do (`LeaseLock.SafeExactlyWithoutHarm`),
  and so as long as no instance releases an older acquire after acquiring the key again
  (`LeaseLock.LeasesExcludeWithoutStaleReleases`).
- The formula validator accepts a text exactly when its tokens are a formula that evaluates without variables, or when
  the tokens up to the first variable begin some formula whose value needs that variable
  (`FormulaAcceptance.AcceptedExactly`). What follows that variable is split into tokens and not looked at otherwise:
  "a + )" is accepted although it never evaluates.
- `nextPayrollPeriodStart` returns the 24th, the first day of the next attendance window, not the 25th.
- Repairing a Bangkok timestamp is not idempotent: a time of 14:00 or later is shifted again by a second repair.
- The web field says that Buddhist and common-era years do not overlap; that holds exactly while the current year plus
  ten is below 2443.
- A longer break can cost less: the hourly tier may charge more than the four hours of the half-day tier behind it. It
  never does exactly when the settings' tiers fit together (`BreakPenalty.NeverCheaperExactlyWhenTiersFit`).
- A timeline item dated after today is filed under "this week", behind today's and yesterday's items.

## Model

| member | source | states |
|---|---|---|
| FormulaLexer.Tokenize | backend/src/shared/formula/safe-formula.evaluator.ts:24-65 | the scanning loop yields the tokens of the lexer function, or its first unreadable character |
| FormulaLexer.LexIsLinear | backend/src/shared/formula/safe-formula.evaluator.ts:25-64 | a text never yields more tokens than it has characters, with or without its white space normalized |
| FormulaLexer.LexInvertsJoin | backend/src/shared/formula/safe-formula.evaluator.ts:24-65 | lexemes joined by blanks are read back as exactly their tokens |
| FormulaLexer.WholeNumberIsSpelled | backend/src/shared/formula/safe-formula.evaluator.ts:48-53 | the decimal digits of every whole number are read as that number |
| FormulaLexer.DecimalIsSpelled | backend/src/shared/formula/safe-formula.evaluator.ts:48-53 | digits around a point are read as the decimal number they write |
| FormulaLexemes.UnreadableExactly | backend/src/shared/formula/safe-formula.evaluator.ts:29-62 | a character stops the lexer exactly when it begins no blank, bracket, comma, operator, number or name |
| FormulaLexemes.SymbolExactly | backend/src/shared/formula/safe-formula.evaluator.ts:31-46 | blanks, brackets, commas and operators stand for themselves; >, <, = and ! take a following = and nothing else |
| FormulaLexemes.NumberExactly | backend/src/shared/formula/safe-formula.evaluator.ts:47-53 | a number is the longest run of digits and points from its first character |
| FormulaLexemes.NameExactly | backend/src/shared/formula/safe-formula.evaluator.ts:54-60 | a name is the longest run of letters, underscores and digits from its first character |
| FormulaLexemes.FloatExactly | backend/src/shared/formula/safe-formula.evaluator.ts:51 | of such a run the part up to its second point counts, and it needs a digit |
| JsText.TrimExactly | backend/src/shared/formula/safe-formula.evaluator.ts:27 | trimming takes exactly the white space at both ends |
| JsText.CollapseRun | backend/src/shared/formula/safe-formula.evaluator.ts:27 | every run of white space becomes one blank |
| FormulaNumbers.MinMaxAreExtremes | backend/src/shared/formula/safe-formula.evaluator.ts:157-158 | MIN and MAX are NaN if an argument is, an infinity for no arguments, and otherwise one of them that bounds them all |
| FormulaNumbers.RoundIsNearest | backend/src/shared/formula/safe-formula.evaluator.ts:159 | ROUND gives the nearest integer, the upper one on a tie |
| FormulaNumbers.CeilBrackets | backend/src/shared/formula/safe-formula.evaluator.ts:160 | CEIL gives the least integer not below the argument |
| FormulaNumbers.FloorBrackets | backend/src/shared/formula/safe-formula.evaluator.ts:161 | FLOOR gives the greatest integer not above the argument |
| FormulaNumbers.FiniteLaws | backend/src/shared/formula/safe-formula.evaluator.ts:185-228 | the operations on finite numbers obey the laws of a field with its order |
| FormulaEvaluator.ArithmeticOnFiniteNumbers | backend/src/shared/formula/safe-formula.evaluator.ts:185-207 | each arithmetic symbol denotes its own operation; only division by zero fails |
| FormulaEvaluator.ComparisonsOnFiniteNumbers | backend/src/shared/formula/safe-formula.evaluator.ts:209-228 | each comparison symbol gives 1 or 0 by its own relation |
| FormulaOperations.SumsOfInfinities | backend/src/shared/formula/safe-formula.evaluator.ts:199-207 | sums and differences with infinities and NaN |
| FormulaOperations.ProductsOfInfinities | backend/src/shared/formula/safe-formula.evaluator.ts:185-191 | products with infinities follow the signs; an infinity times zero is NaN |
| FormulaOperations.QuotientsOfInfinities | backend/src/shared/formula/safe-formula.evaluator.ts:191-194 | quotients with infinities; the divisor zero alone fails |
| FormulaOperations.OrderOfInfinities | backend/src/shared/formula/safe-formula.evaluator.ts:209-226 | NaN is on no side of any number; the infinities lie around all others |
| FormulaOperations.ComparisonsOfAll | backend/src/shared/formula/safe-formula.evaluator.ts:209-226 | each comparison symbol on any two values, by the order and equality of numbers |
| FormulaOperations.VariableValue | backend/src/shared/formula/safe-formula.evaluator.ts:94-107 | a variable has the value the map gives it, flags as 1 and 0, and fails if it is absent or not numeric |
| FormulaOperations.WordValue | backend/src/shared/formula/safe-formula.evaluator.ts:94-95 | a word of the language in the place of a value is NaN |
| FormulaOperations.NegationValue | backend/src/shared/formula/safe-formula.evaluator.ts:135-138 | a negated factor is zero minus its value, or its error |
| FormulaOperations.ConditionalValue | backend/src/shared/formula/safe-formula.evaluator.ts:168-183 | both branches are evaluated in order; only the condition zero takes the second |
| FormulaOperations.CallFails | backend/src/shared/formula/safe-formula.evaluator.ts:142-154 | a call fails exactly with its first failing argument |
| FormulaOperations.MinCall | backend/src/shared/formula/safe-formula.evaluator.ts:157 | a call of MIN is an argument none is below; NaN if one is; plus infinity for none |
| FormulaOperations.MaxCall | backend/src/shared/formula/safe-formula.evaluator.ts:158 | a call of MAX is an argument none is above; NaN if one is; minus infinity for none |
| FormulaOperations.RoundCall | backend/src/shared/formula/safe-formula.evaluator.ts:159 | a call of ROUND is the integer nearest to the first argument, the upper one on a tie; 0 for none |
| FormulaOperations.CeilCall | backend/src/shared/formula/safe-formula.evaluator.ts:160 | a call of CEIL is the least integer not below the first argument; 0 for none |
| FormulaOperations.FloorCall | backend/src/shared/formula/safe-formula.evaluator.ts:161 | a call of FLOOR is the greatest integer not above the first argument; 0 for none |
| FormulaOperations.SumCall | backend/src/shared/formula/safe-formula.evaluator.ts:162 | a call of SUM is the real sum of its arguments, with the rules for infinities; 0 for none |
| FormulaOperations.AvgCall | backend/src/shared/formula/safe-formula.evaluator.ts:163 | a call of AVG times the number of arguments is their sum; 0 for none |
| FormulaGrammar.ParseLevel | backend/src/shared/formula/safe-formula.evaluator.ts:185-228 | parsing terminates on every token list, and success moves the cursor forward and not past the end |
| FormulaEvaluator.EvalLevel | backend/src/shared/formula/safe-formula.evaluator.ts:114-228 | fused evaluation terminates on every token list, and success moves the cursor forward and not past the end |
| FormulaParsing.ParsesExactlyTheGrammar | backend/src/shared/formula/safe-formula.evaluator.ts:114-232 | a token list parses to a tree exactly when the grammar derives it from that tree: precedence, left association, ELSE taking all it can |
| FormulaParsing.GrammarIsUnambiguous | backend/src/shared/formula/safe-formula.evaluator.ts:114-232 | no token list has two trees |
| FormulaLayers.LayersAreLevels | backend/src/shared/formula/safe-formula.evaluator.ts:114-228 | the trees of the parser are comparisons of sums of products of factors, each layer with its own literal symbols and the words of the language spelled out |
| FormulaLayers.ParsesExactlyTheLayers | backend/src/shared/formula/safe-formula.evaluator.ts:114-232 | a token list parses to a tree exactly when the tree is such a comparison and has these tokens |
| FormulaLayers.TwoOperators | backend/src/shared/formula/safe-formula.evaluator.ts:185-228 | between any three factors * and / bind tighter than + and -, and those tighter than comparisons; of two operators of one layer the left one binds |
| FormulaEvaluator.Evaluator.ParsePrimary | backend/src/shared/formula/safe-formula.evaluator.ts:114-140 | value or error and the new cursor are those of the specification at the old cursor |
| FormulaEvaluator.Evaluator.ParseFunction | backend/src/shared/formula/safe-formula.evaluator.ts:142-166 | the same for a function call with any number of arguments |
| FormulaEvaluator.Evaluator.ParseArguments | backend/src/shared/formula/safe-formula.evaluator.ts:145-152 | the argument loop collects the values of the whole comma list in order |
| FormulaEvaluator.Evaluator.ParseIf | backend/src/shared/formula/safe-formula.evaluator.ts:168-183 | the same for IF, both branches evaluated |
| FormulaEvaluator.Evaluator.ParseMulDiv | backend/src/shared/formula/safe-formula.evaluator.ts:185-197 | the loop computes the left-associative chain of products |
| FormulaEvaluator.Evaluator.ParseAddSub | backend/src/shared/formula/safe-formula.evaluator.ts:199-207 | the loop computes the left-associative chain of sums |
| FormulaEvaluator.Evaluator.ParseComparison | backend/src/shared/formula/safe-formula.evaluator.ts:209-228 | the loop computes the left-associative chain of comparisons |
| FormulaEvaluator.EvaluateFormula | backend/src/shared/formula/safe-formula.evaluator.ts:80-238 | the whole pass gives the specified outcome, the trailing-token and finiteness checks included |
| FormulaMeaning.SucceedsExactlyByMeaning | backend/src/shared/formula/safe-formula.evaluator.ts:114-237 | a formula gives v exactly when it has a tree in the grammar whose strict value is the finite v |
| FormulaMeaning.EvaluatesAsItsTree | backend/src/shared/formula/safe-formula.evaluator.ts:114-237 | a formula with a tree has the tree's outcome, its first error in reading order included |
| FormulaMeaning.NoTreeNoValue | backend/src/shared/formula/safe-formula.evaluator.ts:114-237 | a formula outside the grammar never evaluates |
| FormulaMeaning.PrintThenEvaluate | backend/src/shared/formula/safe-formula.evaluator.ts:24-65 | printing any tree with the parentheses it needs, reading it back and evaluating gives the tree's own outcome |
| FormulaParentheses.ParenthesizeIsLeast | backend/src/shared/formula/safe-formula.evaluator.ts:114-228 | no tree of the grammar with the same operators and operands has fewer parentheses than the printed one |
| FormulaMeaning.SumOfProduct | backend/src/shared/formula/safe-formula.evaluator.unit.spec.ts:10 | the text 10 + 5 * 2 evaluates to 20 |
| FormulaMeaning.BonusRule | backend/src/shared/formula/safe-formula.evaluator.unit.spec.ts:14-16 | any text of IF leaveDays > 4 THEN commission * 0.7 ELSE commission gives both cases for all values of its variables |
| FormulaMeaning.BonusTextsSpell | backend/src/shared/formula/safe-formula.evaluator.unit.spec.ts:14 | the lexemes of the rule, as they stand, are such a text |
| FormulaVariables.OutcomeDependsOnNames | backend/src/shared/formula/safe-formula.evaluator.ts:94-107 | maps that agree on the names in the formula give the same outcome |
| FormulaVariables.EmptyRunFollows | backend/src/shared/formula/safe-formula.evaluator.ts:67-78 | the run without variables equals any other run or has stopped at a missing variable |
| FormulaVariables.ValidatorIsComplete | backend/src/shared/formula/safe-formula.evaluator.ts:67-78 | every formula that some variables can evaluate is accepted |
| FormulaVariables.MissingVariableIsMentioned | backend/src/shared/formula/safe-formula.evaluator.ts:94-99 | a reported missing variable occurs in the formula and is absent from the map |
| FormulaVariables.ValidatorIsExactOnClosedFormulas | backend/src/shared/formula/safe-formula.evaluator.ts:67-78 | a formula without variables is accepted exactly when it evaluates |
| FormulaVariables.ValidatorIsNotSound | backend/src/shared/formula/safe-formula.evaluator.ts:67-78 | "a + )" is accepted and evaluates for no variables |
| FormulaLocality.LevelIsLocal | backend/src/shared/formula/safe-formula.evaluator.ts:87-107 | what a run decides within the first tokens is the same for all tokens that begin with them |
| FormulaLocality.LevelEndsBy | backend/src/shared/formula/safe-formula.evaluator.ts:94-140 | no part of a run succeeds past a variable the map does not give |
| FormulaCompletion.LevelCompletes | backend/src/shared/formula/safe-formula.evaluator.ts:114-228 | what a run has read when it misses a variable can be completed to a tree of the grammar whose own value misses it |
| FormulaAcceptance.MissesExactlyAtAVariable | backend/src/shared/formula/safe-formula.evaluator.ts:94-107 | a run misses a variable exactly when it stops at the first one it cannot resolve, whatever tokens follow; there is one such place |
| FormulaAcceptance.StopsExactlyByGrammar | backend/src/shared/formula/safe-formula.evaluator.ts:94-228 | it stops there exactly when the tokens up to it begin some formula of the grammar whose value misses that variable |
| FormulaAcceptance.AcceptedExactly | backend/src/shared/formula/safe-formula.evaluator.ts:67-78 | a text is accepted exactly when its tokens are a formula with a constant value, or begin, up to the first variable, some formula whose value needs it |
| FormulaAcceptance.StartIsAcceptedWithoutTree | backend/src/shared/formula/safe-formula.evaluator.ts:67-78 | every such beginning, with a comma behind it, is accepted and has no tree |
| FormulaEvaluator.ValidateFormulaExpression | backend/src/shared/formula/safe-formula.evaluator.ts:67-78 | valid means the run without variables succeeds or misses a variable |
| Outbox.NoRowIsHeldTwice | backend/src/common/outbox/outbox-dispatcher.service.ts:83-95 | in every run no two replicas hold one row |
| Outbox.EveryRowIsAccountedFor | backend/src/common/outbox/outbox-dispatcher.service.ts:97-123 | in every run attempts equal the committed dispatches and stay within five, claims are committed, rolled back or open, and processed rows were handled |
| Outbox.StepKeepsInv | backend/src/common/outbox/outbox-dispatcher.service.ts:83-129 | every step of every replica keeps locks exclusive and each row's books balanced |
| Outbox.TalliesCountSteps | backend/src/common/outbox/outbox-dispatcher.service.ts:97-123 | the recorded counts are the numbers of such steps in the run |
| Outbox.SettledForever | backend/src/common/outbox/outbox-dispatcher.service.ts:86-95 | a processed or exhausted row is never claimed or changed again |
| Outbox.DispatchesAreBounded | backend/src/common/outbox/outbox-dispatcher.service.ts:85-123 | without inserts every committed dispatch uses up work, so n rows take at most 5n |
| Outbox.RestsOnlyWhenDrained | backend/src/common/outbox/outbox-dispatcher.service.ts:86-95 | with no transaction open nothing is claimable exactly when all rows are settled |
| Outbox.OneReplicaKeepsOrder | backend/src/common/outbox/outbox-dispatcher.service.ts:86-95 | with one replica and no back-dated inserts events are dispatched in date order |
| OutboxHandlers.OneHandlerExactlyWhenStraysAreSettled | backend/src/common/outbox/outbox-dispatcher.service.ts:3-5 | from any state reached, no row is handled twice at once while no further handler outlives its transaction, exactly when none is now and every handler that has outlived its own is for a settled row |
| OutboxHandlers.OneHandlerWithoutStrays | backend/src/common/outbox/outbox-dispatcher.service.ts:3-5 | in every run, crashes included, in which no handler outlives its transaction no row is handled twice at once |
| OutboxHandlers.LoneReplicaHandlesOneAtATime | backend/src/common/outbox/outbox-dispatcher.service.ts:62-76 | a lone replica never handles a row twice at once, whether or not its transactions are lost |
| OutboxHandlers.LostTransactionLetsHandlersOverlap | backend/src/common/outbox/outbox-dispatcher.service.ts:104-124 | a run in which a lost transaction lets two handlers of one row overlap |
| OutboxDispatcher.Dispatcher.ClaimAndDispatchOne | backend/src/common/outbox/outbox-dispatcher.service.ts:83-129 | one call is, among any steps of others, one dispatch of an earliest claimable row, or finds none; the row ends processed with one attempt more, with one attempt more, or as it was, according to how the handler and the transaction fared |
| OutboxDispatcher.OnlyDispatchesWrite | backend/src/common/outbox/outbox-dispatcher.service.ts:104-123 | a row changes only by the commit of the transaction that holds it: one attempt more, and processed exactly after a handler that returned or none |
| OutboxDispatcher.Dispatcher.Poll | backend/src/common/outbox/outbox-dispatcher.service.ts:62-76 | a tick is, among any steps of others, at most fifty dispatches; it stops early only with nothing claimable or after a lost transaction |
| OutboxDispatcher.Database.OthersAct | backend/src/common/outbox/outbox-dispatcher.service.ts:62-129 | between two steps of a replica the others can take any run of theirs, which leaves its transaction and handler alone |
| OutboxDispatcher.Dispatcher.CheckRetryStorm | backend/src/common/outbox/outbox-dispatcher.service.ts:152-171 | alerts exactly when ten or more unprocessed rows have failed three times and a minute has passed since the last alert |
| OutboxDispatcher.StrugglingCounts | backend/src/common/outbox/outbox-dispatcher.service.ts:155-158 | the count is the number of unprocessed rows with three attempts or more |
| Calendar.OrderIsDayNumber | backend/src/shared/time/payroll-period.util.ts:27-31 | calendar order is day-number order and a day number names one date |
| Calendar.FromDays | backend/src/shared/time/payroll-period.util.ts:27-31 | every day number is the number of a valid date |
| CivilDays.ClosedForm | backend/src/shared/time/payroll-period.util.ts:27-31 | the day number of every date is given by a formula that knows no month lengths: years counted from March, 153 days to five months |
| CivilDays.InverseOfDayNumber | backend/src/shared/time/payroll-period.util.ts:27-31 | era arithmetic on the formula gives every date back |
| CivilDays.ValidExactly | backend/src/shared/time/thai-date-input.util.ts:12-14 | a year, month and day are a date exactly when that arithmetic gives them back |
| CivilDays.MonthLength | backend/src/shared/time/thai-date-input.util.ts:12-14 | a month is as long as the formula counts from its first day to that of the next |
| IsoDates.PrintThenRead | backend/src/shared/time/payroll-period.util.ts:13-20 | reading a printed date gives the date |
| IsoDates.ReadThenPrint | backend/src/shared/time/payroll-period.util.ts:13-20 | printing a date that was read gives its text, from the year 1000 on |
| IsoDates.StringOrderIsDayOrder | backend/src/shared/time/payroll-period.util.ts:67-70 | comparing date texts as strings is comparing day numbers |
| PayrollPeriod.AddMonthsComposes | backend/src/shared/time/payroll-period.util.ts:22-25 | adding months composes additively across year ends |
| PayrollPeriod.WorkDatesExactly | backend/src/shared/time/payroll-period.util.ts:39-53 | the dates the results below speak of: those whose period starts and ends in four-digit years |
| PayrollPeriod.AttendanceWindowsTile | backend/src/shared/time/payroll-period.util.ts:39-86 | a date lies in a cycle's attendance window exactly when the cycle is its own |
| PayrollPeriod.WindowsAreContiguous | backend/src/shared/time/payroll-period.util.ts:63-86 | the next period's start is the first day of the next window, one day after this one's last |
| PayrollPeriod.WindowLengths | backend/src/shared/time/payroll-period.util.ts:48-86 | a window has the days of its start month, the pay period one less |
| PayrollPeriod.PayPeriodsMissTheTwentyFourths | backend/src/shared/time/payroll-period.util.ts:39-70 | a date is in a pay period exactly when it is not a 24th, and then in its own |
| PayrollPeriod.NextStartIsTheTwentyFourth | backend/src/shared/time/payroll-period.util.ts:63-65 | the returned next start is the 24th between two periods |
| PayrollPeriod.ReportingJoinsConsecutivePeriods | backend/src/shared/time/payroll-period.util.ts:93-107 | the reporting window joins periods one month apart with one 24th between them |
| PayrollPeriod.ReportingHoldsAsOfDate | backend/src/shared/time/payroll-period.util.ts:93-107 | it holds the as-of date exactly unless that is a 24th, the day before the window |
| PayrollGrouping.PeriodStartIsMonotone | backend/src/shared/time/payroll-period.util.ts:39-46 | later dates never start earlier periods |
| PayrollGrouping.GroupDatesByPayrollPeriod | backend/src/shared/time/payroll-period.util.ts:116-125 | the buckets in key order are the sorted dates, keys ascend, every date is under its own period |
| PayrollGrouping.BucketsAreSorted | backend/src/shared/time/payroll-period.util.ts:116-125 | each bucket of such a grouping is sorted |
| StringSort.SortSorts | backend/src/shared/time/payroll-period.util.ts:118 | sorting orders the texts and keeps each as often as given |
| ThaiDates.ParsedIsIsoDate | backend/src/shared/time/thai-date-input.util.ts:16-37 | every parse result is a date of the calendar in its text form |
| ThaiDates.ParseIsIdempotent | backend/src/shared/time/thai-date-input.util.ts:16-37 | a parse result parses to itself |
| ThaiDates.ParseUndoesFormat | backend/src/shared/time/thai-date-input.util.ts:16-43 | parsing undoes formatting for every date in the accepted years |
| ThaiDates.TypedDateParsesExactly | backend/src/shared/time/thai-date-input.util.ts:26-36 | a typed date parses exactly when its year is from 1900 to the next and its numbers are a date, and then to that date, with any separators |
| ThaiDates.IsoInputParsesExactly | backend/src/shared/time/thai-date-input.util.ts:16-24 | a text in ISO form parses to itself exactly when it is a date, except the leap day of the year 0, which is read as that of 1900 |
| ThaiMultiDates.ExpandRange | backend/src/shared/time/thai-date-input.util.ts:63-77 | the checks and the cursor loop give the specified list of days |
| ThaiMultiDates.DaysInRange | backend/src/shared/time/thai-date-input.util.ts:93-99 | the day loop gives all days of the range or nothing |
| ThaiMultiDates.ParseThaiMultiDateSegment | backend/src/shared/time/thai-date-input.util.ts:79-111 | a segment is read as a single date, a day range or a full range, in that order |
| ThaiMultiDates.ParseThaiMultiDateInput | backend/src/shared/time/thai-date-input.util.ts:114-134 | the whole parse, its early answer and its segment loop |
| ThaiTexts.DateTextExactly | backend/src/shared/time/thai-date-input.util.ts:26-32 | the texts read as a single date are exactly one or two digits, a separator, one or two digits, a separator, four digits |
| ThaiTexts.DaysFromExactly | backend/src/shared/time/thai-date-input.util.ts:69-76 | the cursor loop lists exactly the dates from the first to the last |
| ThaiTexts.SegmentMeansItsDays | backend/src/shared/time/thai-date-input.util.ts:79-111 | a segment gives dates exactly when it is written in one of four notations with both ends existing, in the accepted years and in order; it gives exactly the dates between them |
| ThaiTexts.SplitExactly | backend/src/shared/time/thai-date-input.util.ts:123 | the parts of a text are the only comma-free texts that join to it |
| ThaiTexts.ListMeansItsDays | backend/src/shared/time/thai-date-input.util.ts:114-134 | a list gives dates exactly when it has a part that is not blank and all such parts are accepted; it gives exactly the dates they denote, strictly ascending |
| ThaiNotations.MultiIsUnionOfSegments | backend/src/shared/time/thai-date-input.util.ts:114-134 | a list gives r exactly when it has segments, none fails, and r is their strictly ascending union; it gives null exactly when it has none or one fails |
| ThaiNotations.OrderAndRepetitionDoNotMatter | backend/src/shared/time/thai-date-input.util.ts:123-133 | the result depends only on which segments there are |
| ThaiRanges.BothLoopsAgree | backend/src/shared/time/thai-date-input.util.ts:69-98 | the cursor loop and the day loop list the same days of a month |
| ThaiRanges.DayRangeIsFullRange | backend/src/shared/time/thai-date-input.util.ts:86-108 | a-b/mm/yyyy and a/mm/yyyy - b/mm/yyyy have the same result for all numbers, separators and spaces |
| ThaiRanges.DayRangeIsCommaList | backend/src/shared/time/thai-date-input.util.ts:86-131 | for a up to b the day range has the result of the comma list of its days |
| ThaiRanges.MultiGivesDates | backend/src/shared/time/thai-date-input.util.ts:114-134 | every result is non-empty and holds only dates of the calendar |
| WebThaiDates.ValidateThaiDateInput | web/src/lib/thai-date-input.ts:24-57 | accepts exactly the existing dates in the year range and up to the limit, as ISO text; otherwise the reason names the first check that fails |
| WebThaiDates.TypedIsJudged | web/src/lib/thai-date-input.ts:36-57 | a typed date is judged by its three numbers, with 543 taken off a year from 2443 on |
| WebThaiDates.ShownInBuddhistYears | web/src/lib/thai-date-input.ts:64-70 | a date is shown as day, month and the year 543 later |
| WebThaiDates.ParseUndoesBuddhistFormat | web/src/lib/thai-date-input.ts:24-70 | a shown date typed back is the stored date |
| WebThaiDates.CommonEraIsReadBelow2443 | web/src/lib/thai-date-input.ts:36-46 | a common-era date is stored as typed exactly when its year is below 2443 |
| WebThaiDates.YearRangesDoNotOverlap | web/src/lib/thai-date-input.ts:20-23 | all common-era dates are read as typed exactly while the current year plus ten is below 2443 |
| WebThaiDates.BothParsersAgree | web/src/lib/thai-date-input.ts:24-62 | on input the server accepts the web field agrees exactly when the year is one it allows |
| LeaseLock.RedisLockService.Acquire | backend/src/common/monitoring/redis-lock.service.ts:24-36 | true exactly when the key was free and the reply arrived, or without Redis; the store changes as SET NX does |
| LeaseLock.RedisLockService.Release | backend/src/common/monitoring/redis-lock.service.ts:39-55 | deletes the key only if it still holds this instance |
| LeaseLock.AcquireExactly | backend/src/common/monitoring/redis-lock.service.ts:24-36 | a key is set and leased exactly when it is absent or expired, the time to live is not zero, and the command and its reply arrive |
| LeaseLock.ReleaseExactly | backend/src/common/monitoring/redis-lock.service.ts:39-55 | a release that arrives deletes the key exactly when a live entry of the same instance is on it |
| LeaseLock.SafeExactlyWithoutHarm | backend/src/common/monitoring/redis-lock.service.ts:15-55 | leases exclude each other throughout a run, and after any next acquire, exactly when no release is harmful |
| LeaseLock.LeasesExclude | backend/src/common/monitoring/redis-lock.service.ts:20-36 | without a harmful release no two instances hold one key |
| LeaseLock.LeasesExcludeWithoutStaleReleases | backend/src/common/monitoring/redis-lock.service.ts:15-55 | in every run in which no instance releases an older acquire after acquiring the key again, leases exclude each other throughout |
| LeaseLock.HarmfulIsStale | backend/src/common/monitoring/redis-lock.service.ts:15 | a harmful release on behalf of a lease is for an expired one, acquired again since |
| LeaseLock.StaleReleaseLetsRivalIn | backend/src/common/monitoring/redis-lock.service.ts:15-51 | a run in which a late release breaks exclusion |
| LeaseLock.WithoutRedisEveryoneAcquires | backend/src/common/monitoring/redis-lock.service.ts:25-26 | without a configured Redis two instances acquire one key |
| CancelLinkedApprovals.Database.SelectIds | backend/src/shared/kernel/cancel-linked-approvals.ts:20-43 | the ids are exactly those linked by integration or by a staged event, each once |
| CancelLinkedApprovals.Database.CancelLinked | backend/src/shared/kernel/cancel-linked-approvals.ts:45-88 | every selected request ends terminal with no pending step, terminal and unselected ones keep every field; each step, event and workflow is as the cascade prescribes |
| CancelLinkedApprovals.SelectsTheLinked | backend/src/shared/kernel/cancel-linked-approvals.ts:22-43 | the selected ids are those of open requests linked to the entity and of executed actions that staged it |
| CancelLinkedApprovals.EveryRecordAfter | backend/src/shared/kernel/cancel-linked-approvals.ts:45-88 | every request, step, event and workflow after the call, field by field |
| CancelLinkedApprovals.OneEventEach | backend/src/shared/kernel/cancel-linked-approvals.ts:62-74 | each selected request gets exactly one event per call |
| CancelLinkedApprovals.SecondSelection | backend/src/shared/kernel/cancel-linked-approvals.ts:22-43 | a later call selects only the requests of staged events |
| CancelLinkedApprovals.SecondCallChangesNoStatus | backend/src/shared/kernel/cancel-linked-approvals.ts:20-88 | a second call changes no request, step or workflow |
| Chunking.ChunkBody | backend/prisma/seeds/company-policy-knowledge.seed.ts:45-59 | the loop ends and its chunks are consecutive overlapping stretches of the trimmed body |
| Chunking.ChunksFit | backend/prisma/seeds/company-policy-knowledge.seed.ts:51-57 | chunks are non-empty and no longer than asked |
| Chunking.ChunksRebuildText | backend/prisma/seeds/company-policy-knowledge.seed.ts:51-58 | dropping the overlap of every later chunk rebuilds the text |
| Chunking.ShortPhrasesSurvive | backend/prisma/seeds/company-policy-knowledge.seed.ts:51-58 | every phrase of up to overlap + 1 characters is found whole in some chunk |
| Chunking.PhrasesSurviveExactly | backend/prisma/seeds/company-policy-knowledge.seed.ts:51-58 | all stretches of n characters lie inside chunks exactly when there is one chunk or n is at most overlap + 1 |
| Chunking.LongerPhrasesAreLost | backend/prisma/seeds/company-policy-knowledge.seed.ts:51-58 | in any text of two chunks or more without repeated characters some phrase of each greater length is found in none |
| Timeline.GroupTimelineItems | web/src/lib/employee-timeline-utils.ts:92-115 | the loop files each item of the sorted list under its group, in order |
| Timeline.SortIsStable | web/src/lib/employee-timeline-utils.ts:33-37 | sorting is newest first, keeps the items and the order of equal times |
| Timeline.DaysAreMidnightToMidnight | web/src/lib/employee-timeline-utils.ts:64-68 | an instant belongs to the local day it lies in |
| Timeline.WeekStartsOnMonday | web/src/lib/employee-timeline-utils.ts:70-76 | the week of a day starts on the Monday at most six days before |
| Timeline.KeyExactly | web/src/lib/employee-timeline-utils.ts:78-90 | an item is filed under today, yesterday, this week from its Monday on, or earlier |
| Timeline.FutureItemIsMisplaced | web/src/lib/employee-timeline-utils.ts:78-90 | an item of tomorrow and one of today, displayed in the wrong order |
| Timeline.GroupsKeepOrder | web/src/lib/employee-timeline-utils.ts:78-115 | the groups in display order are the sorted list exactly unless a future item meets one of today or yesterday |
| BreakPenalty.AmountIsPriceOfHours | backend/src/shared/attendance/break-deduction.util.ts:33-60 | every tier's amount is the rounded price of eight, four or the rounded-up overage hours at the penalty rate |
| BreakPenalty.DeductionIsNearExact | backend/src/shared/attendance/break-deduction.util.ts:15-17 | each deduction is within half a satang of its hours at the exact rate |
| BreakPenalty.RoundMoneyIsNearest | backend/src/shared/attendance/break-deduction.util.ts:15-17 | rounded amounts are whole numbers of satang at most half a satang away |
| BreakPenalty.TierExactly | backend/src/shared/attendance/break-deduction.util.ts:33-60 | which tier a break of any length falls in |
| BreakPenalty.BegunHoursCount | backend/src/shared/attendance/break-deduction.util.ts:19-22 | every begun hour of the overage counts whole |
| BreakPenalty.DeductionExactly | backend/src/shared/attendance/break-deduction.util.ts:24-63 | every deduction is the whole number of satang nearest to none, four, eight or the begun hours at the penalty rate |
| BreakPenalty.NeverAboveFullDayExactly | backend/src/shared/attendance/break-deduction.util.ts:37-60 | no deduction exceeds the full day's exactly when the last hourly charge does not |
| BreakPenalty.NeverCheaperExactlyWhenTiersFit | backend/src/shared/attendance/break-deduction.util.ts:24-63 | up to the absence tier a longer break never costs less exactly when the last hourly charge fits the tiers behind it |
| BreakPenalty.LongerBreakCanCostLess | backend/src/shared/attendance/break-deduction.util.ts:45-60 | settings under which seven hours of break cost less than six |
| BreakPenalty.FourHoursFit | backend/src/shared/attendance/break-deduction.util.ts:37-55 | at most four hourly hours are enough for that |
| BangkokTime.NormalizeIsStable | backend/src/shared/time/thai-time-input.util.ts:12-29 | a normalized time is read as the same time and normalizes to itself |
| BangkokTime.TimeExactly | backend/src/shared/time/thai-time-input.util.ts:12-20 | a time is read exactly from one or two digits, a point or colon and two digits, up to 23 and 59 |
| BangkokTime.CombinedExactly | backend/src/shared/time/thai-time-input.util.ts:38-44 | a combined date and time is the instant seven hours before that time of that day in UTC, and nothing for an unreadable time |
| BangkokTime.CombineThenRead | backend/src/shared/time/thai-time-input.util.ts:38-44 | a combined date and time shows that date, minute and minute key on the Bangkok clock |
| BangkokTime.RepairUndoesBuggyWrite | backend/src/shared/time/thai-time-input.util.ts:50-73 | the repair inverts the old write for every local time from 07:00 and refuses earlier ones |
| BangkokTime.RepairExactly | backend/src/shared/time/thai-time-input.util.ts:50-73 | an instant is repaired exactly if it is a whole minute of the work date in UTC from 07:00 on, and then moves back seven hours |
| BangkokTime.RepairIsRepeatable | backend/src/shared/time/thai-time-input.util.ts:50-73 | repeating the repair shifts a time floor(hour / 7) times before it is refused |
| BangkokTime.NextBangkokRun | backend/src/shared/time/scheduler-time.provider.ts:28-38 | the result is the least instant after asOf whose Bangkok clock shows the time, at most 24 hours later |
| BangkokTime.MinuteKeyNamesTheMinute | backend/src/shared/time/scheduler-time.provider.ts:19-25 | two instants share a minute key exactly when they share the Bangkok minute |

## Left out

- Floating-point rounding, overflow and signed zero in formulas: numbers are exact reals with infinities and NaN.
- Prototype lookups on the variables object and parseFloat on text variables: variables are a finite map, and a text variable is given by its parsed number.
- The host's call-stack limit on deeply nested formulas, and the wording of error messages.
- PostgreSQL and Redis themselves: a claim, a commit, a SET NX EX and a release script are atomic steps; how a row's handler ends, lost transactions, refused updates and crashes are free choices of a run.
- Clock skew and network delay between a lock client and Redis: leases and entries expire by one clock.
- Shutdown of the lock client, the dispatcher's timer, logging and alert delivery; an alert is its time stamp.
- The transaction boundary of cancelLinkedApprovals: the original issues its updates one by one, so a crash in between is not modelled; iteration order of the selected ids is left open.
- Payroll dates before 24 January 1000 or after 23 December 9999, whose period has an end outside the four-digit years; years below 1000 are printed without padding and years above 9999 with five digits, so texts no longer compare as dates.
- UTF-16: characters are Unicode scalar values, so a chunk that would split a surrogate pair is not modelled.
- The Intl time-zone database and server-local time: UTC+7 for Bangkok and one fixed offset for timeline days.
- syncLeaveRequestFormValues, formatPayrollPeriodRangeTh, isThaiMultiDateInput, filterTimelineItems, searchTimelineItems and label tables: they would only add easy members.
