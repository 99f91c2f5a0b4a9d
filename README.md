# Peer-recognition credit ledger, modelled in Dafny

This project models the ledger core of a peer-recognition credit system. Students hold credit
balances. They send credits to one another as *recognitions*, *endorse* recognitions (no credit
effect), *redeem* credits for vouchers worth 5 rupees per credit, and have their balances *reset*
each calendar month to 100 plus up to 50 carried forward. A *leaderboard* ranks students by the
credits they received over their lifetime.

Layout:

- `wrappers.dfy` (module `Wrappers`): `Option` and `Result`.
- `models.dfy` (module `Models`): the five record shapes, the defaults a new student gets, and each
  record's dictionary view together with a reader that inverts it.
- `rules.dfy` (module `Rules`): the store as a value (`Store`) whose five tables are sequences with
  ids 1, 2, 3, ... The module holds each operation's ordered checks (`...Rejection`) and its full
  effect (`...Outcome`). It also holds the store invariant `Consistent`, the ledger-wide balance
  total, and the lemmas that every operation keeps the invariant.
- `ranking.dfy` (module `Ranking`): the leaderboard specification. It covers the per-student
  standings, the ranking order, a reference sort, the top-`limit` cut and its properties.
- `ledger.dfy` (module `Services`): the class `Ledger`. Its sequence fields are the tables. Its
  methods validate and then update rows, as the service functions do, and each one is proved to
  produce exactly the state and result of its `Rules` outcome while keeping `Valid()`. Two client
  methods use only the class contracts. `Walkthrough` replays a transfer, a refused self-transfer,
  a redemption and a one-row leaderboard. `ResetWalkthrough` replays a reset run twice in one month.

The store invariant (`Rules.Consistent`) says the following:

- every balance is non-negative;
- every monthly sent counter lies in [0, 100];
- every student's lifetime received counter equals the sum of the recognitions they received;
- every reference points at an existing row;
- redemption vouchers are 5 times the credits;
- carried-forward amounts lie in [0, 50];
- there is at most one endorsement per (recognition, endorser) pair;
- every reset log's month is no later than its student's last reset;
- there is at most one reset log per (student, month);
- every student's last reset, if any, has a reset log for its month.

The last three are not schema constraints. They follow from the reset writing a log exactly when
it moves a student's last reset forward to a new month.

## Model

| member | source | states |
|---|---|---|
| `Models.NewStudent` | src/models.py:8-13 | A new student has balance 100, received and monthly-sent counters 0, and no last reset. |
| `Models.StudentToDict` | src/models.py:15-22 | The student dictionary has exactly the keys id, name, current_balance, credits_received_total and monthly_sent_this_month; last_credit_reset is not among them. |
| `Models.StudentDictRoundTrip` | src/models.py:15-22 | Reading the dictionary back gives the student with every field intact except the last reset, which comes back unset. |
| `Models.RecognitionToDict` | src/models.py:38-46 | The keys are id, sender_id, receiver_id, credits and message; the message is null exactly when the recognition has none. |
| `Models.RecognitionDictRoundTrip` | src/models.py:38-46 | The recognition dictionary reads back to the identical record. |
| `Models.EndorsementToDict` | src/models.py:64-70 | The keys are id, recognition_id and endorser_id. |
| `Models.EndorsementDictRoundTrip` | src/models.py:64-70 | The endorsement dictionary reads back to the identical record. |
| `Models.RedemptionToDict` | src/models.py:84-91 | The keys are id, student_id, credits_redeemed and voucher_value_inr. |
| `Models.RedemptionDictRoundTrip` | src/models.py:84-91 | The redemption dictionary reads back to the identical record, both amounts as integers. |
| `Models.ResetLogToDict` | src/models.py:106-114 | The keys are id, student_id, month, year and carried_forward. |
| `Models.ResetLogDictRoundTrip` | src/models.py:106-114 | The reset-log dictionary reads back to the identical record. |
| `Rules.RegisterOutcome` | src/models.py:8-13 | Registering appends a default student under the next id and raises the ledger total by exactly 100. |
| `Rules.RegisterKeepsConsistent` | src/models.py:10-13 | A newly registered student keeps the store consistent: no recognition names them, so their received total of 0 is the sum of what they received. |
| `Rules.TransferRejection` | src/services.py:19-43 | A transfer is accepted exactly when sender and receiver exist, they differ, credits <= the sender's balance, and monthly sent + credits <= 100 (the limit is inclusive). Otherwise the reason is the first failing check in source order: a missing sender, then a missing receiver (each reported with its id), then a self-transfer (exactly when both exist and are the same student, whatever the balance or limit), then insufficient balance (exactly when credits exceed the balance, reported with balance and credits), then the monthly limit (exactly when the balance suffices but monthly sent + credits > 100, reported with the amount sent and the credits). |
| `Rules.TransferOutcome` | src/services.py:19-66 | A refused transfer changes nothing and reports the first failing check in source order. An accepted one debits the sender and adds the credits to the sender's monthly counter. It credits the receiver's balance and lifetime counter, leaves every other student unchanged, keeps the ledger total unchanged (zero-sum), and appends exactly one recognition. |
| `Rules.TransferKeepsConsistent` | src/services.py:31-52 | With positive credits, a transfer keeps every invariant: balances stay non-negative, the monthly counter stays within [0, 100], and the received counter stays equal to the sum received. |
| `Rules.ReceivedSumAppend` | src/services.py:52 | Recording one more recognition adds its credits to its receiver's received sum and to no other student's. |
| `Rules.FindEndorsement` | src/services.py:89-96 | The duplicate lookup finds a stored endorsement with this recognition and endorser exactly when the endorser has already endorsed the recognition. |
| `Rules.EndorseRejection` | src/services.py:79-96 | An endorsement is accepted exactly when the recognition exists, the endorser exists and that endorser has not endorsed it yet. Otherwise a missing recognition is reported first, then a missing endorser, each with its id. The request is refused as a duplicate exactly when both exist and the pair is already recorded. |
| `Rules.EndorseOutcome` | src/services.py:79-108 | A refused endorsement changes nothing. An accepted one appends one endorsement. Either way no student row changes. |
| `Rules.EndorseKeepsConsistent` | src/models.py:60-62 | Endorsing keeps the store consistent; in particular every (recognition, endorser) pair stays unique. |
| `Rules.EndorseTwice` | src/services.py:89-96 | After a successful endorsement, the same pair is refused as a duplicate, while a different existing endorser on the same recognition still succeeds. |
| `Rules.RedeemRejection` | src/services.py:123-137 | A redemption is accepted exactly when the student exists and 0 < credits <= balance. Otherwise a missing student is reported first, then an invalid amount (exactly when the student exists and credits <= 0), then insufficient credits (exactly when the amount is positive and exceeds the balance, reported with balance and credits). |
| `Rules.RedeemOutcome` | src/services.py:123-156 | A refused redemption changes nothing. An accepted one records a voucher worth credits * 5 and lowers the balance by exactly the credits, which leaves it non-negative. The received and monthly counters and all other students are unchanged, and the ledger total drops by the credits. |
| `Rules.RedeemKeepsConsistent` | src/services.py:128-153 | A redemption keeps every store invariant. |
| `Rules.MonthBefore` | src/services.py:221-230 | For real months (1 to 12), month a comes before month b exactly when a's count of months since year 0 is smaller, which is how the first days of the two months compare. |
| `Rules.MonthBeforeIsStrictOrder` | src/services.py:229-230 | The month order is irreflexive, asymmetric, transitive and total. |
| `Rules.NeedsReset` | src/services.py:223-230 | No reset is due in the month of the last reset. While the clock is not behind the last reset, a reset is due exactly when the last reset was in a different month. |
| `Rules.CarryForward` | src/services.py:235-236 | The carry is at most 50 and at most the balance, and it equals one of them; it is non-negative for a non-negative balance. |
| `Rules.ResetStudent` | src/services.py:235-245 | The reset balance is 100 plus the carry, so it lies in [100, 150] for a non-negative balance. The monthly counter becomes 0 and the last reset becomes now, so no further reset is due this month. Id, name and received total are kept. |
| `Rules.ResetOutcome` | src/services.py:220-259 | A reset happens exactly when the student was never reset or was last reset in an earlier (year, month). If not, nothing changes. If so, the student is reset and exactly one log is appended with now's month and year and the carry. The ledger total changes by 100 + carry - old balance. |
| `Rules.ResetTwiceSameMonth` | src/services.py:223-233 | A second reset of the same student in the same month reports "not reset" and leaves the store unchanged. |
| `Rules.ResetKeepsConsistent` | src/services.py:235-257 | A reset keeps every invariant; the logged carry lies in [0, 50]. |
| `Rules.ResetKeepsLogsAgreeing` | src/services.py:245-257 | After a reset, every log is still no later than its student's last reset, each (student, month) still has at most one log, and every last reset is still on record. |
| `Rules.ResetDueIffNotLogged` | src/services.py:223-257 | In a consistent store whose clock is not behind the student's last reset, a reset is due exactly when the student has no reset log for the current month. |
| `Rules.DueCount` | src/services.py:267-274 | The number of students due for a reset never exceeds the number of students. |
| `Rules.ResetFirst` | src/services.py:267-272 | After the loop has visited the first k students, the count is at most k and no student has been added or removed. |
| `Rules.ResetAll` | src/services.py:262-274 | The batch reset count is at most the number of students. |
| `Rules.ResetFirstStudents` | src/services.py:270-272 | After k steps, each of the first k students is reset exactly when it was due, and the others are untouched. |
| `Rules.ResetFirstCount` | src/services.py:268-272 | After k steps, the count is the number of the first k students that were due. |
| `Rules.ResetAllCountsDue` | src/services.py:262-274 | The batch reset returns exactly the number of students that were due, and a second run in the same month returns 0. |
| `Rules.ResetFirstKeepsConsistent` | src/services.py:270-272 | Every prefix of the batch reset keeps the store consistent. |
| `Ranking.RecognitionCount` | src/services.py:180-183 | A student's recognition count never exceeds the number of recognitions. |
| `Ranking.RecognitionCountNone` | src/services.py:175-183 | A student who received no recognition is counted with 0 recognitions rather than left out. |
| `Ranking.EndorsementCount` | src/services.py:181-185 | A student's endorsement count never exceeds the number of endorsements. |
| `Ranking.Standings` | src/services.py:176-187 | There is one standing per student, in id order, each built from that student's row and counts. |
| `Ranking.RanksAbove` | src/services.py:188-190 | A row with more credits received ranks above one with fewer, never below it. Between equal totals, the smaller student id ranks above. |
| `Ranking.RanksAboveIsStrictOrder` | src/services.py:188-190 | The ranking order is irreflexive, asymmetric and transitive, and it orders any two rows with different student ids. |
| `Ranking.Ranked` | src/services.py:188-190 | In a ranked list, totals received never increase down the list, and rows with equal totals come in ascending id order. |
| `Ranking.Sort` | src/services.py:188-190 | The result is a permutation of the standings in which no row ranks above an earlier one (credits received descending, then id ascending). |
| `Ranking.Top` | src/services.py:188-191 | The leaderboard for a limit has min(limit, number of students) rows and is a prefix of the ranked standings. |
| `Ranking.TopRows` | src/services.py:176-191 | The leaderboard has min(limit, number of students) rows, in ranking order. Its rows form a sub-multiset of the standings, so no standing appears more often than it does among them. With a limit of at least the student count, it holds every standing exactly once. |
| `Ranking.StandingFaithful` | src/services.py:177-185 | In a consistent store, a standing is the true standing of the student it names, and its received total is the sum of the credits that student received. |
| `Ranking.StandingIdsUnique` | src/models.py:8 | Two standings of a consistent store with the same student id are the same row. |
| `Ranking.TopBeatsRest` | src/services.py:188-191 | Every standing cut off by the limit ranks below every row that was kept. |
| `Ranking.LeaderboardIsTop` | src/services.py:159-204 | All of the above together: length min(limit, n), ranked order, true standings and counts, the top-limit cut, no standing listed more often than it occurs, and every student present when the limit allows. |
| `Ranking.StandingToDict` | src/services.py:196-202 | A leaderboard row has exactly the keys student_id, name, credits_received_total, recognition_count and endorsement_count. |
| `Ranking.StandingDictRoundTrip` | src/services.py:196-202 | A leaderboard row reads back from its dictionary to the identical row. |
| `Services.Ledger.Register` | src/models.py:8-13 | The method appends a default student under the next id and keeps the store valid. |
| `Services.Ledger.CreateRecognition` | src/services.py:7-66 | The checks run in order before any change, then the rows are updated in place. The new tables and the result equal `Rules.TransferOutcome` of the old tables, and the store stays valid. |
| `Services.Ledger.Endorse` | src/services.py:69-108 | The new tables and the result equal `Rules.EndorseOutcome` of the old tables, and the store stays valid. |
| `Services.Ledger.Redeem` | src/services.py:111-156 | The new tables and the result equal `Rules.RedeemOutcome` of the old tables, and the store stays valid. |
| `Services.Ledger.EnsureMonthlyReset` | src/services.py:207-259 | The new tables and the returned flag equal `Rules.ResetOutcome` of the old tables, and the store stays valid. |
| `Services.Ledger.RunMonthlyResetForAllStudents` | src/services.py:262-274 | The loop over all students leaves `Rules.ResetAll` of the old tables. It returns the number of students that were due, which is at most the student count, and the store stays valid. |
| `Services.Ledger.Leaderboard` | src/services.py:159-204 | The method returns at most limit rows: the dictionaries of `Ranking.Top` of the current tables, in order. |
| `Services.SendThanks` | src/services.py:19-66 | On two fresh students, a transfer of 30 from A to B leaves A at 70 with 30 sent this month and B at 130 with 30 received; B's self-transfer is then refused and changes nothing. |
| `Services.RedeemVoucher` | src/services.py:123-156 | B, holding 130 credits, redeems 50 for a voucher worth 250 rupees and keeps 80; recognitions and endorsements are unchanged. |
| `Services.WalkthroughLeaderboard` | src/services.py:159-191 | After A sends 30 to B and B redeems 50, the one-row leaderboard is B, with 30 credits received, 1 recognition and 0 endorsements. |
| `Services.WalkthroughReset` | src/services.py:262-274 | For two never-reset students with balance 100, the batch reset counts 2 and leaves both at 150 (the carry is capped at 50). |

## Left out

- HTTP routes, JSON request parsing, status codes and the process-wide cron scheduler (src/app.py) are not part of this model. Neither is environment configuration (src/config.py).
- Persistence is modelled as in-memory sequences. The SQL session, commits, transactions, isolation and concurrency are not modelled, and the leaderboard's SQL outer join and ORDER BY are specified as pure functions (a count per student and a reference insertion sort).
- Update in place of ORM objects is modelled as replacing that student's row in the `students` sequence. Object identity and aliasing of student objects are not modelled.
- Row ids are positions plus one in their table (autoincrement, never deleted). A lookup by id is a bounds check.
- Timestamps are left out. `created_at` is not stored, so the dictionary views omit that key. The current time is a `YearMonth` parameter, where the source reads the UTC clock itself inside `ensure_monthly_reset`. `last_credit_reset` stores only the (year, month) of the reset, which is all the source ever compares.
- Error messages are the `Rules.Error` constructors carrying the numbers the messages report; the message text is not modelled.
- Integers are unbounded. The database column width is not modelled.
- The store invariant does not include "monthly sent equals the sum of recognitions sent since the last reset", because recognitions carry no timestamp in this model.
- Services.Ledger.CreateRecognition: requires credits > 0. The service itself does not check the sign; the HTTP boundary rejects non-positive credits (src/app.py:84-85). `Rules.TransferRejection` and `Rules.TransferOutcome` take any integer, and only the invariant lemma needs the sign.
- Services.Ledger.Leaderboard: limit is a natural number with no default. The service defaults the limit to 10 (src/services.py:159), and every caller in the model passes it explicitly. The boundary parses the limit, again defaulting to 10, and rejects values of 0 or below (src/app.py:152-154). SQL's treatment of a negative LIMIT is not modelled.
- Services.Ledger.EnsureMonthlyReset: requires an existing student id, because the source receives an already loaded student object.
- Services.Ledger.RunMonthlyResetForAllStudents: visits the students in id order with one `now` for the whole run. The source iterates `Student.query.all()` with no ORDER BY (src/services.py:267) and reads the UTC clock once per student (src/services.py:220). Only the ids of the new reset logs depend on the visiting order. A run that crosses a month boundary could see two different months, which the model does not capture.
- The batch reset commits after each student's reset (src/services.py:257). An exception stops the loop and propagates, so students reset before it stay reset. The model's operations cannot fail, so this path does not arise.
