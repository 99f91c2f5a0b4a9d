/**
  The ledger rules as functions over a snapshot of the store: the ordered
  checks each operation makes before it changes anything, the state each
  operation leaves behind, the invariants every committed operation keeps,
  and the ledger-wide balance accounting.

  Every table is a sequence whose row ids run 1, 2, 3, ... in insertion order
  (rows are never deleted), so the row with id `k` is at position `k - 1`.
*/
module Rules {
  import opened Wrappers
  import opened Models

  /** Most credits a student may send within one calendar month. */
  const MonthlyLimit := 100
  /** The balance every monthly reset starts from. */
  const BaseAllowance := 100
  /** Most credits a monthly reset carries forward from the old balance. */
  const CarryForwardCap := 50
  /** Voucher value, in rupees, of one redeemed credit. */
  const InrPerCredit := 5

  /** Why an operation was refused; each carries what the source's message reports. */
  datatype Error =
    | StudentNotFound(studentId: int)
    | SelfTransfer
    | InsufficientBalance(balance: int, attempted: int)
    | MonthlyLimitExceeded(alreadySent: int, attempted: int)
    | RecognitionNotFound(recognitionId: int)
    | EndorserNotFound(endorserId: int)
    | AlreadyEndorsed
    | InvalidAmount
    | InsufficientCredits(balance: int, attempted: int)

  /** The five tables of the ledger. */
  datatype Store = Store(
    students: seq<Student>,
    recognitions: seq<Recognition>,
    endorsements: seq<Endorsement>,
    redemptions: seq<Redemption>,
    resetLogs: seq<MonthlyResetLog>)

  /** Whether a row with id `id` exists in `table`. */
  predicate HasRow<T>(table: seq<T>, id: int)
  {
    1 <= id <= |table|
  }

  // ---------------------------------------------------------------------
  // Accounting
  // ---------------------------------------------------------------------

  /** Credits held by all students together. */
  function TotalBalance(students: seq<Student>): int
  {
    if students == [] then 0 else students[0].currentBalance + TotalBalance(students[1..])
  }

  /** Replacing one student changes the total by exactly that student's change of balance. */
  lemma {:induction false} TotalBalanceUpdate(students: seq<Student>, i: nat, s: Student)
    requires i < |students|
    ensures TotalBalance(students[i := s]) == TotalBalance(students) - students[i].currentBalance + s.currentBalance
  {
    if i == 0 {
      assert students[i := s][1..] == students[1..];
    } else {
      assert students[i := s][1..] == students[1..][i - 1 := s];
      TotalBalanceUpdate(students[1..], i - 1, s);
    }
  }

  /** Credits of all recognitions received by student `id`. */
  function ReceivedSum(recognitions: seq<Recognition>, id: int): int
  {
    if recognitions == [] then 0
    else
      var last := recognitions[|recognitions| - 1];
      ReceivedSum(recognitions[..|recognitions| - 1], id) + (if last.receiverId == id then last.credits else 0)
  }

  /** Recording one more recognition adds its credits to its receiver's sum and to no one else's. */
  lemma ReceivedSumAppend(recognitions: seq<Recognition>, r: Recognition, id: int)
    ensures ReceivedSum(recognitions + [r], id)
         == ReceivedSum(recognitions, id) + (if r.receiverId == id then r.credits else 0)
  {
    assert (recognitions + [r])[..|recognitions|] == recognitions;
  }

  /** A student nobody has sent credits to has received nothing. */
  lemma {:induction false} ReceivedSumNone(recognitions: seq<Recognition>, id: int)
    requires forall i | 0 <= i < |recognitions| :: recognitions[i].receiverId != id
    ensures ReceivedSum(recognitions, id) == 0
  {
    if recognitions != [] {
      ReceivedSumNone(recognitions[..|recognitions| - 1], id);
    }
  }

  // ---------------------------------------------------------------------
  // The invariants of a committed store
  // ---------------------------------------------------------------------

  predicate StudentOk(s: Student)
  {
    s.currentBalance >= 0 && 0 <= s.monthlySentThisMonth <= MonthlyLimit && s.creditsReceivedTotal >= 0
  }

  predicate RecognitionOk(students: seq<Student>, r: Recognition, id: int)
  {
    r.id == id && HasRow(students, r.senderId) && HasRow(students, r.receiverId)
    && r.senderId != r.receiverId && r.credits > 0
  }

  predicate EndorsementOk(st: Store, e: Endorsement, id: int)
  {
    e.id == id && HasRow(st.recognitions, e.recognitionId) && HasRow(st.students, e.endorserId)
  }

  /** At most one endorsement per (recognition, endorser) pair. */
  predicate EndorsementsUnique(endorsements: seq<Endorsement>)
  {
    forall i, j | 0 <= i < j < |endorsements| ::
      endorsements[i].recognitionId != endorsements[j].recognitionId
      || endorsements[i].endorserId != endorsements[j].endorserId
  }

  predicate RedemptionOk(students: seq<Student>, r: Redemption, id: int)
  {
    r.id == id && HasRow(students, r.studentId) && r.creditsRedeemed > 0
    && r.voucherValueInr == r.creditsRedeemed * InrPerCredit
  }

  /** The calendar month a reset log was written for. */
  function LogMonth(l: MonthlyResetLog): YearMonth
  {
    YearMonth(l.year, l.month)
  }

  /**
    A reset log points at an existing student, carried at most 50 credits,
    and its month is no later than that student's last reset.
  */
  predicate ResetLogOk(students: seq<Student>, l: MonthlyResetLog, id: int)
  {
    && l.id == id && HasRow(students, l.studentId) && 0 <= l.carriedForward <= CarryForwardCap
    && students[l.studentId - 1].lastCreditReset.Some?
    && !MonthBefore(students[l.studentId - 1].lastCreditReset.value, LogMonth(l))
  }

  /** At most one reset log per (student, month). */
  predicate ResetLogsUnique(logs: seq<MonthlyResetLog>)
  {
    forall i, j | 0 <= i < j < |logs| ::
      logs[i].studentId != logs[j].studentId || LogMonth(logs[i]) != LogMonth(logs[j])
  }

  /** Whether some reset log records a reset of student `studentId` in month `month`. */
  predicate HasResetLog(logs: seq<MonthlyResetLog>, studentId: int, month: YearMonth)
  {
    exists j | 0 <= j < |logs| :: logs[j].studentId == studentId && LogMonth(logs[j]) == month
  }

  /** A student's last reset, if any, is on record in the reset logs. */
  predicate LastResetLogged(st: Store, i: int)
    requires 0 <= i < |st.students|
  {
    st.students[i].lastCreditReset.Some? ==>
      HasResetLog(st.resetLogs, i + 1, st.students[i].lastCreditReset.value)
  }

  /**
    What holds after every committed operation: ids match positions, no
    balance is negative, the monthly sent counter stays within the limit,
    every student's lifetime received counter is the sum of the recognitions
    they received, every reference points at an existing row, endorsements
    are unique per (recognition, endorser), and the reset logs agree with the
    students' last resets: at most one log per student and month, none later
    than the student's last reset, and the last reset itself on record.
  */
  ghost predicate Consistent(st: Store)
  {
    && (forall i | 0 <= i < |st.students| ::
          st.students[i].id == i + 1 && StudentOk(st.students[i])
          && st.students[i].creditsReceivedTotal == ReceivedSum(st.recognitions, i + 1))
    && (forall i | 0 <= i < |st.recognitions| :: RecognitionOk(st.students, st.recognitions[i], i + 1))
    && (forall i | 0 <= i < |st.endorsements| :: EndorsementOk(st, st.endorsements[i], i + 1))
    && EndorsementsUnique(st.endorsements)
    && (forall i | 0 <= i < |st.redemptions| :: RedemptionOk(st.students, st.redemptions[i], i + 1))
    && ResetLogsAgree(st)
  }

  /**
    The reset logs agree with the students' last resets: every log is well
    formed and no later than its student's last reset, at most one log per
    student and month, and every last reset is on record.
  */
  ghost predicate ResetLogsAgree(st: Store)
  {
    && (forall i | 0 <= i < |st.resetLogs| :: ResetLogOk(st.students, st.resetLogs[i], i + 1))
    && ResetLogsUnique(st.resetLogs)
    && (forall i | 0 <= i < |st.students| :: LastResetLogged(st, i))
  }

  /**
    Every last reset stays on record when no last reset changes, new students
    have none, and reset logs are only ever appended.
  */
  lemma {:induction false} LastResetsStillLogged(st: Store, after: Store)
    requires forall i | 0 <= i < |st.students| :: LastResetLogged(st, i)
    requires |st.students| <= |after.students| && st.resetLogs <= after.resetLogs
    requires forall i | 0 <= i < |st.students| ::
      after.students[i].lastCreditReset == st.students[i].lastCreditReset
    requires forall i | |st.students| <= i < |after.students| :: after.students[i].lastCreditReset.None?
    ensures forall i | 0 <= i < |after.students| :: LastResetLogged(after, i)
  {
    forall i | 0 <= i < |after.students| && after.students[i].lastCreditReset.Some?
      ensures HasResetLog(after.resetLogs, i + 1, after.students[i].lastCreditReset.value)
    {
      assert LastResetLogged(st, i);
      var j :| 0 <= j < |st.resetLogs| && st.resetLogs[j].studentId == i + 1
               && LogMonth(st.resetLogs[j]) == st.students[i].lastCreditReset.value;
      assert after.resetLogs[j] == st.resetLogs[j];
    }
  }

  /** The store with no rows at all. */
  function EmptyStore(): (st: Store)
    ensures Consistent(st)
  {
    Store([], [], [], [], [])
  }

  // ---------------------------------------------------------------------
  // Registering a student
  // ---------------------------------------------------------------------

  /** Adds a student with the column defaults under the next id. */
  function RegisterOutcome(st: Store, name: string): (out: (Store, Student))
    ensures out.1 == NewStudent(|st.students| + 1, name)
    ensures out.0 == st.(students := st.students + [out.1])
    ensures TotalBalance(out.0.students) == TotalBalance(st.students) + InitialBalance
  {
    var s := NewStudent(|st.students| + 1, name);
    TotalBalanceAppend(st.students, s);
    (st.(students := st.students + [s]), s)
  }

  lemma {:induction false} TotalBalanceAppend(students: seq<Student>, s: Student)
    ensures TotalBalance(students + [s]) == TotalBalance(students) + s.currentBalance
  {
    if students == [] {
      assert [s][1..] == [];
    } else {
      assert (students + [s])[1..] == students[1..] + [s];
      TotalBalanceAppend(students[1..], s);
    }
  }

  lemma RegisterKeepsConsistent(st: Store, name: string)
    requires Consistent(st)
    ensures Consistent(RegisterOutcome(st, name).0)
  {
    var after := RegisterOutcome(st, name).0;
    var n := |st.students|;
    forall i | 0 <= i < |st.recognitions|
      ensures st.recognitions[i].receiverId != n + 1
    {
      assert RecognitionOk(st.students, st.recognitions[i], i + 1);
    }
    ReceivedSumNone(st.recognitions, n + 1);
    assert after.students[n].creditsReceivedTotal == ReceivedSum(after.recognitions, n + 1);
    LastResetsStillLogged(st, after);
  }

  // ---------------------------------------------------------------------
  // Transfer (recognition)
  // ---------------------------------------------------------------------

  /**
    The first of the five transfer checks that fails, in the order the
    ledger makes them: sender exists, receiver exists, not a self-transfer,
    enough balance, monthly limit (inclusive) not exceeded.
  */
  function TransferRejection(students: seq<Student>, senderId: int, receiverId: int, credits: int): (e: Option<Error>)
    ensures e.None? <==>
      && HasRow(students, senderId) && HasRow(students, receiverId) && senderId != receiverId
      && credits <= students[senderId - 1].currentBalance
      && students[senderId - 1].monthlySentThisMonth + credits <= MonthlyLimit
    ensures e == Some(SelfTransfer) <==>
      HasRow(students, senderId) && HasRow(students, receiverId) && senderId == receiverId
    ensures !HasRow(students, senderId) ==> e == Some(StudentNotFound(senderId))
    ensures HasRow(students, senderId) && !HasRow(students, receiverId) ==> e == Some(StudentNotFound(receiverId))
    ensures (e.Some? && e.value.InsufficientBalance?) <==>
      && HasRow(students, senderId) && HasRow(students, receiverId) && senderId != receiverId
      && credits > students[senderId - 1].currentBalance
    ensures e.Some? && e.value.InsufficientBalance? ==>
      e.value == InsufficientBalance(students[senderId - 1].currentBalance, credits)
    ensures (e.Some? && e.value.MonthlyLimitExceeded?) <==>
      && HasRow(students, senderId) && HasRow(students, receiverId) && senderId != receiverId
      && credits <= students[senderId - 1].currentBalance
      && students[senderId - 1].monthlySentThisMonth + credits > MonthlyLimit
    ensures e.Some? && e.value.MonthlyLimitExceeded? ==>
      e.value == MonthlyLimitExceeded(students[senderId - 1].monthlySentThisMonth, credits)
  {
    if !HasRow(students, senderId) then Some(StudentNotFound(senderId))
    else if !HasRow(students, receiverId) then Some(StudentNotFound(receiverId))
    else if senderId == receiverId then Some(SelfTransfer)
    else
      var sender := students[senderId - 1];
      if credits > sender.currentBalance then Some(InsufficientBalance(sender.currentBalance, credits))
      else if sender.monthlySentThisMonth + credits > MonthlyLimit then
        Some(MonthlyLimitExceeded(sender.monthlySentThisMonth, credits))
      else None
  }

  /**
    A transfer: refused with the first failing check and no change at all,
    or the credits move from sender to receiver (a zero-sum change of the
    total), the sender's monthly counter and the receiver's lifetime counter
    grow by the credits, no other student changes, and one recognition is
    recorded.
  */
  function TransferOutcome(st: Store, senderId: int, receiverId: int, credits: int, message: Option<string>)
    : (out: (Store, Result<Recognition, Error>))
    ensures out.1.Failure? <==> TransferRejection(st.students, senderId, receiverId, credits).Some?
    ensures out.1.Failure? ==>
      out.0 == st && TransferRejection(st.students, senderId, receiverId, credits) == Some(out.1.error)
    ensures out.1.Success? ==>
      var (after, sender, receiver) := (out.0.students, st.students[senderId - 1], st.students[receiverId - 1]);
      && out.1.value == Recognition(|st.recognitions| + 1, senderId, receiverId, credits, message)
      && out.0 == st.(students := after, recognitions := st.recognitions + [out.1.value])
      && |after| == |st.students|
      && after[senderId - 1] == sender.(currentBalance := sender.currentBalance - credits,
                                        monthlySentThisMonth := sender.monthlySentThisMonth + credits)
      && after[receiverId - 1] == receiver.(currentBalance := receiver.currentBalance + credits,
                                            creditsReceivedTotal := receiver.creditsReceivedTotal + credits)
      && (forall i | 0 <= i < |after| && i != senderId - 1 && i != receiverId - 1 :: after[i] == st.students[i])
      && TotalBalance(after) == TotalBalance(st.students)
  {
    match TransferRejection(st.students, senderId, receiverId, credits)
    case Some(e) => (st, Failure(e))
    case None =>
      var sender := st.students[senderId - 1];
      var receiver := st.students[receiverId - 1];
      var debited := st.students[senderId - 1 := sender.(currentBalance := sender.currentBalance - credits,
                                                         monthlySentThisMonth := sender.monthlySentThisMonth + credits)];
      var credited := debited[receiverId - 1 := receiver.(currentBalance := receiver.currentBalance + credits,
                                                         creditsReceivedTotal := receiver.creditsReceivedTotal + credits)];
      TotalBalanceUpdate(st.students, senderId - 1, debited[senderId - 1]);
      TotalBalanceUpdate(debited, receiverId - 1, credited[receiverId - 1]);
      var r := Recognition(|st.recognitions| + 1, senderId, receiverId, credits, message);
      (st.(students := credited, recognitions := st.recognitions + [r]), Success(r))
  }

  /** With positive credits, a transfer keeps every invariant of the store. */
  lemma TransferKeepsConsistent(st: Store, senderId: int, receiverId: int, credits: int, message: Option<string>)
    requires Consistent(st)
    requires credits > 0
    ensures Consistent(TransferOutcome(st, senderId, receiverId, credits, message).0)
  {
    var (after, result) := TransferOutcome(st, senderId, receiverId, credits, message);
    if result.Success? {
      forall i | 0 <= i < |after.students|
        ensures after.students[i].creditsReceivedTotal == ReceivedSum(after.recognitions, i + 1)
      {
        ReceivedSumAppend(st.recognitions, result.value, i + 1);
      }
    }
    LastResetsStillLogged(st, after);
  }

  // ---------------------------------------------------------------------
  // Endorsement
  // ---------------------------------------------------------------------

  /** Whether student `endorserId` has already endorsed recognition `recognitionId`. */
  predicate HasEndorsed(endorsements: seq<Endorsement>, recognitionId: int, endorserId: int)
  {
    exists i | 0 <= i < |endorsements| ::
      endorsements[i].recognitionId == recognitionId && endorsements[i].endorserId == endorserId
  }

  /**
    The lookup of an existing endorsement for the pair, scanning in id order:
    it finds a stored endorsement with this recognition and endorser exactly
    when the endorser has already endorsed the recognition.
  */
  function FindEndorsement(endorsements: seq<Endorsement>, recognitionId: int, endorserId: int)
    : (r: Option<Endorsement>)
    ensures r.Some? <==> HasEndorsed(endorsements, recognitionId, endorserId)
    ensures r.Some? ==>
      r.value in endorsements && r.value.recognitionId == recognitionId && r.value.endorserId == endorserId
  {
    if endorsements == [] then None
    else if endorsements[0].recognitionId == recognitionId && endorsements[0].endorserId == endorserId then
      Some(endorsements[0])
    else
      var r := FindEndorsement(endorsements[1..], recognitionId, endorserId);
      assert HasEndorsed(endorsements[1..], recognitionId, endorserId) ==> HasEndorsed(endorsements, recognitionId, endorserId) by {
        if HasEndorsed(endorsements[1..], recognitionId, endorserId) {
          var i :| 0 <= i < |endorsements[1..]| && endorsements[1..][i].recognitionId == recognitionId
                   && endorsements[1..][i].endorserId == endorserId;
          assert endorsements[i + 1] == endorsements[1..][i];
        }
      }
      assert HasEndorsed(endorsements, recognitionId, endorserId) ==> HasEndorsed(endorsements[1..], recognitionId, endorserId) by {
        if HasEndorsed(endorsements, recognitionId, endorserId) {
          var i :| 0 <= i < |endorsements| && endorsements[i].recognitionId == recognitionId
                   && endorsements[i].endorserId == endorserId;
          assert endorsements[1..][i - 1] == endorsements[i];
        }
      }
      r
  }

  /**
    The first endorsement check that fails: the recognition exists, the
    endorser exists, the endorser has not endorsed it yet. Who the endorser
    is relative to the recognition's sender and receiver is not checked.
  */
  function EndorseRejection(st: Store, recognitionId: int, endorserId: int): (e: Option<Error>)
    ensures e.None? <==>
      HasRow(st.recognitions, recognitionId) && HasRow(st.students, endorserId)
      && !HasEndorsed(st.endorsements, recognitionId, endorserId)
    ensures e == Some(AlreadyEndorsed) <==>
      HasRow(st.recognitions, recognitionId) && HasRow(st.students, endorserId)
      && HasEndorsed(st.endorsements, recognitionId, endorserId)
    ensures !HasRow(st.recognitions, recognitionId) ==> e == Some(RecognitionNotFound(recognitionId))
    ensures HasRow(st.recognitions, recognitionId) && !HasRow(st.students, endorserId) ==>
      e == Some(EndorserNotFound(endorserId))
  {
    if !HasRow(st.recognitions, recognitionId) then Some(RecognitionNotFound(recognitionId))
    else if !HasRow(st.students, endorserId) then Some(EndorserNotFound(endorserId))
    else if FindEndorsement(st.endorsements, recognitionId, endorserId).Some? then Some(AlreadyEndorsed)
    else None
  }

  /** An endorsement: refused with no change, or one endorsement recorded and nothing else touched. */
  function EndorseOutcome(st: Store, recognitionId: int, endorserId: int): (out: (Store, Result<Endorsement, Error>))
    ensures out.1.Failure? <==> EndorseRejection(st, recognitionId, endorserId).Some?
    ensures out.1.Failure? ==> out.0 == st && EndorseRejection(st, recognitionId, endorserId) == Some(out.1.error)
    ensures out.1.Success? ==>
      && out.1.value == Endorsement(|st.endorsements| + 1, recognitionId, endorserId)
      && out.0 == st.(endorsements := st.endorsements + [out.1.value])
    ensures out.0.students == st.students
  {
    match EndorseRejection(st, recognitionId, endorserId)
    case Some(e) => (st, Failure(e))
    case None =>
      var e := Endorsement(|st.endorsements| + 1, recognitionId, endorserId);
      (st.(endorsements := st.endorsements + [e]), Success(e))
  }

  /** An endorsement keeps every invariant; in particular endorsements stay unique per pair. */
  lemma EndorseKeepsConsistent(st: Store, recognitionId: int, endorserId: int)
    requires Consistent(st)
    ensures Consistent(EndorseOutcome(st, recognitionId, endorserId).0)
  {
    LastResetsStillLogged(st, EndorseOutcome(st, recognitionId, endorserId).0);
  }

  /**
    The same endorser endorsing the same recognition a second time is refused
    as a duplicate, while the first endorsement of another existing student
    on that recognition still succeeds.
  */
  lemma {:induction false} EndorseTwice(st: Store, recognitionId: int, endorserId: int, otherId: int)
    requires EndorseOutcome(st, recognitionId, endorserId).1.Success?
    requires HasRow(st.students, otherId) && otherId != endorserId
    requires !HasEndorsed(st.endorsements, recognitionId, otherId)
    ensures EndorseOutcome(EndorseOutcome(st, recognitionId, endorserId).0, recognitionId, endorserId).1
         == Failure(AlreadyEndorsed)
    ensures EndorseOutcome(EndorseOutcome(st, recognitionId, endorserId).0, recognitionId, otherId).1.Success?
  {
    var after := EndorseOutcome(st, recognitionId, endorserId).0;
    var n := |st.endorsements|;
    assert after.endorsements[n].recognitionId == recognitionId && after.endorsements[n].endorserId == endorserId;
    assert HasEndorsed(after.endorsements, recognitionId, endorserId);
  }

  // ---------------------------------------------------------------------
  // Redemption
  // ---------------------------------------------------------------------

  /** The first redemption check that fails: student exists, amount positive, amount covered by the balance. */
  function RedeemRejection(students: seq<Student>, studentId: int, credits: int): (e: Option<Error>)
    ensures e.None? <==> HasRow(students, studentId) && 0 < credits <= students[studentId - 1].currentBalance
    ensures e == Some(InvalidAmount) <==> HasRow(students, studentId) && credits <= 0
    ensures !HasRow(students, studentId) ==> e == Some(StudentNotFound(studentId))
    ensures (e.Some? && e.value.InsufficientCredits?) <==>
      HasRow(students, studentId) && 0 < credits && students[studentId - 1].currentBalance < credits
    ensures e.Some? && e.value.InsufficientCredits? ==>
      e.value == InsufficientCredits(students[studentId - 1].currentBalance, credits)
  {
    if !HasRow(students, studentId) then Some(StudentNotFound(studentId))
    else if credits <= 0 then Some(InvalidAmount)
    else if students[studentId - 1].currentBalance < credits then
      Some(InsufficientCredits(students[studentId - 1].currentBalance, credits))
    else None
  }

  /**
    A redemption: refused with no change, or the balance drops by exactly the
    redeemed credits (and stays non-negative), the voucher is worth five
    rupees per credit, the lifetime and monthly counters and every other
    student stay as they were, and one redemption is recorded.
  */
  function RedeemOutcome(st: Store, studentId: int, credits: int): (out: (Store, Result<Redemption, Error>))
    ensures out.1.Failure? <==> RedeemRejection(st.students, studentId, credits).Some?
    ensures out.1.Failure? ==> out.0 == st && RedeemRejection(st.students, studentId, credits) == Some(out.1.error)
    ensures out.1.Success? ==>
      var (after, before) := (out.0.students, st.students[studentId - 1]);
      && out.1.value == Redemption(|st.redemptions| + 1, studentId, credits, credits * 5)
      && out.0 == st.(students := after, redemptions := st.redemptions + [out.1.value])
      && |after| == |st.students|
      && after[studentId - 1] == before.(currentBalance := before.currentBalance - credits)
      && after[studentId - 1].currentBalance >= 0
      && (forall i | 0 <= i < |after| && i != studentId - 1 :: after[i] == st.students[i])
      && TotalBalance(after) == TotalBalance(st.students) - credits
  {
    match RedeemRejection(st.students, studentId, credits)
    case Some(e) => (st, Failure(e))
    case None =>
      var s := st.students[studentId - 1];
      var voucherValueInr := credits * InrPerCredit;
      var students := st.students[studentId - 1 := s.(currentBalance := s.currentBalance - credits)];
      TotalBalanceUpdate(st.students, studentId - 1, students[studentId - 1]);
      var r := Redemption(|st.redemptions| + 1, studentId, credits, voucherValueInr);
      (st.(students := students, redemptions := st.redemptions + [r]), Success(r))
  }

  lemma RedeemKeepsConsistent(st: Store, studentId: int, credits: int)
    requires Consistent(st)
    ensures Consistent(RedeemOutcome(st, studentId, credits).0)
  {
    LastResetsStillLogged(st, RedeemOutcome(st, studentId, credits).0);
  }

  // ---------------------------------------------------------------------
  // Monthly reset
  // ---------------------------------------------------------------------

  /**
    Whether calendar month `a` comes strictly before calendar month `b`: for
    real months (1 .. 12) this is the order of their first days, counted in
    months since year 0.
  */
  predicate MonthBefore(a: YearMonth, b: YearMonth)
    ensures 1 <= a.month <= 12 && 1 <= b.month <= 12 ==>
      (MonthBefore(a, b) <==> a.year * 12 + a.month < b.year * 12 + b.month)
  {
    a.year < b.year || (a.year == b.year && a.month < b.month)
  }

  /** `MonthBefore` is a strict total order on calendar months. */
  lemma MonthBeforeIsStrictOrder(a: YearMonth, b: YearMonth, c: YearMonth)
    ensures !MonthBefore(a, a)
    ensures MonthBefore(a, b) ==> !MonthBefore(b, a)
    ensures MonthBefore(a, b) && MonthBefore(b, c) ==> MonthBefore(a, c)
    ensures a == b || MonthBefore(a, b) || MonthBefore(b, a)
  {
  }

  /**
    A reset is due when the student was never reset or was last reset in an
    earlier calendar month. Never in the month of the last reset; and while
    the clock has not gone back behind the last reset, due exactly when the
    last reset was in a different month.
  */
  predicate NeedsReset(lastReset: Option<YearMonth>, now: YearMonth)
    ensures lastReset == Some(now) ==> !NeedsReset(lastReset, now)
    ensures lastReset.Some? && !MonthBefore(now, lastReset.value) ==>
      (NeedsReset(lastReset, now) <==> lastReset.value != now)
  {
    match lastReset
    case None => true
    case Some(last) => MonthBefore(last, now)
  }

  /** The part of the old balance a reset keeps: the balance itself, but no more than 50. */
  function CarryForward(balance: int): (c: int)
    ensures c <= CarryForwardCap && c <= balance
    ensures c == CarryForwardCap || c == balance
    ensures balance >= 0 ==> c >= 0
  {
    if CarryForwardCap <= balance then CarryForwardCap else balance
  }

  /**
    A student after a reset at `now`: the base allowance plus the carried
    part of the old balance (so between 100 and 150 for a non-negative
    balance), nothing sent this month, last reset at `now`, so that no
    further reset is due this month; identity and lifetime counter kept.
  */
  function ResetStudent(s: Student, now: YearMonth): (r: Student)
    ensures r.currentBalance == BaseAllowance + CarryForward(s.currentBalance)
    ensures s.currentBalance >= 0 ==> BaseAllowance <= r.currentBalance <= BaseAllowance + CarryForwardCap
    ensures r.monthlySentThisMonth == 0 && r.lastCreditReset == Some(now)
    ensures r.id == s.id && r.name == s.name && r.creditsReceivedTotal == s.creditsReceivedTotal
    ensures !NeedsReset(r.lastCreditReset, now)
  {
    s.(currentBalance := BaseAllowance + CarryForward(s.currentBalance),
       monthlySentThisMonth := 0,
       lastCreditReset := Some(now))
  }

  /**
    One student's reset at `now`: when it is due, the student is reset and
    exactly one log with `now`'s month and year and the carried credits is
    added; otherwise nothing changes. Either way no reset is due afterwards.
  */
  function ResetOutcome(st: Store, studentId: int, now: YearMonth): (out: (Store, bool))
    requires HasRow(st.students, studentId)
    ensures out.1 == NeedsReset(st.students[studentId - 1].lastCreditReset, now)
    ensures !out.1 ==> out.0 == st
    ensures out.1 ==>
      var before := st.students[studentId - 1];
      var log := MonthlyResetLog(|st.resetLogs| + 1, studentId, now.month, now.year, CarryForward(before.currentBalance));
      && out.0 == st.(students := st.students[studentId - 1 := ResetStudent(before, now)],
                      resetLogs := st.resetLogs + [log])
      && TotalBalance(out.0.students)
         == TotalBalance(st.students) + BaseAllowance + CarryForward(before.currentBalance) - before.currentBalance
    ensures |out.0.students| == |st.students|
    ensures !NeedsReset(out.0.students[studentId - 1].lastCreditReset, now)
  {
    var s := st.students[studentId - 1];
    if !NeedsReset(s.lastCreditReset, now) then (st, false)
    else
      var carry := CarryForward(s.currentBalance);
      var students := st.students[studentId - 1 := ResetStudent(s, now)];
      TotalBalanceUpdate(st.students, studentId - 1, students[studentId - 1]);
      var log := MonthlyResetLog(|st.resetLogs| + 1, studentId, now.month, now.year, carry);
      (st.(students := students, resetLogs := st.resetLogs + [log]), true)
  }

  /** A second reset of the same student in the same month reports "not reset" and changes nothing. */
  lemma ResetTwiceSameMonth(st: Store, studentId: int, now: YearMonth)
    requires HasRow(st.students, studentId)
    ensures var once := ResetOutcome(st, studentId, now).0;
            ResetOutcome(once, studentId, now) == (once, false)
  {
  }

  lemma ResetKeepsConsistent(st: Store, studentId: int, now: YearMonth)
    requires Consistent(st) && HasRow(st.students, studentId)
    ensures Consistent(ResetOutcome(st, studentId, now).0)
  {
    ResetKeepsLogsAgreeing(st, studentId, now);
  }

  /**
    A reset keeps the reset logs in agreement with the last resets: the new
    log is for `now`, after every earlier log of the student, so still the
    only one for its month.
  */
  lemma ResetKeepsLogsAgreeing(st: Store, studentId: int, now: YearMonth)
    requires Consistent(st) && HasRow(st.students, studentId)
    ensures ResetLogsAgree(ResetOutcome(st, studentId, now).0)
  {
    var (after, didReset) := ResetOutcome(st, studentId, now);
    if didReset {
      var k := studentId - 1;
      var m := |st.resetLogs|;
      // Every earlier log of this student is no later than its last reset,
      // which lies before `now`, so the new log is the only one for `now`.
      forall i | 0 <= i < m && st.resetLogs[i].studentId == studentId
        ensures MonthBefore(LogMonth(st.resetLogs[i]), now)
      {
        assert ResetLogOk(st.students, st.resetLogs[i], i + 1);
      }
      forall i | 0 <= i < m
        ensures ResetLogOk(after.students, after.resetLogs[i], i + 1)
      {
        assert ResetLogOk(st.students, st.resetLogs[i], i + 1);
      }
      assert LogMonth(after.resetLogs[m]) == now;
      forall i | 0 <= i < |after.students|
        ensures LastResetLogged(after, i)
      {
        if i == k {
          assert after.resetLogs[m].studentId == i + 1;
        } else {
          assert LastResetLogged(st, i);
          if st.students[i].lastCreditReset.Some? {
            var j :| 0 <= j < m && st.resetLogs[j].studentId == i + 1
                     && LogMonth(st.resetLogs[j]) == st.students[i].lastCreditReset.value;
            assert after.resetLogs[j] == st.resetLogs[j];
          }
        }
      }
    }
  }

  /**
    In a consistent store whose clock has not gone back behind a student's
    last reset, a reset of that student is due at `now` exactly when no reset
    log of theirs exists for `now`'s month.
  */
  lemma ResetDueIffNotLogged(st: Store, studentId: int, now: YearMonth)
    requires Consistent(st) && HasRow(st.students, studentId)
    requires st.students[studentId - 1].lastCreditReset.None?
          || !MonthBefore(now, st.students[studentId - 1].lastCreditReset.value)
    ensures NeedsReset(st.students[studentId - 1].lastCreditReset, now)
        <==> !HasResetLog(st.resetLogs, studentId, now)
  {
    var last := st.students[studentId - 1].lastCreditReset;
    if HasResetLog(st.resetLogs, studentId, now) {
      var j :| 0 <= j < |st.resetLogs| && st.resetLogs[j].studentId == studentId && LogMonth(st.resetLogs[j]) == now;
      assert ResetLogOk(st.students, st.resetLogs[j], j + 1);
    }
    if !NeedsReset(last, now) {
      assert last.value == now;
      assert LastResetLogged(st, studentId - 1);
    }
  }

  // ---------------------------------------------------------------------
  // Resetting every student
  // ---------------------------------------------------------------------

  /** How many of `students` are due for a reset at `now`. */
  function DueCount(students: seq<Student>, now: YearMonth): (n: nat)
    ensures n <= |students|
  {
    if students == [] then 0
    else
      DueCount(students[..|students| - 1], now)
      + (if NeedsReset(students[|students| - 1].lastCreditReset, now) then 1 else 0)
  }

  /** The store and the count of resets after students 1 .. k have each been reset at `now`, in id order. */
  function ResetFirst(st: Store, now: YearMonth, k: nat): (out: (Store, nat))
    requires k <= |st.students|
    ensures |out.0.students| == |st.students|
    ensures out.1 <= k
    decreases k
  {
    if k == 0 then (st, 0)
    else
      var (mid, count) := ResetFirst(st, now, k - 1);
      var (after, didReset) := ResetOutcome(mid, k, now);
      (after, if didReset then count + 1 else count)
  }

  /** Resetting every student: the new store and how many students were actually reset. */
  function ResetAll(st: Store, now: YearMonth): (out: (Store, nat))
    ensures |out.0.students| == |st.students|
    ensures out.1 <= |st.students|
  {
    ResetFirst(st, now, |st.students|)
  }

  /** After the first k resets, each of the first k students is reset exactly when it was due, and the rest are untouched. */
  lemma {:induction false} ResetFirstStudents(st: Store, now: YearMonth, k: nat)
    requires k <= |st.students|
    ensures forall j | 0 <= j < |st.students| ::
      ResetFirst(st, now, k).0.students[j]
      == if j < k && NeedsReset(st.students[j].lastCreditReset, now) then ResetStudent(st.students[j], now)
         else st.students[j]
  {
    if k > 0 {
      ResetFirstStudents(st, now, k - 1);
    }
  }

  /** The count after the first k resets is the number of those k students that were due. */
  lemma {:induction false} ResetFirstCount(st: Store, now: YearMonth, k: nat)
    requires k <= |st.students|
    ensures ResetFirst(st, now, k).1 == DueCount(st.students[..k], now)
  {
    if k > 0 {
      ResetFirstCount(st, now, k - 1);
      ResetFirstStudents(st, now, k - 1);
      assert st.students[..k][..k - 1] == st.students[..k - 1];
    }
  }

  /** No student is due once every due student has been reset. */
  lemma {:induction false} DueCountZero(students: seq<Student>, now: YearMonth)
    requires forall j | 0 <= j < |students| :: !NeedsReset(students[j].lastCreditReset, now)
    ensures DueCount(students, now) == 0
  {
    if students != [] {
      DueCountZero(students[..|students| - 1], now);
    }
  }

  /**
    The batch reset counts exactly the students that were due, and running
    it a second time in the same month resets nobody.
  */
  lemma ResetAllCountsDue(st: Store, now: YearMonth)
    ensures ResetAll(st, now).1 == DueCount(st.students, now)
    ensures ResetAll(ResetAll(st, now).0, now).1 == 0
  {
    var n := |st.students|;
    ResetFirstCount(st, now, n);
    assert st.students[..n] == st.students;
    var once := ResetAll(st, now).0;
    ResetFirstStudents(st, now, n);
    ResetFirstCount(once, now, n);
    assert once.students[..n] == once.students;
    DueCountZero(once.students, now);
  }

  lemma {:induction false} ResetFirstKeepsConsistent(st: Store, now: YearMonth, k: nat)
    requires Consistent(st) && k <= |st.students|
    ensures Consistent(ResetFirst(st, now, k).0)
  {
    if k > 0 {
      ResetFirstKeepsConsistent(st, now, k - 1);
      ResetKeepsConsistent(ResetFirst(st, now, k - 1).0, k, now);
    }
  }
}
