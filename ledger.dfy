/**
  The ledger engine: a store of students, recognitions, endorsements,
  redemptions and reset logs whose operations validate first and then change
  the rows in place. Each operation is proved to leave exactly the state and
  result its rule in module Rules describes, and to keep the store consistent.
*/
module Services {
  import opened Wrappers
  import opened Models
  import opened Rules
  import opened Ranking

  class Ledger {
    var students: seq<Student>
    var recognitions: seq<Recognition>
    var endorsements: seq<Endorsement>
    var redemptions: seq<Redemption>
    var resetLogs: seq<MonthlyResetLog>

    /** The current contents of the five tables. */
    function Snapshot(): Store
      reads this
    {
      Store(students, recognitions, endorsements, redemptions, resetLogs)
    }

    ghost predicate Valid()
      reads this
    {
      Consistent(Snapshot())
    }

    constructor ()
      ensures Valid() && Snapshot() == EmptyStore()
    {
      students, recognitions, endorsements, redemptions, resetLogs := [], [], [], [], [];
    }

    /** Registers a student under the next id with the default balance and counters. */
    method Register(name: string) returns (student: Student)
      requires Valid()
      modifies this
      ensures Valid()
      ensures (Snapshot(), student) == RegisterOutcome(old(Snapshot()), name)
    {
      student := NewStudent(|students| + 1, name);
      students := students + [student];
      RegisterKeepsConsistent(old(Snapshot()), name);
    }

    /**
      Transfers `credits` from one student to another and records the
      recognition, or refuses with the first failing check and changes
      nothing. Callers pass a positive amount.
    */
    method CreateRecognition(senderId: int, receiverId: int, credits: int, message: Option<string>)
      returns (result: Result<Recognition, Error>)
      requires Valid()
      requires credits > 0
      modifies this
      ensures Valid()
      ensures (Snapshot(), result) == TransferOutcome(old(Snapshot()), senderId, receiverId, credits, message)
    {
      ghost var expected := TransferOutcome(Snapshot(), senderId, receiverId, credits, message);
      TransferKeepsConsistent(Snapshot(), senderId, receiverId, credits, message);
      if !(1 <= senderId <= |students|) {
        return Failure(StudentNotFound(senderId));
      }
      var sender := students[senderId - 1];
      if !(1 <= receiverId <= |students|) {
        return Failure(StudentNotFound(receiverId));
      }
      var receiver := students[receiverId - 1];
      if senderId == receiverId {
        return Failure(SelfTransfer);
      }
      if credits > sender.currentBalance {
        return Failure(InsufficientBalance(sender.currentBalance, credits));
      }
      if sender.monthlySentThisMonth + credits > MonthlyLimit {
        return Failure(MonthlyLimitExceeded(sender.monthlySentThisMonth, credits));
      }

      sender := sender.(currentBalance := sender.currentBalance - credits);
      sender := sender.(monthlySentThisMonth := sender.monthlySentThisMonth + credits);
      students := students[senderId - 1 := sender];

      receiver := receiver.(currentBalance := receiver.currentBalance + credits);
      receiver := receiver.(creditsReceivedTotal := receiver.creditsReceivedTotal + credits);
      students := students[receiverId - 1 := receiver];

      var recognition := Recognition(|recognitions| + 1, senderId, receiverId, credits, message);
      recognitions := recognitions + [recognition];
      assert Snapshot() == expected.0;
      return Success(recognition);
    }

    /** Records one endorsement of a recognition by a student, or refuses and changes nothing. */
    method Endorse(recognitionId: int, endorserId: int) returns (result: Result<Endorsement, Error>)
      requires Valid()
      modifies this
      ensures Valid()
      ensures (Snapshot(), result) == EndorseOutcome(old(Snapshot()), recognitionId, endorserId)
    {
      if !(1 <= recognitionId <= |recognitions|) {
        return Failure(RecognitionNotFound(recognitionId));
      }
      if !(1 <= endorserId <= |students|) {
        return Failure(EndorserNotFound(endorserId));
      }
      var existing := FindEndorsement(endorsements, recognitionId, endorserId);
      if existing.Some? {
        return Failure(AlreadyEndorsed);
      }
      var endorsement := Endorsement(|endorsements| + 1, recognitionId, endorserId);
      endorsements := endorsements + [endorsement];
      EndorseKeepsConsistent(old(Snapshot()), recognitionId, endorserId);
      return Success(endorsement);
    }

    /** Converts credits into a voucher and deducts them, or refuses and changes nothing. */
    method Redeem(studentId: int, creditsToRedeem: int) returns (result: Result<Redemption, Error>)
      requires Valid()
      modifies this
      ensures Valid()
      ensures (Snapshot(), result) == RedeemOutcome(old(Snapshot()), studentId, creditsToRedeem)
    {
      if !(1 <= studentId <= |students|) {
        return Failure(StudentNotFound(studentId));
      }
      var student := students[studentId - 1];
      if creditsToRedeem <= 0 {
        return Failure(InvalidAmount);
      }
      if student.currentBalance < creditsToRedeem {
        return Failure(InsufficientCredits(student.currentBalance, creditsToRedeem));
      }
      var voucherValueInr := creditsToRedeem * InrPerCredit;
      student := student.(currentBalance := student.currentBalance - creditsToRedeem);
      students := students[studentId - 1 := student];
      var redemption := Redemption(|redemptions| + 1, studentId, creditsToRedeem, voucherValueInr);
      redemptions := redemptions + [redemption];
      RedeemKeepsConsistent(old(Snapshot()), studentId, creditsToRedeem);
      return Success(redemption);
    }

    /** Resets one student if no reset has happened in the calendar month of `now`; reports whether it did. */
    method EnsureMonthlyReset(studentId: int, now: YearMonth) returns (didReset: bool)
      requires Valid()
      requires HasRow(students, studentId)
      modifies this
      ensures Valid()
      ensures (Snapshot(), didReset) == ResetOutcome(old(Snapshot()), studentId, now)
    {
      var student := students[studentId - 1];
      var needsReset: bool;
      match student.lastCreditReset {
        case None =>
          needsReset := true;
        case Some(last) =>
          needsReset := MonthBefore(last, now);
      }
      if !needsReset {
        return false;
      }
      var carryForward := CarryForward(student.currentBalance);
      student := student.(currentBalance := BaseAllowance + carryForward);
      student := student.(monthlySentThisMonth := 0);
      student := student.(lastCreditReset := Some(now));
      students := students[studentId - 1 := student];
      var log := MonthlyResetLog(|resetLogs| + 1, studentId, now.month, now.year, carryForward);
      resetLogs := resetLogs + [log];
      ResetKeepsConsistent(old(Snapshot()), studentId, now);
      return true;
    }

    /** Runs the monthly reset for every student in id order and counts the students actually reset. */
    method RunMonthlyResetForAllStudents(now: YearMonth) returns (resetCount: nat)
      requires Valid()
      modifies this
      ensures Valid()
      ensures (Snapshot(), resetCount) == ResetAll(old(Snapshot()), now)
      ensures resetCount == DueCount(old(students), now) <= |students|
    {
      resetCount := 0;
      var i := 0;
      while i < |students|
        invariant 0 <= i <= |students| == |old(students)|
        invariant (Snapshot(), resetCount) == ResetFirst(old(Snapshot()), now, i)
        invariant Valid()
      {
        var didReset := EnsureMonthlyReset(i + 1, now);
        if didReset {
          resetCount := resetCount + 1;
        }
        i := i + 1;
      }
      ResetAllCountsDue(old(Snapshot()), now);
    }

    /** The top `limit` standings, ranked, each as the dictionary the caller receives. */
    method Leaderboard(limit: nat) returns (board: seq<Dict>)
      ensures |board| <= limit
      ensures |board| == |Top(Snapshot(), limit)|
      ensures forall i | 0 <= i < |board| :: board[i] == StandingToDict(Top(Snapshot(), limit)[i])
    {
      var results := Top(Snapshot(), limit);
      board := [];
      for i := 0 to |results|
        invariant |board| == i
        invariant forall j | 0 <= j < i :: board[j] == StandingToDict(results[j])
      {
        board := board + [StandingToDict(results[i])];
      }
    }
  }

  /**
    A client of the ledger: two students, a transfer of 30 with a message, a
    redemption of 50, then a one-row leaderboard, which lists B with the 30
    credits of one recognition (WalkthroughLeaderboard evaluates it).
  */
  method Walkthrough()
  {
    var ledger := new Ledger();
    var a := ledger.Register("A");
    var b := ledger.Register("B");
    assert a.id == 1 && b.id == 2;
    SendThanks(ledger);
    RedeemVoucher(ledger);
    WalkthroughLeaderboard(ledger.Snapshot());
    var board := ledger.Leaderboard(1);
    assert board == [StandingToDict(Standing(2, "B", 30, 1, 0))];
  }

  /** On two fresh students A and B: A sends B 30 credits with a message, and B's self-transfer is refused. */
  method SendThanks(ledger: Ledger)
    requires ledger.Valid()
    requires ledger.students == [NewStudent(1, "A"), NewStudent(2, "B")]
    requires ledger.recognitions == [] && ledger.endorsements == [] && ledger.redemptions == []
    modifies ledger
    ensures ledger.Valid()
    ensures ledger.students == [Student(1, "A", 70, 0, 30, None), Student(2, "B", 130, 30, 0, None)]
    ensures ledger.recognitions == [Recognition(1, 1, 2, 30, Some("thanks"))]
    ensures ledger.endorsements == [] && ledger.redemptions == []
  {
    var sent := ledger.CreateRecognition(1, 2, 30, Some("thanks"));
    assert sent.Success?;
    var self := ledger.CreateRecognition(2, 2, 1, None);
    assert self == Failure(SelfTransfer);
  }

  /** B, holding 130 credits, redeems 50 of them for a 250 rupee voucher and keeps 80. */
  method RedeemVoucher(ledger: Ledger)
    requires ledger.Valid()
    requires ledger.students == [Student(1, "A", 70, 0, 30, None), Student(2, "B", 130, 30, 0, None)]
    requires ledger.redemptions == []
    modifies ledger
    ensures ledger.Valid()
    ensures ledger.students == [Student(1, "A", 70, 0, 30, None), Student(2, "B", 80, 30, 0, None)]
    ensures ledger.redemptions == [Redemption(1, 2, 50, 250)]
    ensures ledger.recognitions == old(ledger.recognitions) && ledger.endorsements == old(ledger.endorsements)
  {
    var redeemed := ledger.Redeem(2, 50);
    assert redeemed == Success(Redemption(1, 2, 50, 250));
  }

  /** A client of the monthly reset: the first run in a month resets both new students, the second none. */
  method ResetWalkthrough()
  {
    var ledger := new Ledger();
    var a := ledger.Register("A");
    var b := ledger.Register("B");
    var now := YearMonth(2024, 5);
    ghost var registered := ledger.Snapshot();
    assert registered.students == [NewStudent(1, "A"), NewStudent(2, "B")];
    var count := ledger.RunMonthlyResetForAllStudents(now);
    WalkthroughReset(registered, now);
    assert count == 2;
    assert ledger.students[0].currentBalance == 150 && ledger.students[1].currentBalance == 150;
    count := ledger.RunMonthlyResetForAllStudents(now);
    assert count == 0;
  }

  /** The one-row leaderboard of the store Walkthrough leaves: B, with 30 credits from one recognition. */
  lemma WalkthroughLeaderboard(st: Store)
    requires st.students == [Student(1, "A", 70, 0, 30, None), Student(2, "B", 80, 30, 0, None)]
    requires st.recognitions == [Recognition(1, 1, 2, 30, Some("thanks"))] && st.endorsements == []
    ensures Top(st, 1) == [Standing(2, "B", 30, 1, 0)]
  {
    var a := Standing(1, "A", 0, 0, 0);
    var b := Standing(2, "B", 30, 1, 0);
    var recs := st.recognitions;
    assert recs[..0] == [];
    assert RecognitionCount(recs, 1) == 0 && RecognitionCount(recs, 2) == 1;
    assert EndorsementCount(recs, [], 1) == 0 && EndorsementCount(recs, [], 2) == 0;
    assert StandingOf(st, st.students[0]) == a;
    assert StandingOf(st, st.students[1]) == b;
    assert Standings(st) == [a, b];
    assert RanksAbove(b, a);
    assert [a, b][1..] == [b];
    assert Sort([b]) == Insert(b, []) == [b];
    assert Insert(a, [b]) == [b, a];
    assert Sort([a, b]) == [b, a];
  }

  /** The reset walkthrough's batch reset, evaluated: both students were never reset, so both are, keeping 50 of their 100. */
  lemma WalkthroughReset(st: Store, now: YearMonth)
    requires st.students == [NewStudent(1, "A"), NewStudent(2, "B")]
    ensures ResetAll(st, now).1 == 2
    ensures ResetAll(st, now).0.students[0].currentBalance == 150
    ensures ResetAll(st, now).0.students[1].currentBalance == 150
  {
  }
}
