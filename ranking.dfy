/**
  The leaderboard: one standing per student (lifetime credits received, how
  many recognitions they received, how many endorsements those recognitions
  drew), ranked by credits received, most first, ties broken by the smaller
  student id, and cut to the requested number of rows.
*/
module Ranking {
  import opened Wrappers
  import opened Models
  import opened Rules

  /** One leaderboard row. */
  datatype Standing = Standing(
    studentId: int,
    name: string,
    creditsReceivedTotal: int,
    recognitionCount: nat,
    endorsementCount: nat)

  /** How many recognitions student `id` received. */
  function RecognitionCount(recognitions: seq<Recognition>, id: int): (n: nat)
    ensures n <= |recognitions|
  {
    if recognitions == [] then 0
    else
      RecognitionCount(recognitions[..|recognitions| - 1], id)
      + (if recognitions[|recognitions| - 1].receiverId == id then 1 else 0)
  }

  /** A student that received no recognition is counted with zero recognitions. */
  lemma {:induction false} RecognitionCountNone(recognitions: seq<Recognition>, id: int)
    requires forall i | 0 <= i < |recognitions| :: recognitions[i].receiverId != id
    ensures RecognitionCount(recognitions, id) == 0
  {
    if recognitions != [] {
      RecognitionCountNone(recognitions[..|recognitions| - 1], id);
    }
  }

  /** Whether endorsement `e` is on a recognition that student `id` received. */
  predicate EndorsesReceiptOf(recognitions: seq<Recognition>, e: Endorsement, id: int)
  {
    HasRow(recognitions, e.recognitionId) && recognitions[e.recognitionId - 1].receiverId == id
  }

  /** How many endorsements the recognitions received by student `id` drew. */
  function EndorsementCount(recognitions: seq<Recognition>, endorsements: seq<Endorsement>, id: int): (n: nat)
    ensures n <= |endorsements|
  {
    if endorsements == [] then 0
    else
      EndorsementCount(recognitions, endorsements[..|endorsements| - 1], id)
      + (if EndorsesReceiptOf(recognitions, endorsements[|endorsements| - 1], id) then 1 else 0)
  }

  function StandingOf(st: Store, s: Student): Standing
  {
    Standing(s.id, s.name, s.creditsReceivedTotal,
             RecognitionCount(st.recognitions, s.id),
             EndorsementCount(st.recognitions, st.endorsements, s.id))
  }

  /** Every student's standing, in id order; students with no recognitions are included. */
  function Standings(st: Store): (rows: seq<Standing>)
    ensures |rows| == |st.students|
    ensures forall i | 0 <= i < |rows| :: rows[i] == StandingOf(st, st.students[i])
  {
    seq(|st.students|, i requires 0 <= i < |st.students| => StandingOf(st, st.students[i]))
  }

  /** Whether `a` is listed before `b`: more credits received, or as many and a smaller id. */
  predicate RanksAbove(a: Standing, b: Standing)
    ensures a.creditsReceivedTotal > b.creditsReceivedTotal ==> RanksAbove(a, b)
    ensures a.creditsReceivedTotal < b.creditsReceivedTotal ==> !RanksAbove(a, b)
    ensures a.creditsReceivedTotal == b.creditsReceivedTotal ==> (RanksAbove(a, b) <==> a.studentId < b.studentId)
  {
    a.creditsReceivedTotal > b.creditsReceivedTotal
    || (a.creditsReceivedTotal == b.creditsReceivedTotal && a.studentId < b.studentId)
  }

  /** `RanksAbove` is a strict order, total on rows with different student ids. */
  lemma RanksAboveIsStrictOrder(a: Standing, b: Standing, c: Standing)
    ensures !RanksAbove(a, a)
    ensures RanksAbove(a, b) ==> !RanksAbove(b, a)
    ensures RanksAbove(a, b) && RanksAbove(b, c) ==> RanksAbove(a, c)
    ensures a.studentId != b.studentId ==> RanksAbove(a, b) || RanksAbove(b, a)
  {
  }

  /**
    No row is ranked above a row listed before it: totals received never
    grow down the list, and rows with equal totals come in ascending id order.
  */
  predicate Ranked(rows: seq<Standing>)
    ensures Ranked(rows) ==> forall i, j | 0 <= i < j < |rows| ::
      && rows[i].creditsReceivedTotal >= rows[j].creditsReceivedTotal
      && (rows[i].creditsReceivedTotal == rows[j].creditsReceivedTotal ==> rows[i].studentId <= rows[j].studentId)
  {
    forall i, j | 0 <= i < j < |rows| :: !RanksAbove(rows[j], rows[i])
  }

  function Insert(x: Standing, rows: seq<Standing>): (r: seq<Standing>)
    ensures multiset(r) == multiset(rows) + multiset{x}
  {
    if rows == [] then [x]
    else if RanksAbove(rows[0], x) then
      assert rows == [rows[0]] + rows[1..];
      [rows[0]] + Insert(x, rows[1..])
    else [x] + rows
  }

  lemma {:induction false} InsertRanked(x: Standing, rows: seq<Standing>)
    requires Ranked(rows)
    ensures Ranked(Insert(x, rows))
  {
    if rows != [] {
      var r := Insert(x, rows);
      if RanksAbove(rows[0], x) {
        var tail := Insert(x, rows[1..]);
        InsertRanked(x, rows[1..]);
        forall j | 0 < j < |r|
          ensures !RanksAbove(r[j], rows[0])
        {
          assert r[j] == tail[j - 1];
          assert tail[j - 1] in multiset(tail);
          if r[j] != x {
            assert r[j] in multiset(rows[1..]);
            var k :| 0 <= k < |rows[1..]| && rows[1..][k] == r[j];
            assert rows[k + 1] == r[j];
          }
        }
      }
    }
  }

  /** The reference order of the leaderboard query: a ranked permutation of the standings. */
  function Sort(rows: seq<Standing>): (r: seq<Standing>)
    ensures multiset(r) == multiset(rows)
    ensures Ranked(r)
  {
    if rows == [] then []
    else
      assert rows == [rows[0]] + rows[1..];
      InsertRanked(rows[0], Sort(rows[1..]));
      Insert(rows[0], Sort(rows[1..]))
  }

  /** The leaderboard for `limit` rows. */
  function Top(st: Store, limit: nat): (r: seq<Standing>)
    ensures |r| == if limit < |st.students| then limit else |st.students|
    ensures r <= Sort(Standings(st))
  {
    var ranked := Sort(Standings(st));
    assert |ranked| == |multiset(ranked)| == |st.students|;
    ranked[..if limit < |ranked| then limit else |ranked|]
  }

  /** Two standings of one consistent store with the same student id are the same row. */
  lemma StandingIdsUnique(st: Store, a: Standing, b: Standing)
    requires Consistent(st)
    requires a in Standings(st) && b in Standings(st) && a.studentId == b.studentId
    ensures a == b
  {
  }

  /**
    The leaderboard rows are standings, each at most as often as it occurs
    among the standings; the cut keeps min(limit, n) rows in ranking order.
  */
  lemma TopRows(st: Store, limit: nat)
    ensures |Top(st, limit)| == if limit < |st.students| then limit else |st.students|
    ensures Ranked(Top(st, limit))
    ensures forall row | row in Top(st, limit) :: row in Standings(st)
    ensures multiset(Top(st, limit)) <= multiset(Standings(st))
    ensures limit >= |st.students| ==> multiset(Top(st, limit)) == multiset(Standings(st))
  {
    var ranked := Sort(Standings(st));
    var top := Top(st, limit);
    assert |ranked| == |multiset(ranked)| == |st.students|;
    assert ranked == top + ranked[|top|..];
    assert multiset(ranked) == multiset(top) + multiset(ranked[|top|..]);
    forall row | row in top
      ensures row in Standings(st)
    {
      var i :| 0 <= i < |top| && top[i] == row;
      assert ranked[i] in multiset(ranked);
    }
    if limit >= |st.students| {
      assert top == ranked;
    }
  }

  /** In a consistent store, a standing is the true standing of the student its id names. */
  lemma StandingFaithful(st: Store, row: Standing)
    requires Consistent(st)
    requires row in Standings(st)
    ensures HasRow(st.students, row.studentId) && row == StandingOf(st, st.students[row.studentId - 1])
    ensures row.creditsReceivedTotal == ReceivedSum(st.recognitions, row.studentId)
  {
  }

  /** Every standing cut off the leaderboard ranks below every row on it. */
  lemma TopBeatsRest(st: Store, limit: nat, row: Standing, other: Standing)
    requires Consistent(st)
    requires row in Top(st, limit) && other in Standings(st) && other !in Top(st, limit)
    ensures RanksAbove(row, other)
  {
    var ranked := Sort(Standings(st));
    var top := Top(st, limit);
    var k := |top|;
    assert top == ranked[..k];
    var i :| 0 <= i < k && top[i] == row;
    assert other in multiset(ranked);
    var j :| 0 <= j < |ranked| && ranked[j] == other;
    assert !RanksAbove(ranked[j], ranked[i]);
    TopRows(st, limit);
    if row.studentId == other.studentId {
      StandingIdsUnique(st, row, other);
    }
  }

  /**
    The leaderboard has min(limit, number of students) rows, in ranking
    order; each row is a student's true standing (its lifetime total is the
    sum of the credits the student received); every student left out ranks
    below every student listed; no standing is listed twice; and with a
    limit of at least the number of students, every student is listed
    exactly once.
  */
  lemma LeaderboardIsTop(st: Store, limit: nat)
    requires Consistent(st)
    ensures |Top(st, limit)| == if limit < |st.students| then limit else |st.students|
    ensures Ranked(Top(st, limit))
    ensures forall row | row in Top(st, limit) ::
      && HasRow(st.students, row.studentId)
      && row == StandingOf(st, st.students[row.studentId - 1])
      && row.creditsReceivedTotal == ReceivedSum(st.recognitions, row.studentId)
    ensures forall row, other | row in Top(st, limit) && other in Standings(st) && other !in Top(st, limit) ::
      RanksAbove(row, other)
    ensures multiset(Top(st, limit)) <= multiset(Standings(st))
    ensures limit >= |st.students| ==> multiset(Top(st, limit)) == multiset(Standings(st))
  {
    TopRows(st, limit);
    forall row | row in Top(st, limit)
      ensures HasRow(st.students, row.studentId) && row == StandingOf(st, st.students[row.studentId - 1])
      ensures row.creditsReceivedTotal == ReceivedSum(st.recognitions, row.studentId)
    {
      StandingFaithful(st, row);
    }
    forall row, other | row in Top(st, limit) && other in Standings(st) && other !in Top(st, limit)
      ensures RanksAbove(row, other)
    {
      TopBeatsRest(st, limit, row, other);
    }
  }

  /** The dictionary a leaderboard row is returned as. */
  function StandingToDict(s: Standing): (d: Dict)
    ensures d.Keys == {"student_id", "name", "credits_received_total", "recognition_count", "endorsement_count"}
  {
    map["student_id" := Int(s.studentId),
        "name" := Text(s.name),
        "credits_received_total" := Int(s.creditsReceivedTotal),
        "recognition_count" := Int(s.recognitionCount),
        "endorsement_count" := Int(s.endorsementCount)]
  }

  /** Reads a leaderboard row back; None when a field is missing, mistyped, or a count is negative. */
  function StandingFromDict(d: Dict): Option<Standing>
  {
    match (IntAt(d, "student_id"), TextAt(d, "name"), IntAt(d, "credits_received_total"),
           IntAt(d, "recognition_count"), IntAt(d, "endorsement_count"))
    case (Some(id), Some(name), Some(total), Some(recognitions), Some(endorsements)) =>
      if recognitions >= 0 && endorsements >= 0 then
        Some(Standing(id, name, total, recognitions, endorsements))
      else None
    case _ => None
  }

  /** A leaderboard row survives the trip through its dictionary unchanged. */
  lemma StandingDictRoundTrip(s: Standing)
    ensures StandingFromDict(StandingToDict(s)) == Some(s)
  {
  }
}
