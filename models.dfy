/**
  The record shapes of the credit ledger: students, recognitions (credit
  transfers), endorsements, redemptions and monthly reset logs, the defaults a
  new student starts with, and the dictionary view each record is serialised to.

  Creation timestamps are not part of this model, so the dictionaries below
  carry every stored field except `created_at`.
*/
module Models {
  import opened Wrappers

  /** The calendar month of a timestamp; the only part of a timestamp the ledger ever compares. */
  datatype YearMonth = YearMonth(year: int, month: int)

  datatype Student = Student(
    id: int,
    name: string,
    currentBalance: int,
    creditsReceivedTotal: int,
    monthlySentThisMonth: int,
    lastCreditReset: Option<YearMonth>)

  /** One completed transfer of `credits` from `senderId` to `receiverId`. */
  datatype Recognition = Recognition(
    id: int,
    senderId: int,
    receiverId: int,
    credits: int,
    message: Option<string>)

  /** Student `endorserId` vouching for recognition `recognitionId`; it moves no credits. */
  datatype Endorsement = Endorsement(id: int, recognitionId: int, endorserId: int)

  /** Credits taken out of circulation in exchange for a voucher worth `voucherValueInr`. */
  datatype Redemption = Redemption(
    id: int,
    studentId: int,
    creditsRedeemed: int,
    voucherValueInr: int)

  /** One monthly reset of one student, with the part of the old balance it carried forward. */
  datatype MonthlyResetLog = MonthlyResetLog(
    id: int,
    studentId: int,
    month: int,
    year: int,
    carriedForward: int)

  /** The balance a student is registered with. */
  const InitialBalance := 100

  /** A freshly registered student: column defaults for every field but the id and the name. */
  function NewStudent(id: int, name: string): (s: Student)
    ensures s.id == id && s.name == name
    ensures s.currentBalance == 100 && s.creditsReceivedTotal == 0 && s.monthlySentThisMonth == 0
    ensures s.lastCreditReset.None?
  {
    Student(id, name, InitialBalance, 0, 0, None)
  }

  /** A value in a serialised record: an integer, a text, or JSON null. */
  datatype Value = Int(i: int) | Text(s: string) | Null

  type Dict = map<string, Value>

  function TextOrNull(t: Option<string>): Value
  {
    match t
    case Some(s) => Text(s)
    case None => Null
  }

  function IntAt(d: Dict, key: string): Option<int>
  {
    if key in d && d[key].Int? then Some(d[key].i) else None
  }

  function TextAt(d: Dict, key: string): Option<string>
  {
    if key in d && d[key].Text? then Some(d[key].s) else None
  }

  /** The field `key` of `d` read as an optional text; None when the key is absent or not text/null. */
  function OptionalTextAt(d: Dict, key: string): Option<Option<string>>
  {
    if key !in d then None
    else match d[key]
      case Text(s) => Some(Some(s))
      case Null => Some(None)
      case Int(_) => None
  }

  /** Student.to_dict: every column except `last_credit_reset`. */
  function StudentToDict(s: Student): (d: Dict)
    ensures d.Keys == {"id", "name", "current_balance", "credits_received_total", "monthly_sent_this_month"}
    ensures "last_credit_reset" !in d
  {
    map["id" := Int(s.id),
        "name" := Text(s.name),
        "current_balance" := Int(s.currentBalance),
        "credits_received_total" := Int(s.creditsReceivedTotal),
        "monthly_sent_this_month" := Int(s.monthlySentThisMonth)]
  }

  /** Reads a student back from its dictionary; the last reset is not in it, so it comes back unset. */
  function StudentFromDict(d: Dict): Option<Student>
  {
    match (IntAt(d, "id"), TextAt(d, "name"), IntAt(d, "current_balance"),
           IntAt(d, "credits_received_total"), IntAt(d, "monthly_sent_this_month"))
    case (Some(id), Some(name), Some(balance), Some(received), Some(sent)) =>
      Some(Student(id, name, balance, received, sent, None))
    case _ => None
  }

  /** The dictionary of a student determines every field of it except the last reset. */
  lemma StudentDictRoundTrip(s: Student)
    ensures StudentFromDict(StudentToDict(s)) == Some(s.(lastCreditReset := None))
  {
  }

  function RecognitionToDict(r: Recognition): (d: Dict)
    ensures d.Keys == {"id", "sender_id", "receiver_id", "credits", "message"}
    ensures r.message.None? <==> d["message"] == Null
  {
    map["id" := Int(r.id),
        "sender_id" := Int(r.senderId),
        "receiver_id" := Int(r.receiverId),
        "credits" := Int(r.credits),
        "message" := TextOrNull(r.message)]
  }

  function RecognitionFromDict(d: Dict): Option<Recognition>
  {
    match (IntAt(d, "id"), IntAt(d, "sender_id"), IntAt(d, "receiver_id"),
           IntAt(d, "credits"), OptionalTextAt(d, "message"))
    case (Some(id), Some(sender), Some(receiver), Some(credits), Some(message)) =>
      Some(Recognition(id, sender, receiver, credits, message))
    case _ => None
  }

  /** Recognition.to_dict loses nothing: the record is read back unchanged. */
  lemma RecognitionDictRoundTrip(r: Recognition)
    ensures RecognitionFromDict(RecognitionToDict(r)) == Some(r)
  {
  }

  function EndorsementToDict(e: Endorsement): (d: Dict)
    ensures d.Keys == {"id", "recognition_id", "endorser_id"}
  {
    map["id" := Int(e.id),
        "recognition_id" := Int(e.recognitionId),
        "endorser_id" := Int(e.endorserId)]
  }

  function EndorsementFromDict(d: Dict): Option<Endorsement>
  {
    match (IntAt(d, "id"), IntAt(d, "recognition_id"), IntAt(d, "endorser_id"))
    case (Some(id), Some(recognition), Some(endorser)) => Some(Endorsement(id, recognition, endorser))
    case _ => None
  }

  lemma EndorsementDictRoundTrip(e: Endorsement)
    ensures EndorsementFromDict(EndorsementToDict(e)) == Some(e)
  {
  }

  function RedemptionToDict(r: Redemption): (d: Dict)
    ensures d.Keys == {"id", "student_id", "credits_redeemed", "voucher_value_inr"}
  {
    map["id" := Int(r.id),
        "student_id" := Int(r.studentId),
        "credits_redeemed" := Int(r.creditsRedeemed),
        "voucher_value_inr" := Int(r.voucherValueInr)]
  }

  function RedemptionFromDict(d: Dict): Option<Redemption>
  {
    match (IntAt(d, "id"), IntAt(d, "student_id"), IntAt(d, "credits_redeemed"), IntAt(d, "voucher_value_inr"))
    case (Some(id), Some(student), Some(credits), Some(voucher)) => Some(Redemption(id, student, credits, voucher))
    case _ => None
  }

  lemma RedemptionDictRoundTrip(r: Redemption)
    ensures RedemptionFromDict(RedemptionToDict(r)) == Some(r)
  {
  }

  function ResetLogToDict(l: MonthlyResetLog): (d: Dict)
    ensures d.Keys == {"id", "student_id", "month", "year", "carried_forward"}
  {
    map["id" := Int(l.id),
        "student_id" := Int(l.studentId),
        "month" := Int(l.month),
        "year" := Int(l.year),
        "carried_forward" := Int(l.carriedForward)]
  }

  function ResetLogFromDict(d: Dict): Option<MonthlyResetLog>
  {
    match (IntAt(d, "id"), IntAt(d, "student_id"), IntAt(d, "month"), IntAt(d, "year"), IntAt(d, "carried_forward"))
    case (Some(id), Some(student), Some(month), Some(year), Some(carried)) =>
      Some(MonthlyResetLog(id, student, month, year, carried))
    case _ => None
  }

  lemma ResetLogDictRoundTrip(l: MonthlyResetLog)
    ensures ResetLogFromDict(ResetLogToDict(l)) == Some(l)
  {
  }
}
