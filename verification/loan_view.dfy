/**
 * The client-side view of one loan record.  The contract's `Loans(id)` getter
 * returns the tuple `[amount, receiver, ttl, status]` with the status as its
 * enum ordinal; the helper turns it into an object whose status is the
 * variant's name, and throws `invalid status` for any other ordinal.
 */
module LoanView {
  import opened Wrappers

  /** The lifecycle states of a loan request, in ordinal order. */
  datatype Status = Empty | Created | Approved | Canceled | Refused | Completed

  const InvalidStatus: string := "invalid status"

  /**
   * The tuple the getter returns.  Amount, receiver and ttl are carried as
   * opaque values of the caller's choosing; only the status ordinal is read.
   */
  datatype LoanTuple<A, R, T> = LoanTuple(amount: A, receiver: R, ttl: T, statusCode: nat)

  /** The object the helper builds: the same three fields and the status name. */
  datatype LoanObject<A, R, T> = LoanObject(amount: A, receiver: R, ttl: T, status: string)

  /** The enum ordinal of a status. */
  function Code(st: Status): (code: nat)
    ensures code <= 5
  {
    match st
    case Empty => 0
    case Created => 1
    case Approved => 2
    case Canceled => 3
    case Refused => 4
    case Completed => 5
  }

  /** The name the helper writes for a status. */
  function Name(st: Status): (name: string)
    ensures StatusFromName(name) == Some(st)
  {
    match st
    case Empty => "Empty"
    case Created => "Created"
    case Approved => "Approved"
    case Canceled => "Canceled"
    case Refused => "Refused"
    case Completed => "Completed"
  }

  /** The status an ordinal denotes, failing for any ordinal beyond the enum. */
  function DecodeStatus(code: nat): (r: Result<Status>)
    ensures r.Ok? <==> code <= 5
    ensures r.Ok? ==> Code(r.value) == code
    ensures r.Err? ==> r.error == InvalidStatus
  {
    match code
    case 0 => Ok(Empty)
    case 1 => Ok(Created)
    case 2 => Ok(Approved)
    case 3 => Ok(Canceled)
    case 4 => Ok(Refused)
    case 5 => Ok(Completed)
    case _ => Err(InvalidStatus)
  }

  /** The status a name denotes, if it is one of the six names. */
  function StatusFromName(name: string): Option<Status> {
    if name == "Empty" then Some(Empty)
    else if name == "Created" then Some(Created)
    else if name == "Approved" then Some(Approved)
    else if name == "Canceled" then Some(Canceled)
    else if name == "Refused" then Some(Refused)
    else if name == "Completed" then Some(Completed)
    else None
  }

  /**
   * Builds the object view of a tuple: the first three fields pass through,
   * the ordinal becomes the status name, an unknown ordinal fails.
   */
  function LoanToObject<A, R, T>(loan: LoanTuple<A, R, T>): (r: Result<LoanObject<A, R, T>>)
    ensures r.Ok? <==> loan.statusCode <= 5
    ensures r.Err? ==> r.error == InvalidStatus
    ensures r.Ok? ==> r.value.amount == loan.amount
    ensures r.Ok? ==> r.value.receiver == loan.receiver
    ensures r.Ok? ==> r.value.ttl == loan.ttl
    ensures r.Ok? ==>
              StatusFromName(r.value.status).Some? &&
              Code(StatusFromName(r.value.status).value) == loan.statusCode
  {
    match DecodeStatus(loan.statusCode)
    case Err(e) => Err(e)
    case Ok(st) => Ok(LoanObject(loan.amount, loan.receiver, loan.ttl, Name(st)))
  }

  /** The tuple an object view came from, if its status is one of the six names. */
  function ObjectToLoan<A, R, T>(obj: LoanObject<A, R, T>): (r: Option<LoanTuple<A, R, T>>)
    ensures r.Some? <==> StatusFromName(obj.status).Some?
    ensures r.Some? ==> r.value.statusCode <= 5
  {
    match StatusFromName(obj.status)
    case None => None
    case Some(st) => Some(LoanTuple(obj.amount, obj.receiver, obj.ttl, Code(st)))
  }

  /** Ordinals 0..5 decode to Empty, Created, Approved, Canceled, Refused, Completed. */
  lemma StatusTable()
    ensures DecodeStatus(0) == Ok(Empty) && Name(Empty) == "Empty"
    ensures DecodeStatus(1) == Ok(Created) && Name(Created) == "Created"
    ensures DecodeStatus(2) == Ok(Approved) && Name(Approved) == "Approved"
    ensures DecodeStatus(3) == Ok(Canceled) && Name(Canceled) == "Canceled"
    ensures DecodeStatus(4) == Ok(Refused) && Name(Refused) == "Refused"
    ensures DecodeStatus(5) == Ok(Completed) && Name(Completed) == "Completed"
  {
  }

  /** Decoding a status's own ordinal gives the status back. */
  lemma DecodeCode(st: Status)
    ensures DecodeStatus(Code(st)) == Ok(st)
  {
  }

  /** A recognised name is the name of the status it reads as. */
  lemma StatusFromNameSound(name: string)
    requires StatusFromName(name).Some?
    ensures Name(StatusFromName(name).value) == name
  {
  }

  /** Distinct statuses have distinct names, and each name reads back as its status. */
  lemma NameInjective(a: Status, b: Status)
    ensures StatusFromName(Name(a)) == Some(a)
    ensures Name(a) == Name(b) <==> a == b
  {
  }

  /** Viewing a tuple with a valid ordinal and mapping it back gives the tuple. */
  lemma LoanRoundTrip<A, R, T>(loan: LoanTuple<A, R, T>)
    requires loan.statusCode <= 5
    ensures LoanToObject(loan).Ok?
    ensures ObjectToLoan(LoanToObject(loan).value) == Some(loan)
  {
    DecodeCode(DecodeStatus(loan.statusCode).value);
    NameInjective(DecodeStatus(loan.statusCode).value, Empty);
  }

  /** An object with a valid status name is the view of the tuple it maps back to. */
  lemma ObjectRoundTrip<A, R, T>(obj: LoanObject<A, R, T>)
    requires StatusFromName(obj.status).Some?
    ensures ObjectToLoan(obj).Some?
    ensures LoanToObject(ObjectToLoan(obj).value) == Ok(obj)
  {
    DecodeCode(StatusFromName(obj.status).value);
  }
}
