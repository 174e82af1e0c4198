/**
 * The result and reason enumerations of the generated messages
 * (src/client_messages.rs). Each is written as its `i32` discriminant;
 * `From<i32>` maps every value without a variant to the `Default` variant.
 */
module OperationResults {
  import opened Ints

  datatype OperationResult =
    | Success | PrepareTimeout | CommitTimeout | ForwardTimeout
    | WrongExpectedVersion | StreamDeleted | InvalidTransaction | AccessDenied

  /** `e as i32`. */
  function ToI32(e: OperationResult): (v: I32)
    ensures 0 <= v <= 7
  {
    match e
    case Success => 0
    case PrepareTimeout => 1
    case CommitTimeout => 2
    case ForwardTimeout => 3
    case WrongExpectedVersion => 4
    case StreamDeleted => 5
    case InvalidTransaction => 6
    case AccessDenied => 7
  }

  /** `From<i32>`: unknown discriminants become `Success`, the default. */
  function FromI32(i: I32): (e: OperationResult)
    ensures !(0 <= i <= 7) ==> e == Success
    ensures 0 <= i <= 7 ==> ToI32(e) == i
  {
    match i
    case 1 => PrepareTimeout
    case 2 => CommitTimeout
    case 3 => ForwardTimeout
    case 4 => WrongExpectedVersion
    case 5 => StreamDeleted
    case 6 => InvalidTransaction
    case 7 => AccessDenied
    case _ => Success
  }

  lemma RoundTrip(e: OperationResult)
    ensures FromI32(ToI32(e)) == e
  {
  }
}

module ReadEventResults {
  import opened Ints

  datatype ReadEventResult = Success | NotFound | NoStream | StreamDeleted | Error | AccessDenied

  function ToI32(e: ReadEventResult): (v: I32)
    ensures 0 <= v <= 5
  {
    match e
    case Success => 0
    case NotFound => 1
    case NoStream => 2
    case StreamDeleted => 3
    case Error => 4
    case AccessDenied => 5
  }

  /** `From<i32>`: unknown discriminants become `Success`, the default. */
  function FromI32(i: I32): (e: ReadEventResult)
    ensures !(0 <= i <= 5) ==> e == Success
    ensures 0 <= i <= 5 ==> ToI32(e) == i
  {
    match i
    case 1 => NotFound
    case 2 => NoStream
    case 3 => StreamDeleted
    case 4 => Error
    case 5 => AccessDenied
    case _ => Success
  }

  lemma RoundTrip(e: ReadEventResult)
    ensures FromI32(ToI32(e)) == e
  {
  }
}

module ReadStreamResults {
  import opened Ints

  datatype ReadStreamResult = Success | NoStream | StreamDeleted | NotModified | Error | AccessDenied

  function ToI32(e: ReadStreamResult): (v: I32)
    ensures 0 <= v <= 5
  {
    match e
    case Success => 0
    case NoStream => 1
    case StreamDeleted => 2
    case NotModified => 3
    case Error => 4
    case AccessDenied => 5
  }

  /** `From<i32>`: unknown discriminants become `Success`, the default. */
  function FromI32(i: I32): (e: ReadStreamResult)
    ensures !(0 <= i <= 5) ==> e == Success
    ensures 0 <= i <= 5 ==> ToI32(e) == i
  {
    match i
    case 1 => NoStream
    case 2 => StreamDeleted
    case 3 => NotModified
    case 4 => Error
    case 5 => AccessDenied
    case _ => Success
  }

  lemma RoundTrip(e: ReadStreamResult)
    ensures FromI32(ToI32(e)) == e
  {
  }
}

module ReadAllResults {
  import opened Ints

  datatype ReadAllResult = Success | NotModified | Error | AccessDenied

  function ToI32(e: ReadAllResult): (v: I32)
    ensures 0 <= v <= 3
  {
    match e
    case Success => 0
    case NotModified => 1
    case Error => 2
    case AccessDenied => 3
  }

  /** `From<i32>`: unknown discriminants become `Success`, the default. */
  function FromI32(i: I32): (e: ReadAllResult)
    ensures !(0 <= i <= 3) ==> e == Success
    ensures 0 <= i <= 3 ==> ToI32(e) == i
  {
    match i
    case 1 => NotModified
    case 2 => Error
    case 3 => AccessDenied
    case _ => Success
  }

  lemma RoundTrip(e: ReadAllResult)
    ensures FromI32(ToI32(e)) == e
  {
  }
}

module NotHandledReasons {
  import opened Ints

  datatype NotHandledReason = NotReady | TooBusy | NotMaster

  function ToI32(e: NotHandledReason): (v: I32)
    ensures 0 <= v <= 2
  {
    match e
    case NotReady => 0
    case TooBusy => 1
    case NotMaster => 2
  }

  /** `From<i32>`: unknown discriminants become `NotReady`, the default. */
  function FromI32(i: I32): (e: NotHandledReason)
    ensures !(0 <= i <= 2) ==> e == NotReady
    ensures 0 <= i <= 2 ==> ToI32(e) == i
  {
    match i
    case 1 => TooBusy
    case 2 => NotMaster
    case _ => NotReady
  }

  lemma RoundTrip(e: NotHandledReason)
    ensures FromI32(ToI32(e)) == e
  {
  }
}
