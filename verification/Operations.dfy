/** What a log entry records. */
module Operations {
  import opened TypedBytes

  datatype Operation =
    | BEGIN | COMMIT | ABORT | UPDATE | INSERT | DELETE | CHECKPOINT | CREATE_TABLE | DROP_TABLE
    | Unknown(code: Int32)

  function Code(op: Operation): Int32 {
    match op
    case BEGIN => 0
    case COMMIT => 1
    case ABORT => 2
    case UPDATE => 3
    case INSERT => 4
    case DELETE => 5
    case CHECKPOINT => 6
    case CREATE_TABLE => 7
    case DROP_TABLE => 8
    case Unknown(code) => code
  }

  function OperationOf(code: Int32): Operation {
    match code
    case 0 => BEGIN
    case 1 => COMMIT
    case 2 => ABORT
    case 3 => UPDATE
    case 4 => INSERT
    case 5 => DELETE
    case 6 => CHECKPOINT
    case 7 => CREATE_TABLE
    case 8 => DROP_TABLE
    case _ => Unknown(code)
  }
}
