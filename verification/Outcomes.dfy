/** The result of an operation that may stop the program with a coded panic. */
module Outcomes {
  datatype Outcome<+T> = Value(value: T) | Panic(code: string)
}
