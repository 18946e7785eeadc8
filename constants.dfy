/**
 * The constant values the core reads: the ID alphabet and the e-mail limits of
 * pkg/constants/validation.go, and the 4-digit error codes of
 * internal/constants/errors.go.
 */
module Constants {

  /** The digits FormatID writes, in order of digit value: IDAlphabet[d] is the digit of value d. */
  const IDAlphabet: string := "0123456789abcdefghijklmnopqrstuvwxyz"

  const MinEmailLength: nat := 3
  const MaxEmailLength: nat := 320

  /** A 4-digit error code; codes are compared as strings. */
  type ErrorCode = string

  const UnknownError: ErrorCode := "0000"
  const InvalidParameter: ErrorCode := "0400"
  const NotFound: ErrorCode := "0404"
  const ConstraintError: ErrorCode := "0409"
  const InternalError: ErrorCode := "0500"
  /** Shares its value with InternalError. */
  const DatabaseError: ErrorCode := "0500"
}
