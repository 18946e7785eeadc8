/**
 * The coded errors of pkg/errors/errors.go: a CustomError carries a 4-digit
 * code and a message; Wrap adds context and decides which code survives;
 * GetCode finds the code of the first CustomError in an error's unwrap chain.
 * Go's nil error is None.
 */
module Errors {
  import opened Wrappers
  import opened Constants

  datatype CustomError = CustomError(code: ErrorCode, message: string)

  /**
   * The errors Wrap and GetCode can meet: a CustomError, an error that wraps
   * nothing, or an error whose Unwrap returns inner. text is what Error()
   * returns for the last two.
   */
  datatype Error =
    | Custom(custom: CustomError)
    | Plain(text: string)
    | Wrapped(text: string, inner: Error)

  /** Error(): a CustomError reports its message verbatim. */
  function ErrorText(e: Error): (r: string)
    ensures e.Custom? ==> r == e.custom.message
  {
    match e
    case Custom(c) => c.message
    case Plain(t) => t
    case Wrapped(t, _) => t
  }

  /** The error followed by everything reachable through Unwrap. */
  function Chain(e: Error): (r: seq<Error>)
    ensures |r| >= 1 && r[0] == e
  {
    match e
    case Wrapped(_, inner) => [e] + Chain(inner)
    case _ => [e]
  }

  /** errors.As for *CustomError: the first CustomError met while unwrapping. A CustomError has no Unwrap, so the walk stops there. */
  function AsCustom(e: Error): Option<CustomError>
  {
    match e
    case Custom(c) => Some(c)
    case Plain(_) => None
    case Wrapped(_, inner) => AsCustom(inner)
  }

  /** AsCustom returns the first CustomError of the chain, and None exactly when the chain has none. */
  lemma {:induction false} AsCustomFindsFirst(e: Error)
    ensures AsCustom(e).None? <==> forall k :: 0 <= k < |Chain(e)| ==> !Chain(e)[k].Custom?
    ensures AsCustom(e).Some? ==>
      exists k :: (0 <= k < |Chain(e)|
        && Chain(e)[k] == Custom(AsCustom(e).value)
        && forall j :: 0 <= j < k ==> !Chain(e)[j].Custom?)
  {
    match e
    case Custom(c) =>
      assert Chain(e)[0] == Custom(c);
    case Plain(_) =>
    case Wrapped(_, inner) =>
      AsCustomFindsFirst(inner);
      assert forall k :: 1 <= k < |Chain(e)| ==> Chain(e)[k] == Chain(inner)[k - 1];
      if AsCustom(inner).Some? {
        var k :| 0 <= k < |Chain(inner)|
          && Chain(inner)[k] == Custom(AsCustom(inner).value)
          && forall j :: 0 <= j < k ==> !Chain(inner)[j].Custom?;
        assert Chain(e)[k + 1] == Custom(AsCustom(e).value);
      }
  }

  // ---------------------------------------------------------------------------
  // New and Wrap
  // ---------------------------------------------------------------------------

  /** New: the given code, with the cause's text after ": " when there is a cause. */
  function New(code: ErrorCode, message: string, err: Option<Error>): (r: CustomError)
    ensures r.code == code
    ensures |r.message| >= |message| && r.message[..|message|] == message
    ensures r.message == message <==> err.None?
    ensures err.Some? ==> r.message == message + ": " + ErrorText(err.value)
    ensures err.None? ==> r.message == message
  {
    if err.Some? then CustomError(code, message + ": " + ErrorText(err.value))
    else CustomError(code, message)
  }

  /**
   * The code Wrap gives: the first optional code when it is present and not
   * empty, else the code of the first CustomError in the chain, else
   * InternalError.
   */
  function WrapCode(e: Error, codes: seq<ErrorCode>): (c: ErrorCode)
    ensures |codes| > 0 && codes[0] != "" ==> c == codes[0]
    ensures (|codes| == 0 || codes[0] == "") && AsCustom(e).Some? ==> c == AsCustom(e).value.code
    ensures (|codes| == 0 || codes[0] == "") && AsCustom(e).None? ==> c == InternalError
  {
    if |codes| > 0 && codes[0] != "" then codes[0]
    else match AsCustom(e)
      case Some(custom) => custom.code
      case None => InternalError
  }

  /** Wrap: nil stays nil; otherwise a fresh CustomError whose message ends with the wrapped error's text. */
  function Wrap(err: Option<Error>, message: string, codes: seq<ErrorCode>): (r: Option<Error>)
    ensures r.None? <==> err.None?
    ensures r.Some? ==> r.value.Custom? && r.value.custom.code == WrapCode(err.value, codes)
    ensures r.Some? ==> ErrorText(r.value) == message + ": " + ErrorText(err.value)
  {
    match err
    case None => None
    case Some(e) => Some(Custom(CustomError(WrapCode(e, codes), message + ": " + ErrorText(e))))
  }

  // ---------------------------------------------------------------------------
  // GetCode and HasCode
  // ---------------------------------------------------------------------------

  /** The code of the first CustomError in the chain, UnknownError when there is none or err is nil. */
  function GetCode(err: Option<Error>): (c: ErrorCode)
    ensures err.Some? && AsCustom(err.value).Some? ==> c == AsCustom(err.value).value.code
    ensures (err.None? || AsCustom(err.value).None?) ==> c == UnknownError
  {
    if err.Some? && AsCustom(err.value).Some? then AsCustom(err.value).value.code
    else UnknownError
  }

  function HasCode(err: Option<Error>, code: ErrorCode): (b: bool)
    ensures b <==> GetCode(err) == code
  {
    GetCode(err) == code
  }
}

/** What the coded errors promise across calls. */
module ErrorProperties {
  import opened Wrappers
  import opened Constants
  import opened Errors

  /** Wrapping nil gives nil, whatever the message and codes. */
  lemma WrapNil(message: string, codes: seq<ErrorCode>)
    ensures Wrap(None, message, codes) == None
    ensures GetCode(Wrap(None, message, codes)) == UnknownError
  {
  }

  /** A non-empty explicit code is the code of the result. */
  lemma ExplicitCodeWins(e: Error, message: string, codes: seq<ErrorCode>)
    requires |codes| > 0 && codes[0] != ""
    ensures GetCode(Wrap(Some(e), message, codes)) == codes[0]
  {
  }

  /** An explicit empty code, and every code after the first, are ignored. */
  lemma OnlyFirstNonEmptyCodeCounts(e: Error, message: string, c: ErrorCode, rest: seq<ErrorCode>)
    ensures Wrap(Some(e), message, [""] + rest) == Wrap(Some(e), message, [])
    ensures Wrap(Some(e), message, [c] + rest) == Wrap(Some(e), message, [c])
  {
  }

  /**
   * Without an explicit code, wrapping keeps the code GetCode already finds,
   * and turns an error with no CustomError in its chain into InternalError.
   */
  lemma WrapKeepsOrDefaultsCode(e: Error, message: string)
    ensures AsCustom(e).Some? ==> GetCode(Wrap(Some(e), message, [])) == GetCode(Some(e))
    ensures AsCustom(e).None? ==> GetCode(Wrap(Some(e), message, [])) == InternalError
  {
  }

  /** Wrapping a CustomError directly keeps its code. */
  lemma WrapCustomKeepsCode(c: CustomError, message: string)
    ensures GetCode(Wrap(Some(Custom(c)), message, [])) == c.code
  {
  }

  /** A CustomError anywhere down a chain of plain wrappers still decides the code. */
  lemma WrapSeesThroughWrappers(c: CustomError, t1: string, t2: string, message: string)
    ensures GetCode(Wrap(Some(Wrapped(t1, Wrapped(t2, Custom(c)))), message, [])) == c.code
  {
    assert AsCustom(Wrapped(t2, Custom(c))) == Some(c);
  }

  /** Once wrapped, wrapping again without a code changes nothing about the code. */
  lemma RewrapKeepsCode(e: Error, m1: string, m2: string, codes: seq<ErrorCode>)
    ensures GetCode(Wrap(Wrap(Some(e), m1, codes), m2, [])) == GetCode(Wrap(Some(e), m1, codes))
  {
  }

  /** Each wrap puts its message and ": " in front of the text so far. */
  lemma NestedMessages(e: Error, m1: string, m2: string, c1: seq<ErrorCode>, c2: seq<ErrorCode>)
    ensures ErrorText(Wrap(Wrap(Some(e), m1, c1), m2, c2).value) == m2 + ": " + m1 + ": " + ErrorText(e)
  {
  }

  /** The code New was given survives any wrap without an explicit code. */
  lemma NewCodeSurvivesWrap(code: ErrorCode, m: string, cause: Option<Error>, context: string)
    ensures GetCode(Wrap(Some(Custom(New(code, m, cause))), context, [])) == code
  {
  }

  /** InternalError and DatabaseError share "0500", so HasCode cannot tell them apart. */
  lemma InternalAndDatabaseIndistinguishable(err: Option<Error>)
    ensures HasCode(err, InternalError) <==> HasCode(err, DatabaseError)
  {
  }

  /**
   * A check against UnknownError ("0000") holds both for nil or an uncoded
   * chain and for a CustomError that carries "0000" itself, so it cannot tell
   * the two apart.
   */
  lemma UnknownCodeAmbiguous(err: Option<Error>, message: string)
    ensures err.None? || AsCustom(err.value).None? ==> HasCode(err, UnknownError)
    ensures HasCode(Some(Custom(CustomError(UnknownError, message))), UnknownError)
  {
  }

  /** An error with no CustomError in its chain has the unknown code, and wrapping it gives one that has not. */
  lemma PlainChainUnknown(e: Error, message: string)
    requires forall k :: 0 <= k < |Chain(e)| ==> !Chain(e)[k].Custom?
    ensures GetCode(Some(e)) == UnknownError
    ensures GetCode(Wrap(Some(e), message, [])) == InternalError
  {
    AsCustomFindsFirst(e);
  }
}
