/**
 The typed errors of the message package and their `Error()` texts
 (message/errors.go). A decoder registered by a caller may fail with errors
 of its own; the core treats those as opaque and carries them as
 `DecoderFailure`.
 */
module MessageErrors {

  datatype ParseError =
    | ParserNotFound(msgType: string, message: string)
    | ParserExists(msgType: string)
    | InvalidFormat(msg: string)
    | DecoderFailure(text: string)

  const NotFoundPrefix: string := "parser for message type "
  const NotFoundInfix: string := " not found: "
  const ExistsPrefix: string := "parser for message type "
  const ExistsSuffix: string := " already exists"
  const InvalidFormatPrefix: string := "cannot parse message: "

  /** `t` occurs in `s` as a contiguous substring. */
  ghost predicate Contains(s: string, t: string)
  {
    exists k :: 0 <= k <= |s| && t <= s[k..]
  }

  /** The text `Error()` produces for each kind, each field printed verbatim by `%s`. */
  function ErrorText(e: ParseError): (r: string)
    ensures e.ParserNotFound? ==>
      && |r| == |NotFoundPrefix| + |e.msgType| + |NotFoundInfix| + |e.message|
      && NotFoundPrefix <= r
      && r[|NotFoundPrefix|..|NotFoundPrefix| + |e.msgType|] == e.msgType
      && r[|NotFoundPrefix| + |e.msgType|..|r| - |e.message|] == NotFoundInfix
      && r[|r| - |e.message|..] == e.message
    ensures e.ParserExists? ==>
      && |r| == |ExistsPrefix| + |e.msgType| + |ExistsSuffix|
      && ExistsPrefix <= r
      && r[|ExistsPrefix|..|r| - |ExistsSuffix|] == e.msgType
      && r[|r| - |ExistsSuffix|..] == ExistsSuffix
    ensures e.InvalidFormat? ==> InvalidFormatPrefix <= r && r[|InvalidFormatPrefix|..] == e.msg
  {
    match e
    case ParserNotFound(t, m) => NotFoundPrefix + t + NotFoundInfix + m
    case ParserExists(t) => ExistsPrefix + t + ExistsSuffix
    case InvalidFormat(m) => InvalidFormatPrefix + m
    case DecoderFailure(text) => text
  }

  /** Every field an error carries appears verbatim in its text. */
  lemma ErrorTextContainsFields(e: ParseError)
    ensures e.ParserNotFound? ==> Contains(ErrorText(e), e.msgType) && Contains(ErrorText(e), e.message)
    ensures e.ParserExists? ==> Contains(ErrorText(e), e.msgType)
    ensures e.InvalidFormat? ==> Contains(ErrorText(e), e.msg)
  {
    var r := ErrorText(e);
    match e
    case ParserNotFound(t, m) =>
      assert t <= r[|NotFoundPrefix|..];
      assert m <= r[|r| - |m|..];
    case ParserExists(t) =>
      assert t <= r[|ExistsPrefix|..];
    case InvalidFormat(m) =>
      assert m <= r[|InvalidFormatPrefix|..];
    case DecoderFailure(_) =>
  }

  /** A malformed-message text never reads like a registry error: the two start differently. */
  lemma InvalidFormatTextIsDistinct(m: string, e: ParseError)
    requires e.ParserNotFound? || e.ParserExists?
    ensures ErrorText(InvalidFormat(m)) != ErrorText(e)
  {
    assert ErrorText(InvalidFormat(m))[0] == 'c';
    assert ErrorText(e)[0] == 'p';
  }

  /**
   The texts alone do not tell a duplicate registration from a missing
   parser: two different errors can print the same line.
   */
  lemma RegistryTextsCanCoincide()
    ensures exists t, u, m :: ErrorText(ParserExists(t)) == ErrorText(ParserNotFound(u, m))
  {
    // a type named " not found: " and a missing type "" whose line is " already exists"
    var t, u, m := NotFoundInfix, "", ExistsSuffix;
    assert NotFoundPrefix + u == ExistsPrefix;
    assert ErrorText(ParserExists(t)) == ErrorText(ParserNotFound(u, m));
  }
}
