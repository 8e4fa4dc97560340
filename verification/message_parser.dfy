/**
 The parser registry and dispatch of the message package
 (message/parser.go). The package-level map of the source is passed in and
 returned explicitly; a decoder is a pure function from the raw line to the
 pair Go returns, a possibly nil value and a possibly nil error.
 */
module MessageParser {
  import opened Wrappers
  import opened MessageErrors
  import opened MessageBase

  /** What `Parse` and every decoder return: Go's `(interface{}, error)` pair. */
  datatype Reply<V> = Reply(value: Option<V>, err: Option<ParseError>)

  type Decoder<V> = string -> Reply<V>

  /** Marker to decoder; keys are unique by construction of `map`. */
  type Registry<V> = map<string, Decoder<V>>

  /** The registry after a call to `Handle`, and the error that call returned. */
  datatype Registration<V> = Registration(registry: Registry<V>, err: Option<ParseError>)

  /**
   Registers `parser` for `typeName`. A name that already has a decoder is
   refused with `ParserExists` and the registry is left as it was.
   */
  function Handle<V>(reg: Registry<V>, typeName: string, parser: Decoder<V>): (r: Registration<V>)
    ensures r.err.Some? <==> typeName in reg
    ensures r.err.Some? ==> r.err.value == ParserExists(typeName)
    ensures r.registry.Keys == reg.Keys + {typeName}
    ensures forall k :: k in reg ==> r.registry[k] == reg[k]
    ensures typeName !in reg ==> r.registry[typeName] == parser
  {
    if typeName in reg then Registration(reg, Some(ParserExists(typeName)))
    else Registration(reg[typeName := parser], None)
  }

  /**
   Extracts the marker of `message`, looks it up and hands the whole line to
   its decoder. A malformed line fails before the lookup; a marker without a
   decoder fails with `ParserNotFound` whose `message` field stays empty.
   */
  function Parse<V>(reg: Registry<V>, message: string): (r: Reply<V>)
    ensures ExtractMessageType(message).Failure? ==> r == Reply(None, Some(InvalidFormat(message)))
    ensures ExtractMessageType(message).Success? && ExtractMessageType(message).value !in reg
        ==> r == Reply(None, Some(ParserNotFound(ExtractMessageType(message).value, "")))
    ensures ExtractMessageType(message).Success? && ExtractMessageType(message).value in reg
        ==> r == reg[ExtractMessageType(message).value](message)
  {
    match ExtractMessageType(message)
    case Failure(e) => Reply(None, Some(e))
    case Success(msgType) =>
      if msgType in reg then reg[msgType](message)
      else Reply(None, Some(ParserNotFound(msgType, "")))
  }

  /**
   Registering the same name twice leaves the registry the first call left:
   only the second call's error differs.
   */
  lemma HandleIdempotent<V>(reg: Registry<V>, typeName: string, first: Decoder<V>, second: Decoder<V>)
    ensures Handle(Handle(reg, typeName, first).registry, typeName, second).registry
         == Handle(reg, typeName, first).registry
    ensures Handle(Handle(reg, typeName, first).registry, typeName, second).err == Some(ParserExists(typeName))
  {
  }

  /** A malformed line gives the same `InvalidFormat` reply whatever is registered. */
  lemma ParseMalformedIgnoresRegistry<V>(reg1: Registry<V>, reg2: Registry<V>, message: string)
    requires ExtractMessageType(message).Failure?
    ensures Parse(reg1, message) == Parse(reg2, message) == Reply(None, Some(InvalidFormat(message)))
  {
  }

  /** Dispatch reads the registry at the line's marker only. */
  lemma ParseReadsOnlyMarker<V>(reg1: Registry<V>, reg2: Registry<V>, sender: string, marker: string, rest: string)
    requires '>' !in sender && ',' !in marker
    requires marker in reg1 <==> marker in reg2
    requires marker in reg1 ==> reg1[marker] == reg2[marker]
    ensures Parse(reg1, sender + ">" + marker + "," + rest) == Parse(reg2, sender + ">" + marker + "," + rest)
  {
    ExtractRoundTrip(sender, marker, rest);
  }

  /** A line `sender>marker,rest` with a registered marker is that decoder's reply to the whole line. */
  lemma ParseDispatches<V>(reg: Registry<V>, sender: string, marker: string, rest: string)
    requires '>' !in sender && ',' !in marker && marker in reg
    ensures Parse(reg, sender + ">" + marker + "," + rest) == reg[marker](sender + ">" + marker + "," + rest)
  {
    ExtractRoundTrip(sender, marker, rest);
  }

  /** A line whose marker has no decoder fails with `ParserNotFound` naming that marker. */
  lemma ParseNotFound<V>(reg: Registry<V>, sender: string, marker: string, rest: string)
    requires '>' !in sender && ',' !in marker && marker !in reg
    ensures Parse(reg, sender + ">" + marker + "," + rest) == Reply(None, Some(ParserNotFound(marker, "")))
  {
    ExtractRoundTrip(sender, marker, rest);
  }

  /**
   After a duplicate registration, dispatch still reaches the decoder that
   was registered first.
   */
  lemma FirstDecoderStays<V>(reg: Registry<V>, first: Decoder<V>, second: Decoder<V>,
                             sender: string, marker: string, rest: string)
    requires '>' !in sender && ',' !in marker && marker !in reg
    ensures var after := Handle(Handle(reg, marker, first).registry, marker, second).registry;
            Parse(after, sender + ">" + marker + "," + rest) == first(sender + ">" + marker + "," + rest)
  {
    var after := Handle(Handle(reg, marker, first).registry, marker, second).registry;
    ParseDispatches(after, sender, marker, rest);
  }

  /** A beacon line with the `APRS` marker goes to the decoder registered for `APRS`. */
  lemma ParseExample<V>(decoder: Decoder<V>)
    ensures Parse(Handle(map[], "APRS", decoder).registry, "FLRDD89C9>APRS,qAS:/074548h")
         == decoder("FLRDD89C9>APRS,qAS:/074548h")
  {
    ExampleLine();
    var reg: Registry<V> := Handle(map[], "APRS", decoder).registry;
    ParseDispatches(reg, "FLRDD89C9", "APRS", "qAS:/074548h");
  }

  /** With nothing registered, the same line is `ParserNotFound` for `APRS`. */
  lemma ParseExampleNotFound<V>()
    ensures Parse<V>(map[], "FLRDD89C9>APRS,qAS:/074548h") == Reply(None, Some(ParserNotFound("APRS", "")))
  {
    ExampleLine();
    ParseNotFound<V>(map[], "FLRDD89C9", "APRS", "qAS:/074548h");
  }

  /** The sample beacon line in its three pieces. */
  lemma ExampleLine()
    ensures "FLRDD89C9>APRS,qAS:/074548h" == "FLRDD89C9" + ">" + "APRS" + "," + "qAS:/074548h"
  {
  }
}
