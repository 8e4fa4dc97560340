/**
 Extraction of the type marker from a raw APRS line of the shape
 `sender>marker,rest` (message/base.go).
 */
module MessageBase {
  import opened Wrappers
  import opened Text
  import opened MessageErrors

  /**
   `message` is `sender`, the first `>`, `marker`, the first `,` after that
   `>`, and `rest`.
   */
  ghost predicate SplitsAs(message: string, sender: string, marker: string, rest: string)
  {
    && message == sender + ">" + marker + "," + rest
    && '>' !in sender
    && ',' !in marker
  }

  /**
   The marker between the first `>` and the first `,` at or after it; a line
   missing either separator is an `InvalidFormat` error carrying the whole line.
   */
  function ExtractMessageType(message: string): (r: Result<string, ParseError>)
    ensures r.Failure? ==> r.error == InvalidFormat(message)
    ensures r.Failure? <==> '>' !in message || ',' !in message[IndexOf(message, '>').value..]
    ensures r.Success? ==> ',' !in r.value && |r.value| + 2 <= |message|
  {
    match IndexOf(message, '>')
    case None => Failure(InvalidFormat(message))
    case Some(start) =>
      match MarkerAfter(message[start..])
      case None => Failure(InvalidFormat(message))
      case Some(marker) => Success(marker)
  }

  /** The text after the leading `>` of `tail` up to the first `,`, if there is one. */
  function MarkerAfter(tail: string): (r: Option<string>)
    requires |tail| > 0 && tail[0] == '>'
    ensures r.None? <==> ',' !in tail
    ensures r.Some? ==> ',' !in r.value && |r.value| + 2 <= |tail|
  {
    match IndexOf(tail, ',')
    case None => None
    case Some(end) =>
      IndexOfFirst(tail, ',');
      NotInSlice(tail, ',', 1, end);
      Some(tail[1..end])
  }

  /** Extraction in terms of the two separator positions it finds. */
  lemma ExtractAt(message: string, start: nat, end: nat)
    requires IndexOf(message, '>') == Some(start)
    requires start <= |message| && IndexOf(message[start..], ',') == Some(end)
    ensures 1 <= end && start + end < |message|
    ensures ExtractMessageType(message) == Success(message[start + 1..start + end])
  {
    var tail := message[start..];
    MarkerAfterAt(tail, end);
    SliceOfSlice(message, start, 1, end);
  }

  /** `MarkerAfter` in terms of the position of the first comma. */
  lemma MarkerAfterAt(tail: string, end: nat)
    requires |tail| > 0 && tail[0] == '>'
    requires IndexOf(tail, ',') == Some(end)
    ensures 1 <= end < |tail|
    ensures MarkerAfter(tail) == Some(tail[1..end])
  {
  }

  /** A line cut at two separator positions reassembles from its three pieces. */
  lemma Reassemble(message: string, start: nat, end: nat)
    requires 1 <= end && start + end < |message|
    requires message[start] == '>' && message[start + end] == ','
    ensures message == message[..start] + ">" + message[start + 1..start + end] + "," + message[start + end + 1..]
  {
  }

  /** The pieces around the first `>` and the first `,` after it satisfy `SplitsAs`. */
  lemma SplitAtSeparators(message: string, start: nat, end: nat)
    requires 1 <= end && start + end < |message|
    requires message[start] == '>' && message[start + end] == ','
    requires forall i :: 0 <= i < start ==> message[i] != '>'
    requires forall i :: start < i < start + end ==> message[i] != ','
    ensures SplitsAs(message, message[..start], message[start + 1..start + end], message[start + end + 1..])
  {
    Reassemble(message, start, end);
    NotInPrefix(message, '>', start);
    NotInSlice(message, ',', start + 1, start + end);
  }

  /** The `,`-free stretch after the `>` at `start`, in positions of the whole line. */
  lemma CommaFreeAfter(message: string, start: nat, end: nat)
    requires start + end <= |message|
    requires forall i :: 0 <= i < end ==> message[start..][i] != ','
    ensures forall i :: start < i < start + end ==> message[i] != ','
  {
    forall i | start < i < start + end
      ensures message[i] != ','
    {
      assert message[start..][i - start] == message[i];
    }
  }

  /** A successful extraction exhibits the decomposition `sender>marker,rest` of the line. */
  lemma ExtractDecomposes(message: string) returns (sender: string, rest: string)
    requires ExtractMessageType(message).Success?
    ensures SplitsAs(message, sender, ExtractMessageType(message).value, rest)
  {
    var start := IndexOf(message, '>').value;
    var end := IndexOf(message[start..], ',').value;
    ExtractAt(message, start, end);
    IndexOfFirst(message, '>');
    IndexOfFirst(message[start..], ',');
    assert message[start..][end] == message[start + end];
    CommaFreeAfter(message, start, end);
    SplitAtSeparators(message, start, end);
    sender, rest := message[..start], message[start + end + 1..];
  }

  /** The first `>` of `sender>marker,rest` is the one right after `sender`. */
  lemma MarkerStart(message: string, sender: string, marker: string, rest: string)
    requires message == sender + ">" + marker + "," + rest && '>' !in sender
    ensures IndexOf(message, '>') == Some(|sender|)
  {
    var after := marker + "," + rest;
    assert message == sender + ['>'] + after;
    IndexOfAfter(sender, '>', after);
  }

  /** Counted from that `>`, the first `,` is the one right after `marker`. */
  lemma MarkerEnd(message: string, sender: string, marker: string, rest: string)
    requires message == sender + ">" + marker + "," + rest && ',' !in marker
    ensures |sender| <= |message|
    ensures IndexOf(message[|sender|..], ',') == Some(|marker| + 1)
  {
    var head := ">" + marker;
    assert ',' !in head;
    assert message[|sender|..] == head + [','] + rest;
    IndexOfAfter(head, ',', rest);
  }

  /** Between the two separators lies `marker`. */
  lemma MarkerSlice(message: string, sender: string, marker: string, rest: string)
    requires message == sender + ">" + marker + "," + rest
    ensures message[|sender| + 1..|sender| + (|marker| + 1)] == marker
  {
  }

  /** Round trip: the marker of `sender>marker,rest` is `marker`, whatever `rest` holds. */
  lemma ExtractRoundTrip(sender: string, marker: string, rest: string)
    requires '>' !in sender && ',' !in marker
    ensures ExtractMessageType(sender + ">" + marker + "," + rest) == Success(marker)
  {
    ExtractOfPieces(sender + ">" + marker + "," + rest, sender, marker, rest);
  }

  /** The round trip, stated for a line given together with its pieces. */
  lemma ExtractOfPieces(message: string, sender: string, marker: string, rest: string)
    requires message == sender + ">" + marker + "," + rest
    requires '>' !in sender && ',' !in marker
    ensures ExtractMessageType(message) == Success(marker)
  {
    Markers(message, sender, marker, rest);
    ExtractIs(message, |sender|, |marker| + 1, marker);
  }

  /** Where the separators of `sender>marker,rest` sit, and what lies between them. */
  lemma Markers(message: string, sender: string, marker: string, rest: string)
    requires message == sender + ">" + marker + "," + rest
    requires '>' !in sender && ',' !in marker
    ensures IndexOf(message, '>') == Some(|sender|)
    ensures |sender| <= |message| && IndexOf(message[|sender|..], ',') == Some(|marker| + 1)
    ensures |sender| + 1 <= |sender| + (|marker| + 1) <= |message|
    ensures message[|sender| + 1..|sender| + (|marker| + 1)] == marker
  {
    MarkerStart(message, sender, marker, rest);
    MarkerEnd(message, sender, marker, rest);
    MarkerSlice(message, sender, marker, rest);
  }

  /** Extraction yields `marker` once the separator positions and the slice between them are known. */
  lemma ExtractIs(message: string, start: nat, end: nat, marker: string)
    requires IndexOf(message, '>') == Some(start)
    requires start <= |message| && IndexOf(message[start..], ',') == Some(end)
    requires start + 1 <= start + end <= |message| && message[start + 1..start + end] == marker
    ensures ExtractMessageType(message) == Success(marker)
  {
    ExtractAt(message, start, end);
  }

  /** Extraction succeeds with `marker` exactly when the line decomposes around it. */
  lemma ExtractCharacterization(message: string, marker: string)
    ensures ExtractMessageType(message) == Success(marker)
        <==> exists sender, rest :: SplitsAs(message, sender, marker, rest)
  {
    if ExtractMessageType(message) == Success(marker) {
      var sender, rest := ExtractDecomposes(message);
      assert SplitsAs(message, sender, marker, rest);
    }
    if exists sender, rest :: SplitsAs(message, sender, marker, rest) {
      var sender, rest :| SplitsAs(message, sender, marker, rest);
      ExtractRoundTrip(sender, marker, rest);
    }
  }

  /**
   A line with a `>` but no `,` after its first `>` is malformed, even when
   `,` appears before the `>`.
   */
  lemma ExtractNoCommaAfterArrow(sender: string, tail: string)
    requires '>' !in sender && ',' !in tail
    ensures ExtractMessageType(sender + ">" + tail) == Failure(InvalidFormat(sender + ">" + tail))
  {
    var message := sender + ">" + tail;
    assert message == sender + ['>'] + tail;
    IndexOfAfter(sender, '>', tail);
    assert message[|sender|..] == ">" + tail;
    assert ',' !in ">" + tail;
    assert IndexOf(message[|sender|..], ',') == None;
  }

  /** The marker does not depend on what follows its terminating comma. */
  lemma ExtractIgnoresRest(sender: string, marker: string, rest1: string, rest2: string)
    requires '>' !in sender && ',' !in marker
    ensures ExtractMessageType(sender + ">" + marker + "," + rest1)
         == ExtractMessageType(sender + ">" + marker + "," + rest2)
  {
    ExtractRoundTrip(sender, marker, rest1);
    ExtractRoundTrip(sender, marker, rest2);
  }

  /** A comma right after the first `>` yields the empty marker, not an error. */
  lemma ExtractEmptyMarker(sender: string, rest: string)
    requires '>' !in sender
    ensures ExtractMessageType(sender + ">," + rest) == Success("")
  {
    assert sender + ">," + rest == sender + ">" + "" + "," + rest;
    ExtractRoundTrip(sender, "", rest);
  }

  /** The lines the repository's tests exercise. */
  lemma ExtractExampleType()
    ensures ExtractMessageType("FLRDD89C9>TYPE,qAS") == Success("TYPE")
  {
    var sender, marker, rest := "FLRDD89C9", "TYPE", "qAS";
    assert "FLRDD89C9>TYPE,qAS" == sender + ">" + marker + "," + rest;
    ExtractRoundTrip(sender, marker, rest);
  }

  lemma ExtractExampleMissingEnd()
    ensures ExtractMessageType("FLRDD89C9>TYPEqAS").Failure?
  {
    var sender, tail := "FLRDD89C9", "TYPEqAS";
    assert "FLRDD89C9>TYPEqAS" == sender + ">" + tail;
    ExtractNoCommaAfterArrow(sender, tail);
  }

  lemma ExtractExampleMissingStart()
    ensures ExtractMessageType("FLRDD89C9TYPE,qAS").Failure?
  {
    assert '>' !in "FLRDD89C9TYPE,qAS";
  }
}
