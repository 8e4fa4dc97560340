/**
 The sequential decisions of the connection engine (aprs.go): the login
 handshake of `dial`, the bounded `reconnect` loop and the supervising loop
 of `Receive`. Sockets, reads, clocks and goroutines are replaced by their
 outcomes, given as inputs.
 */
module Connection {
  import opened Wrappers
  import opened Text
  import opened Endpoint
  import opened LoginResponse

  /** Dial attempts one call to `reconnect` makes at most. */
  const MaxReconnectRetries: nat := 6

  /**
   The errors the engine returns. The five sentinels are distinct values;
   `Io` stands for an error a socket operation returned, passed on unchanged.
   */
  datatype AprsError =
    | ReadTimeout
    | ReconnectFailed
    | ReadFailed
    | InvalidResponse
    | LoginFailed
    | Io(cause: string)

  /**
   The text of each error: the sentinels have fixed, non-empty texts,
   spelled as in the source; a socket error keeps its own text.
   */
  function ErrorText(e: AprsError): (r: string)
    ensures e.Io? ==> r == e.cause
    ensures !e.Io? ==> |r| > 0
  {
    match e
    case ReadTimeout => "read from APRS server timed out"
    case ReconnectFailed => "failed to reconnect to APRS server"
    case ReadFailed => "read from APRS server failed"
    case InvalidResponse => "received invalid resposne from APRS server"
    case LoginFailed => "login attempt failed"
    case Io(cause) => cause
  }

  /** The sentinel errors can be told apart by their texts alone. */
  lemma SentinelTextsDistinct(e1: AprsError, e2: AprsError)
    requires !e1.Io? && !e2.Io? && e1 != e2
    ensures ErrorText(e1) != ErrorText(e2)
  {
    assert |ErrorText(e1)| != |ErrorText(e2)|;
  }

  /**
   What the network does during one `dial`: the outcome of opening the
   connection, then of reading the greeting line and of reading the
   response line (`None` when the read failed).
   */
  datatype Handshake<C> = Handshake(connect: Result<C, string>, greeting: Option<string>, response: Option<string>)

  /** The status group of the response, when the response line matches the confirmation pattern. */
  function ResponseStatus(line: string): Option<string>
  {
    match UnpackResponse(line)
    case None => None
    case Some(g) => Some(g["status"])
  }

  /**
   The accept/reject logic of `dial`: a failed connect is returned as is, a
   failed read of either line is `ReadFailed`, a response that does not
   match the pattern is `InvalidResponse`, and with a real password any
   status but `verified` is `LoginFailed`. The greeting is read but never
   looked at.
   */
  function Dial<C>(settings: Settings, io: Handshake<C>): (r: Result<C, AprsError>)
    ensures io.connect.Failure? ==> r == Failure(Io(io.connect.error))
    ensures r == Failure(ReadFailed) <==> io.connect.Success? && (io.greeting.None? || io.response.None?)
    ensures r == Failure(InvalidResponse)
        <==> io.connect.Success? && io.greeting.Some? && io.response.Some? && UnpackResponse(io.response.value).None?
    ensures r == Failure(LoginFailed)
        <==> && io.connect.Success? && io.greeting.Some? && io.response.Some?
             && ResponseStatus(io.response.value).Some?
             && HasPassword(settings) && ResponseStatus(io.response.value).value != StatusVerified
    ensures r.Success? <==>
        && io.connect.Success? && io.greeting.Some? && io.response.Some?
        && ResponseStatus(io.response.value).Some?
        && (!HasPassword(settings) || ResponseStatus(io.response.value).value == StatusVerified)
    ensures r.Success? ==> r.value == io.connect.value
  {
    match io.connect
    case Failure(cause) => Failure(Io(cause))
    case Success(conn) =>
      if io.greeting.None? then Failure(ReadFailed)
      else if io.response.None? then Failure(ReadFailed)
      else
        match UnpackResponse(io.response.value)
        case None => Failure(InvalidResponse)
        case Some(data) =>
          if HasPassword(settings) && data["status"] != StatusVerified then Failure(LoginFailed)
          else Success(conn)
  }

  /** The greeting's content never changes the outcome of the handshake. */
  lemma DialIgnoresGreeting<C>(settings: Settings, conn: C, g1: string, g2: string, response: Option<string>)
    ensures Dial(settings, Handshake(Success(conn), Some(g1), response))
         == Dial(settings, Handshake(Success(conn), Some(g2), response))
  {
  }

  /** A confirmation line built from valid groups is recognised, with its own status. */
  lemma StatusOfRendered(c: Confirmation)
    requires ValidGroups(c)
    ensures ResponseStatus(Render(c)) == Some(c.status)
  {
    UnpackRendered(c, "");
    assert Render(c) + "" == Render(c);
  }

  /** With a real password, a confirmation reporting `unverified` is a failed login. */
  lemma DialRejectsUnverified<C>(settings: Settings, conn: C, greeting: string, c: Confirmation)
    requires HasPassword(settings)
    requires ValidGroups(c) && c.status == StatusUnverified
    ensures Dial(settings, Handshake(Success(conn), Some(greeting), Some(Render(c)))) == Failure(LoginFailed)
  {
    StatusOfRendered(c);
  }

  /** A confirmation reporting `verified` is a successful login, with or without a password. */
  lemma DialAcceptsVerified<C>(settings: Settings, conn: C, greeting: string, c: Confirmation)
    requires ValidGroups(c) && c.status == StatusVerified
    ensures Dial(settings, Handshake(Success(conn), Some(greeting), Some(Render(c)))) == Success(conn)
  {
    StatusOfRendered(c);
  }

  /** Without a password (empty or `-1`) either status is accepted. */
  lemma DialAnonymous<C>(settings: Settings, conn: C, greeting: string, c: Confirmation)
    requires !HasPassword(settings)
    requires ValidGroups(c)
    ensures Dial(settings, Handshake(Success(conn), Some(greeting), Some(Render(c)))) == Success(conn)
  {
    StatusOfRendered(c);
  }

  /**
   For a well-formed confirmation line, the password alone decides the
   login: it succeeds exactly when the password is empty or `-1`, or the
   server reports `verified`; otherwise it is `LoginFailed`.
   */
  lemma DialPasswordDecides<C>(settings: Settings, conn: C, greeting: string, c: Confirmation)
    requires ValidGroups(c)
    ensures Dial(settings, Handshake(Success(conn), Some(greeting), Some(Render(c)))).Success?
        <==> settings.password == "" || settings.password == "-1" || c.status == StatusVerified
    ensures Dial(settings, Handshake(Success(conn), Some(greeting), Some(Render(c))))
         == if settings.password == "" || settings.password == "-1" || c.status == StatusVerified
            then Success(conn) else Failure(LoginFailed)
  {
    StatusOfRendered(c);
  }

  /** The exchange of a typical session: any greeting, then `# logresp bob verified, server TEST`. */
  lemma DialExample<C>(conn: C, greeting: string)
    ensures Dial(Settings("bob", "secret", ""),
                 Handshake(Success(conn), Some(greeting), Some("# logresp bob verified, server TEST")))
         == Success(conn)
  {
    var c := Confirmation("bob", StatusVerified, "TEST");
    assert Render(c) == "# logresp bob verified, server TEST";
    assert IsWord("bob") && IsWord("TEST");
    DialAcceptsVerified(Settings("bob", "secret", ""), conn, greeting, c);
  }

  /**
   The reconnect loop: before attempt `i` (counting from 0) it sleeps `i`
   seconds, then dials; the first successful dial is returned at once, and
   after `MaxReconnectRetries` failures the result is `ReconnectFailed`.
   `dial(i)` is the outcome of attempt `i`; `sleeps` records the sleeps in
   seconds, one per attempt made.
   */
  method Reconnect<C>(dial: nat -> Result<C, AprsError>) returns (r: Result<C, AprsError>, sleeps: seq<nat>)
    ensures 1 <= |sleeps| <= MaxReconnectRetries
    ensures forall i :: 0 <= i < |sleeps| ==> sleeps[i] == i
    ensures forall i :: 0 <= i < |sleeps| - 1 ==> dial(i).Failure?
    ensures r.Success? ==> r == dial(|sleeps| - 1)
    ensures r.Failure? ==> r == Failure(ReconnectFailed) && |sleeps| == MaxReconnectRetries
    ensures r.Failure? <==> forall i :: 0 <= i < MaxReconnectRetries ==> dial(i).Failure?
  {
    sleeps := [];
    var i: nat := 0;
    while i < MaxReconnectRetries
      invariant i <= MaxReconnectRetries
      invariant |sleeps| == i
      invariant forall j :: 0 <= j < i ==> sleeps[j] == j
      invariant forall j :: 0 <= j < i ==> dial(j).Failure?
    {
      sleeps := sleeps + [i];
      var outcome := dial(i);
      if outcome.Success? {
        return outcome, sleeps;
      }
      i := i + 1;
    }
    return Failure(ReconnectFailed), sleeps;
  }

  /** The sleeps of one reconnect episode grow strictly and add up to at most 15 seconds. */
  lemma ReconnectSleepsIncrease(sleeps: seq<nat>)
    requires |sleeps| <= MaxReconnectRetries
    requires forall i :: 0 <= i < |sleeps| ==> sleeps[i] == i
    ensures forall i, j :: 0 <= i < j < |sleeps| ==> sleeps[i] < sleeps[j]
    ensures Total(sleeps) <= 15
  {
    TotalOfIndices(sleeps);
  }

  function Total(s: seq<nat>): nat
  {
    if |s| == 0 then 0 else Total(s[..|s| - 1]) + s[|s| - 1]
  }

  lemma {:induction false} TotalOfIndices(s: seq<nat>)
    requires forall i :: 0 <= i < |s| ==> s[i] == i
    ensures 2 * Total(s) == |s| * (|s| - 1)
  {
    if |s| > 0 {
      TotalOfIndices(s[..|s| - 1]);
    }
  }

  /**
   One streaming session of `Receive`: the error `receiveInConnection`
   returned (`None` for nil, which it returns when the caller's context is
   done) and whether the context was done when checked right after.
   */
  datatype Session = Session(err: Option<AprsError>, cancelled: bool)

  /** A session followed by the reconnect that comes after it, if the loop gets that far. */
  datatype Episode<C> = Episode(session: Session, reconnect: Result<C, AprsError>)

  /** What a call to `Receive` has done after the given episodes: returned an error (nil included), or still looping. */
  datatype Outcome = Returned(err: Option<AprsError>) | Running

  /**
   `Receive` as written. The loop body declares its own `err`, so the
   result of `reconnect` is assigned to that inner variable and the loop
   condition, which reads the outer one, never sees a reconnect failure:
   the loop goes on, with a nil connection.
   */
  function ReceiveAsWritten<C>(withReconnect: bool, first: Result<C, AprsError>, episodes: seq<Episode<C>>): (r: Outcome)
    ensures first.Failure? ==> r == Returned(Some(first.error))
    ensures first.Success? && !withReconnect && |episodes| > 0 ==> r == Returned(episodes[0].session.err)
    ensures r == Running
        <==> first.Success? && (|episodes| == 0 || (withReconnect && forall i :: 0 <= i < |episodes| ==> !episodes[i].session.cancelled))
    ensures first.Success? && r.Returned? ==> exists i :: 0 <= i < |episodes| && r.err == episodes[i].session.err
    ensures first.Success? && withReconnect && r.Returned? ==>
      exists k :: 0 <= k < |episodes| && FirstCancelled(episodes, k) && r.err == episodes[k].session.err
  {
    if first.Failure? then Returned(Some(first.error))
    else LoopAsWritten(withReconnect, episodes)
  }

  /** Session `k` is the first one after which the context was done. */
  predicate FirstCancelled<C>(episodes: seq<Episode<C>>, k: nat)
    requires k < |episodes|
  {
    episodes[k].session.cancelled && forall i :: 0 <= i < k ==> !episodes[i].session.cancelled
  }

  /** The loop of `ReceiveAsWritten`: only a session's own result can end it. */
  function LoopAsWritten<C>(withReconnect: bool, episodes: seq<Episode<C>>): (r: Outcome)
    ensures r == Running
        <==> |episodes| == 0 || (withReconnect && forall i :: 0 <= i < |episodes| ==> !episodes[i].session.cancelled)
    ensures r.Returned? ==> exists i :: 0 <= i < |episodes| && r.err == episodes[i].session.err
    ensures withReconnect && r.Returned? ==> exists k :: 0 <= k < |episodes| && FirstCancelled(episodes, k) && r.err == episodes[k].session.err
  {
    if |episodes| == 0 then Running
    else
      var session := episodes[0].session;
      if session.cancelled || !withReconnect then Returned(session.err)
      else LoopAsWritten(withReconnect, episodes[1..])
  }

  /**
   As written, `Receive` with reconnection enabled never returns
   `ReconnectFailed`, however many reconnects fail, as long as no session
   itself reports it.
   */
  lemma {:induction false} AsWrittenIgnoresReconnectFailure<C>(first: Result<C, AprsError>, episodes: seq<Episode<C>>)
    requires forall i :: 0 <= i < |episodes| ==> episodes[i].session.err != Some(ReconnectFailed)
    ensures ReceiveAsWritten(true, first, episodes) != Returned(Some(ReconnectFailed)) || first == Failure(ReconnectFailed)
  {
    if first.Success? {
      LoopAsWrittenIgnoresReconnect(episodes);
    }
  }

  lemma {:induction false} LoopAsWrittenIgnoresReconnect<C>(episodes: seq<Episode<C>>)
    requires forall i :: 0 <= i < |episodes| ==> episodes[i].session.err != Some(ReconnectFailed)
    ensures LoopAsWritten(true, episodes) != Returned(Some(ReconnectFailed))
  {
    if |episodes| > 0 && !episodes[0].session.cancelled {
      LoopAsWrittenIgnoresReconnect(episodes[1..]);
    }
  }

  /** The concrete run: a read timeout, then a reconnect that exhausts its attempts, and `Receive` keeps going. */
  lemma AsWrittenExhaustedReconnectContinues<C>(conn: C)
    ensures ReceiveAsWritten(true, Success(conn),
                             [Episode(Session(Some(ReadTimeout), false), Failure(ReconnectFailed))])
         == Running
  {
  }

  /** After this episode the corrected loop goes on: the session was not cancelled and the reconnect succeeded. */
  predicate Continues<C>(e: Episode<C>)
  {
    !e.session.cancelled && e.reconnect.Success?
  }

  /** `err` is what this episode can end the corrected loop with: the session's result or the reconnect's error. */
  predicate EndedBy<C>(e: Episode<C>, err: Option<AprsError>)
  {
    err == e.session.err || (e.reconnect.Failure? && err == Some(e.reconnect.error))
  }

  /** Episode `k` is the first one after which the corrected loop does not go on. */
  predicate FirstStop<C>(episodes: seq<Episode<C>>, k: nat)
    requires k < |episodes|
  {
    !Continues(episodes[k]) && forall i :: 0 <= i < k ==> Continues(episodes[i])
  }

  /**
   What a stopping episode ends the corrected loop with: the session's own
   result when the context was done, else the failed reconnect's error.
   */
  predicate EndsWith<C>(e: Episode<C>, err: Option<AprsError>)
  {
    if e.session.cancelled then err == e.session.err
    else e.reconnect.Failure? && err == Some(e.reconnect.error)
  }

  /** `Receive` corrected: the reconnect error is assigned to the variable the loop condition reads. */
  function ReceiveCorrected<C>(withReconnect: bool, first: Result<C, AprsError>, episodes: seq<Episode<C>>): (r: Outcome)
    ensures first.Failure? ==> r == Returned(Some(first.error))
    ensures first.Success? && !withReconnect && |episodes| > 0 ==> r == Returned(episodes[0].session.err)
    ensures r == Running
        <==> first.Success? && (|episodes| == 0 || (withReconnect && forall i :: 0 <= i < |episodes| ==> Continues(episodes[i])))
    ensures first.Success? && r.Returned? ==> exists i :: 0 <= i < |episodes| && EndedBy(episodes[i], r.err)
    ensures first.Success? && withReconnect && r.Returned? ==>
      exists k :: 0 <= k < |episodes| && FirstStop(episodes, k) && EndsWith(episodes[k], r.err)
  {
    if first.Failure? then Returned(Some(first.error))
    else LoopCorrected(withReconnect, episodes)
  }

  /** The loop of `ReceiveCorrected`: a session's result or a failed reconnect ends it. */
  function LoopCorrected<C>(withReconnect: bool, episodes: seq<Episode<C>>): (r: Outcome)
    ensures r == Running
        <==> |episodes| == 0 || (withReconnect && forall i :: 0 <= i < |episodes| ==> Continues(episodes[i]))
    ensures r.Returned? ==> exists i :: 0 <= i < |episodes| && EndedBy(episodes[i], r.err)
    ensures withReconnect && r.Returned? ==> exists k :: 0 <= k < |episodes| && FirstStop(episodes, k) && EndsWith(episodes[k], r.err)
  {
    if |episodes| == 0 then Running
    else
      var e := episodes[0];
      if e.session.cancelled || !withReconnect then Returned(e.session.err)
      else if e.reconnect.Failure? then Returned(Some(e.reconnect.error))
      else LoopCorrected(withReconnect, episodes[1..])
  }

  /**
   With reconnection enabled and no cancellation, `ReceiveCorrected` returns the
   error of the first failed reconnect, after exactly the sessions that
   preceded it; while every reconnect succeeds it keeps streaming.
   */
  lemma {:induction false} ReceiveSurfacesReconnectFailure<C>(conn: C, episodes: seq<Episode<C>>, k: nat)
    requires k < |episodes|
    requires forall i :: 0 <= i <= k ==> !episodes[i].session.cancelled
    requires forall i :: 0 <= i < k ==> episodes[i].reconnect.Success?
    requires episodes[k].reconnect.Failure?
    ensures ReceiveCorrected(true, Success(conn), episodes) == Returned(Some(episodes[k].reconnect.error))
  {
    LoopReachesFailure(episodes, k);
  }

  lemma {:induction false} LoopReachesFailure<C>(episodes: seq<Episode<C>>, k: nat)
    requires k < |episodes|
    requires forall i :: 0 <= i <= k ==> !episodes[i].session.cancelled
    requires forall i :: 0 <= i < k ==> episodes[i].reconnect.Success?
    requires episodes[k].reconnect.Failure?
    ensures LoopCorrected(true, episodes) == Returned(Some(episodes[k].reconnect.error))
  {
    if k > 0 {
      assert !episodes[0].session.cancelled && episodes[0].reconnect.Success?;
      LoopReachesFailure(episodes[1..], k - 1);
    }
  }

  /** The same run as above: `ReceiveCorrected` reports the exhausted reconnect. */
  lemma ReceiveExhaustedReconnectReturns<C>(conn: C)
    ensures ReceiveCorrected(true, Success(conn),
                    [Episode(Session(Some(ReadTimeout), false), Failure(ReconnectFailed))])
         == Returned(Some(ReconnectFailed))
  {
  }

  /**
   Cancellation ends both versions with the result of the first session
   after which the context was done, nil included, before any later
   session: without reconnection that is the first session, with
   reconnection the first cancelled one, provided every earlier episode
   let the loop go on.
   */
  lemma ReceiveCancelled<C>(withReconnect: bool, conn: C, episodes: seq<Episode<C>>, k: nat)
    requires k < |episodes| && episodes[k].session.cancelled
    requires k == 0 || withReconnect
    requires forall i :: 0 <= i < k ==> Continues(episodes[i])
    ensures ReceiveCorrected(withReconnect, Success(conn), episodes) == Returned(episodes[k].session.err)
    ensures ReceiveAsWritten(withReconnect, Success(conn), episodes) == Returned(episodes[k].session.err)
  {
    if k > 0 {
      LoopCorrectedCancelledAt(episodes, k);
      LoopAsWrittenCancelledAt(episodes, k);
    }
  }

  lemma {:induction false} LoopCorrectedCancelledAt<C>(episodes: seq<Episode<C>>, k: nat)
    requires k < |episodes| && episodes[k].session.cancelled
    requires forall i :: 0 <= i < k ==> Continues(episodes[i])
    ensures LoopCorrected(true, episodes) == Returned(episodes[k].session.err)
  {
    if k > 0 {
      assert Continues(episodes[0]);
      LoopCorrectedCancelledAt(episodes[1..], k - 1);
    }
  }

  /** As written only the sessions matter: the reconnects before `k` may fail. */
  lemma {:induction false} LoopAsWrittenCancelledAt<C>(episodes: seq<Episode<C>>, k: nat)
    requires k < |episodes| && episodes[k].session.cancelled
    requires forall i :: 0 <= i < k ==> !episodes[i].session.cancelled
    ensures LoopAsWritten(true, episodes) == Returned(episodes[k].session.err)
  {
    if k > 0 {
      assert !episodes[0].session.cancelled;
      LoopAsWrittenCancelledAt(episodes[1..], k - 1);
    }
  }
}
