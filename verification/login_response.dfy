/**
 The login confirmation the server sends after the login line, recognised
 by the fixed pattern
   # logresp (?P<user>\w+) (?P<status>(verified)|(unverified)), server (?P<server>\w+)
 searched for anywhere in the line, and the map of named groups
 `unpackResponse` builds from the match (aprs.go). Only this one pattern is
 modelled, by hand, with the leftmost-first, greedy choice Go's regexp
 package makes.
 */
module LoginResponse {
  import opened Wrappers
  import opened Text

  const StatusVerified: string := "verified"
  const StatusUnverified: string := "unverified"
  const LogrespPrefix: string := "# logresp "
  const ServerInfix: string := ", server "

  /** The three named groups of a match. */
  datatype Confirmation = Confirmation(user: string, status: string, server: string)

  /** Groups the pattern can capture: two non-empty `\w` runs and one of the two statuses. */
  predicate ValidGroups(c: Confirmation)
  {
    && |c.user| > 0 && IsWord(c.user)
    && (c.status == StatusVerified || c.status == StatusUnverified)
    && |c.server| > 0 && IsWord(c.server)
  }

  /** The text a match with groups `c` spans. */
  function Render(c: Confirmation): string
  {
    LogrespPrefix + c.user + " " + c.status + ServerInfix + c.server
  }

  /**
   Reference definition: the match that starts at the beginning of `s` has
   groups `c`. The server group is greedy, so it ends where the `\w` run
   ends; the user group is followed by a space and so is a whole `\w` run.
   */
  ghost predicate MatchesPrefix(s: string, c: Confirmation)
  {
    && ValidGroups(c)
    && Render(c) <= s
    && (|s| == |Render(c)| || !IsWordChar(s[|Render(c)|]))
  }

  /** The text after `lit` when `s` starts with it. */
  function AfterLiteral(s: string, lit: string): (r: Option<string>)
    ensures r.Some? <==> lit <= s
    ensures r.Some? ==> s == lit + r.value
  {
    if lit <= s then Some(s[|lit|..]) else None
  }

  lemma AfterLiteralOf(lit: string, rest: string)
    ensures AfterLiteral(lit + rest, lit) == Some(rest)
  {
    assert (lit + rest)[|lit|..] == rest;
  }

  /** The greedy `\w*` at the front of `t`, and what follows it. */
  function SplitWord(t: string): (r: (string, string))
    ensures t == r.0 + r.1 && IsWord(r.0)
    ensures |r.1| == 0 || !IsWordChar(r.1[0])
  {
    var n := WordRun(t);
    assert t == t[..n] + t[n..];
    (t[..n], t[n..])
  }

  lemma SplitWordOf(w: string, rest: string)
    requires IsWord(w)
    requires |rest| == 0 || !IsWordChar(rest[0])
    ensures SplitWord(w + rest) == (w, rest)
  {
    WordRunOf(w, rest);
    assert (w + rest)[..|w|] == w && (w + rest)[|w|..] == rest;
  }

  /** The status alternative, tried in the pattern's order, and the text after `, server `. */
  function ReadStatus(u: string): (r: Option<(string, string)>)
    ensures r.Some? ==> r.value.0 == StatusVerified || r.value.0 == StatusUnverified
    ensures r.Some? ==> u == r.value.0 + ServerInfix + r.value.1
  {
    match AfterLiteral(u, StatusVerified + ServerInfix)
    case Some(v) => Some((StatusVerified, v))
    case None =>
      match AfterLiteral(u, StatusUnverified + ServerInfix)
      case Some(v) => Some((StatusUnverified, v))
      case None => None
  }

  lemma ReadStatusOf(status: string, v: string)
    requires status == StatusVerified || status == StatusUnverified
    ensures ReadStatus(status + ServerInfix + v) == Some((status, v))
  {
    var u := status + ServerInfix + v;
    assert u == (status + ServerInfix) + v;
    AfterLiteralOf(status + ServerInfix, v);
    if status == StatusUnverified {
      assert u[0] == 'u';
      assert !(StatusVerified + ServerInfix <= u);
    }
  }

  /** The match of the pattern that starts at the beginning of `s`, if there is one. */
  function MatchPrefix(s: string): Option<Confirmation>
  {
    match AfterLiteral(s, LogrespPrefix)
    case None => None
    case Some(t) =>
      var (user, afterUser) := SplitWord(t);
      if |user| == 0 then None else
      match AfterLiteral(afterUser, " ")
      case None => None
      case Some(u) =>
        match ReadStatus(u)
        case None => None
        case Some((status, v)) =>
          var (server, w) := SplitWord(v);
          if |server| == 0 then None else Some(Confirmation(user, status, server))
  }

  /** `Render(c)` followed by `w`, regrouped as the pieces `MatchPrefix` peels off. */
  lemma RenderShape(c: Confirmation, w: string)
    ensures Render(c) + w == LogrespPrefix + (c.user + (" " + (c.status + ServerInfix + (c.server + w))))
  {
  }

  /** Whatever `MatchPrefix` finds is a match in the sense of `MatchesPrefix`. */
  lemma MatchPrefixSound(s: string)
    requires MatchPrefix(s).Some?
    ensures MatchesPrefix(s, MatchPrefix(s).value)
  {
    var t := AfterLiteral(s, LogrespPrefix).value;
    var (user, afterUser) := SplitWord(t);
    var u := AfterLiteral(afterUser, " ").value;
    var (status, v) := ReadStatus(u).value;
    var (server, w) := SplitWord(v);
    var c := Confirmation(user, status, server);
    assert MatchPrefix(s) == Some(c);
    RenderShape(c, w);
    assert s == Render(c) + w;
    assert s[|Render(c)|..] == w;
  }

  /** A match in the sense of `MatchesPrefix` is what `MatchPrefix` finds. */
  lemma MatchPrefixComplete(s: string, c: Confirmation)
    requires MatchesPrefix(s, c)
    ensures MatchPrefix(s) == Some(c)
  {
    var w := s[|Render(c)|..];
    assert s == Render(c) + w;
    RenderShape(c, w);
    var v := c.server + w;
    var u := c.status + ServerInfix + v;
    var t := c.user + (" " + u);
    AfterLiteralOf(LogrespPrefix, t);
    SplitWordOf(c.user, " " + u);
    AfterLiteralOf(" ", u);
    ReadStatusOf(c.status, v);
    SplitWordOf(c.server, w);
    MatchPrefixSteps(s, c, t, u, v, w);
  }

  /** `MatchPrefix` in terms of the results of its five steps. */
  lemma MatchPrefixSteps(s: string, c: Confirmation, t: string, u: string, v: string, w: string)
    requires AfterLiteral(s, LogrespPrefix) == Some(t)
    requires SplitWord(t) == (c.user, " " + u) && |c.user| > 0
    requires AfterLiteral(" " + u, " ") == Some(u)
    requires ReadStatus(u) == Some((c.status, v))
    requires SplitWord(v) == (c.server, w) && |c.server| > 0
    ensures MatchPrefix(s) == Some(c)
  {
  }

  /** `MatchPrefix` agrees with the reference definition in both directions. */
  lemma MatchPrefixIff(s: string, c: Confirmation)
    ensures MatchPrefix(s) == Some(c) <==> MatchesPrefix(s, c)
  {
    if MatchPrefix(s) == Some(c) {
      MatchPrefixSound(s);
    }
    if MatchesPrefix(s, c) {
      MatchPrefixComplete(s, c);
    }
  }

  /**
   The search Go's `FindStringSubmatch` performs: the first start position,
   from `p` on, at which `matchAt` finds a match.
   */
  function FindFrom<T>(line: string, p: nat, matchAt: string -> Option<T>): (r: Option<(nat, T)>)
    requires p <= |line|
    ensures r.None? <==> forall q :: p <= q <= |line| ==> matchAt(line[q..]).None?
    ensures r.Some? ==>
      && p <= r.value.0 <= |line|
      && matchAt(line[r.value.0..]) == Some(r.value.1)
      && forall q :: p <= q < r.value.0 ==> matchAt(line[q..]).None?
    decreases |line| - p
  {
    match matchAt(line[p..])
    case Some(c) => Some((p, c))
    case None => if p == |line| then None else FindFrom(line, p + 1, matchAt)
  }

  /** Sub-expression names of the pattern in order: the whole match, then every group, the two alternatives unnamed. */
  const SubexpNames: seq<string> := ["", "user", "status", "", "", "server"]

  /** What `FindStringSubmatch` returns for a match with groups `c`; a group that took no part is "". */
  function Submatches(c: Confirmation): seq<string>
  {
    [Render(c), c.user, c.status,
     if c.status == StatusVerified then StatusVerified else "",
     if c.status == StatusUnverified then StatusUnverified else "",
     c.server]
  }

  /**
   The loop `result[group] = matches[i]` after its first `k` rounds, names
   taken in order: a later name overwrites an earlier one.
   */
  function Collect(names: seq<string>, values: seq<string>, k: nat): map<string, string>
    requires |names| == |values| && k <= |names|
  {
    if k == 0 then map[]
    else Collect(names, values, k - 1)[names[k - 1] := values[k - 1]]
  }

  /** The four keys the loop leaves, with "" holding the last unnamed submatch. */
  lemma CollectGroups(a: string, b: string, c: string, d: string, e: string, f: string)
    ensures var m := Collect(SubexpNames, [a, b, c, d, e, f], 6);
            && m.Keys == {"", "user", "status", "server"}
            && m[""] == e && m["user"] == b && m["status"] == c && m["server"] == f
  {
    var n := SubexpNames;
    var v := [a, b, c, d, e, f];
    assert "status"[1] != "server"[1];
    assert |"user"| != |"status"| && |""| != |"user"| && |""| != |"status"|;
    assert Collect(n, v, 1) == map["" := a];
    assert Collect(n, v, 2) == map["" := a, "user" := b];
    assert Collect(n, v, 3) == map["" := a, "user" := b, "status" := c];
    assert Collect(n, v, 4) == map["" := d, "user" := b, "status" := c];
    assert Collect(n, v, 5) == map["" := e, "user" := b, "status" := c];
  }

  /**
   `unpackResponse`: nil when the search finds no match, otherwise the map
   from sub-expression name to submatch. The two unnamed alternatives share
   the name "" with the whole match, so that key ends up holding the
   submatch of `(unverified)`, which is empty when the status is `verified`.
   */
  function UnpackResponse(line: string): (r: Option<map<string, string>>)
    ensures r.None? <==> FindFrom(line, 0, MatchPrefix).None?
    ensures r.Some? ==> r.value.Keys == {"", "user", "status", "server"}
    ensures r.Some? ==> r.value["status"] == StatusVerified || r.value["status"] == StatusUnverified
    ensures r.Some? ==> |r.value["user"]| > 0 && IsWord(r.value["user"])
    ensures r.Some? ==> |r.value["server"]| > 0 && IsWord(r.value["server"])
    ensures r.Some? ==> r.value[""] == if r.value["status"] == StatusUnverified then StatusUnverified else ""
  {
    match FindFrom(line, 0, MatchPrefix)
    case None => None
    case Some((p, c)) =>
      MatchPrefixSound(line[p..]);
      var sub := Submatches(c);
      CollectGroups(sub[0], sub[1], sub[2], sub[3], sub[4], sub[5]);
      assert sub == [sub[0], sub[1], sub[2], sub[3], sub[4], sub[5]];
      Some(Collect(SubexpNames, sub, 6))
  }

  /**
   The map's groups are those of the leftmost match of the pattern in the
   line: the match starts at `p`, and no earlier position starts one.
   */
  lemma UnpackIsLeftmostMatch(line: string) returns (p: nat)
    requires UnpackResponse(line).Some?
    ensures p <= |line|
    ensures var g := UnpackResponse(line).value;
            MatchesPrefix(line[p..], Confirmation(g["user"], g["status"], g["server"]))
    ensures forall q, c :: 0 <= q < p ==> !MatchesPrefix(line[q..], c)
  {
    var c;
    p, c := FindFrom(line, 0, MatchPrefix).value.0, FindFrom(line, 0, MatchPrefix).value.1;
    MatchPrefixSound(line[p..]);
    var sub := Submatches(c);
    CollectGroups(sub[0], sub[1], sub[2], sub[3], sub[4], sub[5]);
    assert sub == [sub[0], sub[1], sub[2], sub[3], sub[4], sub[5]];
    assert UnpackResponse(line).value == Collect(SubexpNames, sub, 6);
    forall q, c' | 0 <= q < p
      ensures !MatchesPrefix(line[q..], c')
    {
      assert MatchPrefix(line[q..]).None?;
      if MatchesPrefix(line[q..], c') {
        MatchPrefixComplete(line[q..], c');
      }
    }
  }

  /** `unpackResponse` is nil exactly when no position of the line starts a match. */
  lemma UnpackNoneIff(line: string)
    ensures UnpackResponse(line).None? <==> forall q, c :: 0 <= q <= |line| ==> !MatchesPrefix(line[q..], c)
  {
    var r := FindFrom(line, 0, MatchPrefix);
    if r.Some? {
      var (p, c) := r.value;
      MatchPrefixSound(line[p..]);
    } else {
      forall q, c | 0 <= q <= |line|
        ensures !MatchesPrefix(line[q..], c)
      {
        assert MatchPrefix(line[q..]).None?;
        if MatchesPrefix(line[q..], c) {
          MatchPrefixComplete(line[q..], c);
        }
      }
    }
  }

  /**
   Round trip: a confirmation rendered from valid groups, and followed by
   anything that does not extend the server name, unpacks to those groups.
   */
  lemma UnpackRendered(c: Confirmation, suffix: string)
    requires ValidGroups(c)
    requires |suffix| == 0 || !IsWordChar(suffix[0])
    ensures UnpackResponse(Render(c) + suffix).Some?
    ensures var g := UnpackResponse(Render(c) + suffix).value;
            g["user"] == c.user && g["status"] == c.status && g["server"] == c.server
  {
    var line := Render(c) + suffix;
    assert line[0..] == line;
    assert line[|Render(c)|..] == suffix;
    MatchPrefixComplete(line, c);
    var sub := Submatches(c);
    CollectGroups(sub[0], sub[1], sub[2], sub[3], sub[4], sub[5]);
    assert sub == [sub[0], sub[1], sub[2], sub[3], sub[4], sub[5]];
  }
}
