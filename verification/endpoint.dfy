/**
 The value types the connection is configured with (aprs.go): the server
 address and the login settings. `Package` and `Version`, the product name
 and version the login line reports, are not defined in aprs.go or the
 message package and are taken as parameters.
 */
module Endpoint {
  import opened Wrappers
  import opened Text

  datatype Server = Server(host: string, port: int)

  datatype Settings = Settings(username: string, password: string, filter: string)

  /** `host:port`, the port written in decimal as `%d` writes it. */
  function Url(s: Server): (r: string)
    ensures |r| > |s.host| && r[..|s.host|] == s.host && r[|s.host|] == ':'
    ensures ParseDecimal(r[|s.host| + 1..]) == Some(s.port)
  {
    var r := s.host + ":" + IntToDecimal(s.port);
    IntDecimalRoundTrip(s.port);
    assert r[|s.host| + 1..] == IntToDecimal(s.port);
    r
  }

  /** Reads an address back: the host is everything before the last colon, the port the decimal after it. */
  function SplitUrl(url: string): (r: Option<Server>)
  {
    match LastIndexOf(url, ':')
    case None => None
    case Some(i) =>
      match ParseDecimal(url[i + 1..])
      case None => None
      case Some(port) => Some(Server(url[..i], port))
  }

  /** Every server survives `Url` and `SplitUrl`, even a host that itself contains colons. */
  lemma UrlRoundTrip(s: Server)
    ensures SplitUrl(Url(s)) == Some(s)
  {
    var d := IntToDecimal(s.port);
    var url := Url(s);
    assert url == s.host + [':'] + d;
    LastIndexOfBefore(s.host, ':', d);
    assert url[|s.host| + 1..] == d;
    IntDecimalRoundTrip(s.port);
  }

  /** A real password is any password but the empty one and the sentinel `-1`. */
  predicate HasPassword(s: Settings)
  {
    s.password != "" && s.password != "-1"
  }

  /**
   The login line `user U pass P ver PRODUCT VERSION`, followed by a space
   and the filter when the filter is not empty.
   */
  function AuthString(s: Settings, product: string, version: string): (r: string)
    ensures |r| == 17 + |s.username| + |s.password| + |product| + |version|
                  + (if s.filter == "" then 0 else 1 + |s.filter|)
    ensures "user " <= r
    ensures s.filter == "" ==> r[|r| - |version|..] == version
    ensures s.filter != "" ==> r[|r| - |s.filter| - 1..] == " " + s.filter
  {
    var line := "user " + s.username + " pass " + s.password + " ver " + product + " " + version;
    if s.filter != "" then line + " " + s.filter else line
  }

  /** The fields of a login line as a server would read them. */
  datatype LoginFields = LoginFields(settings: Settings, product: string, version: string)

  /** Reads `key value ` off the front of `s`: the value and what follows the space after it. */
  function ReadKeyValue(s: string, key: string): Option<(string, string)>
  {
    var (k, r1) := Cut(s);
    if k != key || r1.None? then None else
    var (value, r2) := Cut(r1.value);
    if r2.None? then None else Some((value, r2.value))
  }

  lemma ReadKeyValueOf(key: string, value: string, rest: string)
    requires ' ' !in key && ' ' !in value
    ensures ReadKeyValue(key + " " + value + " " + rest, key) == Some((value, rest))
  {
    var tail := value + " " + rest;
    AppendAssoc3(key + " ", value, " ", rest);
    CutField(key, tail);
    CutField(value, rest);
    ReadKeyValueCuts(key + " " + tail, key, tail, value, rest);
  }

  /** `ReadKeyValue` in terms of the two cuts it makes. */
  lemma ReadKeyValueCuts(s: string, key: string, tail: string, value: string, rest: string)
    requires Cut(s) == (key, Some(tail)) && Cut(tail) == (value, Some(rest))
    ensures ReadKeyValue(s, key) == Some((value, rest))
  {
  }

  /**
   Reads a login line field by field at single spaces: the keywords `user`,
   `pass` and `ver` with their values, then the version and, after one more
   space, the filter (which may itself contain spaces).
   */
  function ReadLogin(line: string): Option<LoginFields>
  {
    match ReadKeyValue(line, "user")
    case None => None
    case Some((user, r1)) =>
      match ReadKeyValue(r1, "pass")
      case None => None
      case Some((pass, r2)) =>
        match ReadKeyValue(r2, "ver")
        case None => None
        case Some((product, r3)) =>
          var (version, r4) := Cut(r3);
          var filter := if r4.None? then "" else r4.value;
          Some(LoginFields(Settings(user, pass, filter), product, version))
  }

  /** The login line regrouped as the nested fields `ReadLogin` takes apart. */
  lemma AuthStringShape(s: Settings, product: string, version: string, tail: string)
    requires tail == if s.filter != "" then version + " " + s.filter else version
    ensures AuthString(s, product, version)
         == "user" + " " + s.username + " " + ("pass" + " " + s.password + " " + ("ver" + " " + product + " " + tail))
  {
    var head := "user " + s.username + " pass " + s.password + " ver " + product + " ";
    if s.filter != "" {
      AppendAssoc3(head, version, " ", s.filter);
    }
    LoginLineShape(s.username, s.password, product, tail);
  }

  /** Regrouping `((x + y) + z) + w` as `x + ((y + z) + w)`. */
  lemma AppendAssoc3<T>(x: seq<T>, y: seq<T>, z: seq<T>, w: seq<T>)
    ensures x + y + z + w == x + (y + z + w)
  {
  }

  /** The fixed words of the login line split apart from their separating spaces. */
  lemma LoginLineShape(user: string, pass: string, product: string, tail: string)
    ensures "user " + user + " pass " + pass + " ver " + product + " " + tail
         == "user" + " " + user + " " + ("pass" + " " + pass + " " + ("ver" + " " + product + " " + tail))
  {
  }

  /** `ReadLogin` on a line whose three keyword fields are well formed. */
  lemma ReadLoginOf(user: string, pass: string, product: string, tail: string)
    requires ' ' !in user && ' ' !in pass && ' ' !in product
    ensures ReadLogin("user" + " " + user + " " + ("pass" + " " + pass + " " + ("ver" + " " + product + " " + tail)))
         == (var (version, r4) := Cut(tail);
             Some(LoginFields(Settings(user, pass, if r4.None? then "" else r4.value), product, version)))
  {
    var r2 := "ver" + " " + product + " " + tail;
    var r1 := "pass" + " " + pass + " " + r2;
    ReadKeyValueOf("user", user, r1);
    ReadKeyValueOf("pass", pass, r2);
    ReadKeyValueOf("ver", product, tail);
  }

  /** The version and filter fields read back from the end of the line. */
  lemma ReadLoginTail(s: Settings, product: string, version: string, tail: string)
    requires ' ' !in s.username && ' ' !in s.password && ' ' !in product && ' ' !in version
    requires tail == if s.filter != "" then version + " " + s.filter else version
    ensures ReadLogin("user" + " " + s.username + " " + ("pass" + " " + s.password + " " + ("ver" + " " + product + " " + tail)))
         == Some(LoginFields(s, product, version))
  {
    ReadLoginOf(s.username, s.password, product, tail);
    if s.filter != "" {
      CutField(version, s.filter);
    } else {
      CutWhole(version);
    }
  }

  /**
   With space-free credentials, product and version, the login line reads
   back as exactly those fields and the filter, an empty filter included.
   */
  lemma AuthStringRoundTrip(s: Settings, product: string, version: string)
    requires ' ' !in s.username && ' ' !in s.password && ' ' !in product && ' ' !in version
    ensures ReadLogin(AuthString(s, product, version)) == Some(LoginFields(s, product, version))
  {
    var tail := if s.filter != "" then version + " " + s.filter else version;
    AuthStringShape(s, product, version, tail);
    ReadLoginTail(s, product, version, tail);
  }
}
