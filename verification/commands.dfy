/**
 The actuator commands both deployments emit, their text form, and the HTTP
 requests of the continuous deployment that carry them to the ESP8266 boards.
 */
module Commands {
  import opened Wrappers
  import opened Text

  datatype Command =
    | HandPressure        // "H"
    | Cutter              // "C"
    | OpenPlate           // "O"
    | Move                // "MOVE"
    | HandMotor(flag: nat) // "HAND_MOTOR:<flag>"
    | HandMotorReset      // "HAND_MOTOR:RESET"

  const HandMotorPrefix: string := "HAND_MOTOR:"

  /**
   The text of a command, as the source formats it: never empty; exactly the two
   hand-motor commands start with "HAND_MOTOR:", and for a flag the rest is the
   flag's decimal digits with no leading zero, as `str(f)` writes them.
   */
  function Wire(c: Command): (r: string)
    ensures |r| > 0
    ensures HasPrefix(r, HandMotorPrefix) <==> c.HandMotor? || c.HandMotorReset?
    ensures c.HandMotor? ==>
      HasPrefix(r, HandMotorPrefix) && AllDigits(r[|HandMotorPrefix|..]) && DecimalValue(r[|HandMotorPrefix|..]) == c.flag
    ensures c.HandMotor? && c.flag != 0 ==> r[|HandMotorPrefix|] != '0'
  {
    match c
    case HandPressure => "H"
    case Cutter => "C"
    case OpenPlate => "O"
    case Move => "MOVE"
    case HandMotor(f) =>
      PrefixSplit(HandMotorPrefix, NatToString(f));
      DecimalRoundTrip(f);
      HandMotorPrefix + NatToString(f)
    case HandMotorReset =>
      PrefixSplit(HandMotorPrefix, "RESET");
      HandMotorPrefix + "RESET"
  }

  /**
   A decoder of command texts, defined by this model to show that the texts the
   source emits are unambiguous; `None` for any other text.
   */
  function ParseCommand(s: string): Option<Command>
  {
    if s == "H" then Some(HandPressure)
    else if s == "C" then Some(Cutter)
    else if s == "O" then Some(OpenPlate)
    else if s == "MOVE" then Some(Move)
    else if s == HandMotorPrefix + "RESET" then Some(HandMotorReset)
    else if |s| > |HandMotorPrefix| && s[..|HandMotorPrefix|] == HandMotorPrefix && AllDigits(s[|HandMotorPrefix|..]) then
      Some(HandMotor(DecimalValue(s[|HandMotorPrefix|..])))
    else None
  }

  /** A prefixed text starts with its prefix and continues with the rest. */
  lemma PrefixSplit(p: string, t: string)
    ensures HasPrefix(p + t, p)
    ensures (p + t)[|p|..] == t
  {
    assert (p + t)[..|p|] == p;
  }

  /** "HAND_MOTOR:<flag>" reads back as the hand-motor command for that flag. */
  lemma ParseHandMotor(f: nat)
    ensures ParseCommand(HandMotorPrefix + NatToString(f)) == Some(HandMotor(f))
  {
    var d := NatToString(f);
    var s := HandMotorPrefix + d;
    PrefixSplit(HandMotorPrefix, d);
    assert s != HandMotorPrefix + "RESET" by {
      assert s[|HandMotorPrefix|] == d[0];
      assert (HandMotorPrefix + "RESET")[|HandMotorPrefix|] == 'R';
    }
    DecimalRoundTrip(f);
  }

  /** Every command text reads back as the command that produced it. */
  lemma ParseWire(c: Command)
    ensures ParseCommand(Wire(c)) == Some(c)
  {
    match c
    case HandMotor(f) => ParseHandMotor(f);
    case _ =>
  }

  /** Distinct commands never share a text. */
  lemma WireInjective(c1: Command, c2: Command)
    ensures Wire(c1) == Wire(c2) ==> c1 == c2
  {
    ParseWire(c1);
    ParseWire(c2);
  }

  /** First ESP8266 module: receives flags. */
  const Esp1: string := "192.168.1.28"
  /** Second ESP8266 module: receives motor commands. */
  const Esp2: string := "192.168.1.3"

  /** One fire-and-forget HTTP GET issued by the continuous deployment. */
  datatype Request =
    | CommandRequest(ip: string, command: Command)
    | FlagRequest(flag: nat)

  const Scheme: string := "http://"
  const CommandPath: string := "/command?value="
  const FlagPath: string := "/flag?value="

  /**
   The URL `send_command` and `send_flag` request: `http://`, the board's address,
   then the path, which is `/command?value=` and the command text for a command,
   and `/flag?value=` and the flag's digits for a flag, sent to the flag board.
   */
  function Url(req: Request): (r: string)
    ensures req.CommandRequest? ==>
      HasPrefix(r, Scheme + req.ip) && r[|Scheme + req.ip|..] == CommandPath + Wire(req.command)
    ensures req.FlagRequest? ==>
      HasPrefix(r, Scheme + Esp1) && r[|Scheme + Esp1|..] == FlagPath + NatToString(req.flag)
  {
    match req
    case CommandRequest(ip, c) =>
      HttpUrlSplit(ip, CommandPath + Wire(c));
      HttpUrl(ip, CommandPath + Wire(c))
    case FlagRequest(f) =>
      HttpUrlSplit(Esp1, FlagPath + NatToString(f));
      HttpUrl(Esp1, FlagPath + NatToString(f))
  }

  function HttpUrl(host: string, path: string): string
  {
    Scheme + host + path
  }

  lemma HttpUrlSplit(host: string, path: string)
    ensures HasPrefix(HttpUrl(host, path), Scheme + host)
    ensures HttpUrl(host, path)[|Scheme + host|..] == path
  {
    PrefixSplit(Scheme + host, path);
  }

  /** Index of the first `c` in `s`, or `|s|` when there is none. */
  function IndexOf(s: string, c: char): (k: nat)
    ensures k <= |s|
    ensures forall j :: 0 <= j < k ==> s[j] != c
    ensures k < |s| ==> s[k] == c
    decreases |s|
  {
    if s == [] then 0 else if s[0] == c then 0 else 1 + IndexOf(s[1..], c)
  }

  /** In `a + b` with `c` absent from `a` and leading `b`, the first `c` is at `|a|`. */
  lemma IndexOfAfter(a: string, b: string, c: char)
    requires c !in a && |b| > 0 && b[0] == c
    ensures IndexOf(a + b, c) == |a|
    decreases |a|
  {
    if a == [] {
      assert a + b == b;
    } else {
      assert (a + b)[0] == a[0];
      assert (a + b)[1..] == a[1..] + b;
      IndexOfAfter(a[1..], b, c);
    }
  }

  predicate HasPrefix(s: string, p: string)
  {
    |p| <= |s| && s[..|p|] == p
  }

  /**
   A decoder of request URLs (host, path, then the query value), defined by this
   model to show that every URL the source builds is unambiguous.
   */
  function ParseUrl(u: string): Option<Request>
  {
    if !HasPrefix(u, Scheme) then None
    else
      var rest := u[|Scheme|..];
      var k := IndexOf(rest, '/');
      ParsePath(rest[..k], rest[k..])
  }

  /** The decoder's reading of the path and query of a URL sent to `host`. */
  function ParsePath(host: string, path: string): Option<Request>
  {
    if HasPrefix(path, CommandPath) then
      match ParseCommand(path[|CommandPath|..])
      case Some(c) => Some(CommandRequest(host, c))
      case None => None
    else if HasPrefix(path, FlagPath) && host == Esp1 && AllDigits(path[|FlagPath|..]) && |path| > |FlagPath| then
      Some(FlagRequest(DecimalValue(path[|FlagPath|..])))
    else None
  }

  /** A host part a URL can carry unambiguously. */
  predicate ValidHost(ip: string)
  {
    '/' !in ip
  }

  /** A URL `Scheme + host + path` splits back into its host and its path. */
  lemma SplitUrl(host: string, path: string)
    requires ValidHost(host) && |path| > 0 && path[0] == '/'
    ensures ParseUrl(HttpUrl(host, path)) == ParsePath(host, path)
  {
    var u := HttpUrl(host, path);
    assert u == Scheme + (host + path);
    PrefixSplit(Scheme, host + path);
    var rest := host + path;
    IndexOfAfter(host, path, '/');
    assert rest[..|host|] == host;
    assert rest[|host|..] == path;
  }

  /** A command URL reads back as the board and command that produced it. */
  lemma CommandUrlRoundTrip(ip: string, c: Command)
    requires ValidHost(ip)
    ensures ParseUrl(Url(CommandRequest(ip, c))) == Some(CommandRequest(ip, c))
  {
    SplitUrl(ip, CommandPath + Wire(c));
    CommandPathParse(ip, c);
  }

  lemma CommandPathParse(host: string, c: Command)
    ensures ParsePath(host, CommandPath + Wire(c)) == Some(CommandRequest(host, c))
  {
    PrefixSplit(CommandPath, Wire(c));
    ParseWire(c);
  }

  lemma FlagPathParse(f: nat)
    ensures ParsePath(Esp1, FlagPath + NatToString(f)) == Some(FlagRequest(f))
  {
    var path := FlagPath + NatToString(f);
    assert !HasPrefix(path, CommandPath) by {
      if |CommandPath| <= |path| {
        assert path[..|CommandPath|][1] == path[1] == 'f';
      }
    }
    PrefixSplit(FlagPath, NatToString(f));
    DecimalRoundTrip(f);
  }

  /** A flag URL reads back as the flag that produced it. */
  lemma FlagUrlRoundTrip(f: nat)
    ensures ParseUrl(Url(FlagRequest(f))) == Some(FlagRequest(f))
  {
    SplitUrl(Esp1, FlagPath + NatToString(f));
    FlagPathParse(f);
  }

  /**
   Every request URL, for a host without '/', reads back as the request that
   produced it: board, command and flag are all recoverable.
   */
  lemma ParseUrlRoundTrip(r: Request)
    requires r.CommandRequest? ==> ValidHost(r.ip)
    ensures ParseUrl(Url(r)) == Some(r)
  {
    match r
    case CommandRequest(ip, c) => CommandUrlRoundTrip(ip, c);
    case FlagRequest(f) => FlagUrlRoundTrip(f);
  }
}
