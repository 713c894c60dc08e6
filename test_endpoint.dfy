/** The backend's `/api/test` handler (app.py, `run_test`): the checks on the
    posted host and flags, and the iperf3 command line built from them. */
module TestEndpoint {
  import opened Options
  import opened Strings
  import PyText
  import JsText

  /** Characters that make a host invalid. */
  const HostForbidden: seq<char> := [';', '&', '|', ' ']

  /** Characters that make non-empty flags invalid. */
  const FlagForbidden: seq<char> := [';', '&', '|']

  /** `any(c in s for c in chars)`. */
  predicate ContainsAny(s: string, chars: seq<char>) {
    exists c :: c in chars && c in s
  }

  /** A host the handler accepts: present, not empty, and free of `;`, `&`,
      `|` and spaces. */
  predicate HostAccepted(host: Option<string>) {
    host.Some? && host.value != "" && !ContainsAny(host.value, HostForbidden)
  }

  /** What the handler answers: an error with its HTTP status, or the command
      it hands to the process runner. */
  datatype TestReply = Rejected(error: string, status: nat) | Command(argv: seq<string>)

  /** The `port` field of the posted JSON body, which `run_test` takes
      without checking its type: a whole number, a text, a boolean, or any
      other value (a fractional number, a list, an object), which is given by
      its truthiness and by the text `str` renders for it. */
  datatype PortValue =
    | PortInt(n: int)
    | PortText(t: string)
    | PortBool(b: bool)
    | PortOther(truthy: bool, shown: string)

  /** The field as the page posts it: a JSON number, or `null` for `NaN`. */
  function FromPage(port: Option<int>): Option<PortValue> {
    if port.Some? then Some(PortInt(port.value)) else None
  }

  /** `str(port) if port else "5201"`: an absent or falsy port (`null`, 0,
      "", `false`) falls back to iperf3's default. */
  function PortArg(port: Option<PortValue>): string {
    match port
    case None => "5201"
    case Some(PortInt(n)) => if n != 0 then IntToDecimal(n) else "5201"
    case Some(PortText(t)) => if t != "" then t else "5201"
    case Some(PortBool(b)) => if b then "True" else "5201"
    case Some(PortOther(truthy, shown)) => if truthy then shown else "5201"
  }

  /** For a port the page posts, the port argument reads back, as a decimal
      integer, as the requested port, or as 5201 when the request has no
      port or port 0. */
  lemma PortArgReadsBack(port: Option<int>)
    ensures JsText.ParseInt(PortArg(FromPage(port))) == Some(if port.Some? && port.value != 0 then port.value else 5201)
  {
    if port.Some? && port.value != 0 {
      JsText.ParseNumberToString(port);
    } else {
      assert NatToDecimal(5201) == "5201";
      JsText.ParseNatText(5201);
    }
  }

  /** A non-empty text port reaches the argument unchanged; `true` becomes
      `True`; every falsy port becomes `5201`. */
  lemma PortArgOfJson(port: Option<PortValue>)
    ensures port.Some? && port.value.PortText? && port.value.t != "" ==> PortArg(port) == port.value.t
    ensures port == Some(PortBool(true)) ==> PortArg(port) == "True"
    ensures port.None? || port == Some(PortInt(0)) || port == Some(PortText(""))
      || port == Some(PortBool(false)) || (port.Some? && port.value.PortOther? && !port.value.truthy)
      ==> PortArg(port) == "5201"
  {
  }

  /** The command before any flag. */
  function BaseCommand(host: string, port: Option<PortValue>): seq<string> {
    ["iperf3", "-c", host, "-p", PortArg(port)]
  }

  /** The tokens the flags contribute: their white-space split, nothing when
      the flags are missing. */
  function FlagTokens(flags: Option<string>): seq<string> {
    if flags.Some? then PyText.Split(flags.value) else []
  }

  /** The handler's answer for a request, stated by the order of its checks:
      host present, host clean, then flags clean when present. */
  function Reply(host: Option<string>, port: Option<PortValue>, flags: Option<string>): TestReply {
    if host.None? || host.value == "" then Rejected("Host is required", 400)
    else if ContainsAny(host.value, HostForbidden) then Rejected("Invalid host format", 400)
    else if flags.Some? && flags.value != "" && ContainsAny(flags.value, FlagForbidden) then
      Rejected("Invalid flags", 400)
    else Command(BaseCommand(host.value, port) + FlagTokens(flags))
  }

  /** `run_test` up to the point where the command is run: `host`, `port` and
      `flags` are the request's fields, `None` when absent or `null`. The
      flag tokens are appended to the command one by one. A missing or empty
      host wins over every other check, a bad host over bad flags, flags are
      only inspected when not empty, and every rejection has status 400. */
  method RunTest(host: Option<string>, port: Option<PortValue>, flags: Option<string>) returns (reply: TestReply)
    ensures reply == Reply(host, port, flags)
    ensures host.None? || host.value == "" ==> reply == Rejected("Host is required", 400)
    ensures host.Some? && host.value != "" && ContainsAny(host.value, HostForbidden) ==>
      reply == Rejected("Invalid host format", 400)
    ensures reply.Rejected? ==> reply.status == 400
    ensures reply.Command? <==>
      host.Some? && host.value != "" && !ContainsAny(host.value, HostForbidden)
      && (flags.None? || flags.value == "" || !ContainsAny(flags.value, FlagForbidden))
    ensures reply.Command? ==> reply.argv == BaseCommand(host.value, port) + FlagTokens(flags)
  {
    if host.None? || host.value == "" {
      return Rejected("Host is required", 400);
    }
    var h := host.value;
    if ContainsAny(h, HostForbidden) {
      return Rejected("Invalid host format", 400);
    }
    var cmd := BaseCommand(h, port);
    if flags.Some? && flags.value != "" {
      if ContainsAny(flags.value, FlagForbidden) {
        return Rejected("Invalid flags", 400);
      }
      var tokens := PyText.Split(flags.value);
      var i := 0;
      while i < |tokens|
        invariant 0 <= i <= |tokens|
        invariant cmd == BaseCommand(h, port) + tokens[..i]
      {
        cmd := cmd + [tokens[i]];
        i := i + 1;
      }
      assert tokens[..i] == tokens;
    } else if flags.Some? {
      assert PyText.Split("") == [];
    }
    reply := Command(cmd);
  }

  /** An accepted host with flags free of `;`, `&` and `|` gives the command
      with the flags' tokens. */
  lemma AcceptedReply(host: Option<string>, port: Option<PortValue>, flags: string)
    requires HostAccepted(host) && !ContainsAny(flags, FlagForbidden)
    ensures Reply(host, port, Some(flags)) == Command(BaseCommand(host.value, port) + PyText.Split(flags))
  {
    if flags == "" {
      assert PyText.Split("") == [];
    }
  }

  /** An accepted host with flags holding `;`, `&` or `|` is refused. */
  lemma RefusedReply(host: Option<string>, port: Option<PortValue>, flags: string)
    requires HostAccepted(host) && ContainsAny(flags, FlagForbidden)
    ensures Reply(host, port, Some(flags)) == Rejected("Invalid flags", 400)
  {
  }

  /** A port that is a number, a boolean or absent gives an argument that
      holds no `;`, `&` or `|`: a decimal number, possibly negative, `True`
      or `5201`. A text or other port is not checked at all. */
  lemma PortArgClean(port: Option<PortValue>)
    ensures port.None? || port.value.PortInt? || port.value.PortBool? ==>
      !ContainsAny(PortArg(port), FlagForbidden)
  {
    var arg := PortArg(port);
    if port.Some? && port.value.PortInt? && port.value.n != 0 {
      var n := port.value.n;
      var digits := NatToDecimal(if n > 0 then n else -n);
      assert arg == digits || arg == "-" + digits;
      forall c | c in FlagForbidden
        ensures c !in arg
      {
        assert !IsDecimalDigit(c) && c != '-';
      }
    }
  }

  /** A text port with a metacharacter reaches the command as it is: the
      port is the one field the handler never inspects. */
  lemma TextPortUnchecked()
    ensures Reply(Some("h"), Some(PortText("5201;x")), None)
      == Command(["iperf3", "-c", "h", "-p", "5201;x"])
    ensures ContainsAny("5201;x", FlagForbidden)
  {
    assert !ContainsAny("h", HostForbidden);
    assert ';' in FlagForbidden && "5201;x"[4] == ';';
  }

  /** An accepted request yields a command whose fifth argument is the port
      argument and none of whose other arguments holds `;`, `&` or `|`; the
      port argument is clean too for a number, boolean or absent port. The
      host has no space, and every flag argument is a non-empty run of
      non-white characters of the flags. */
  lemma {:induction false} CommandClean(host: Option<string>, port: Option<PortValue>, flags: Option<string>)
    requires Reply(host, port, flags).Command?
    ensures var argv := Reply(host, port, flags).argv;
      |argv| >= 5 && argv[2] == host.value && ' ' !in argv[2] && argv[4] == PortArg(port)
      && (forall i :: 0 <= i < |argv| && i != 4 ==> !ContainsAny(argv[i], FlagForbidden))
      && (port.None? || port.value.PortInt? || port.value.PortBool? ==> !ContainsAny(argv[4], FlagForbidden))
      && (forall i :: 5 <= i < |argv| ==> argv[i] != [] && PyText.NoPyWhite(argv[i]))
  {
    var argv := Reply(host, port, flags).argv;
    var tokens := FlagTokens(flags);
    assert argv == BaseCommand(host.value, port) + tokens;
    assert ' ' in HostForbidden;
    PortArgClean(port);
    forall i | 0 <= i < |argv| && i != 4
      ensures !ContainsAny(argv[i], FlagForbidden)
    {
      if i == 2 {
        forall c | c in FlagForbidden ensures c !in argv[2] {
          assert c in HostForbidden;
        }
      } else if i >= 5 {
        assert argv[i] == tokens[i - 5];
        forall c | c in FlagForbidden ensures c !in argv[i] {
          if c in argv[i] {
            PyText.WordsChars(flags.value, [], i - 5, c);
          }
        }
      }
    }
  }

  /** `"-R -u".split()` is `["-R", "-u"]`. */
  lemma SplitExample()
    ensures PyText.Split("-R -u") == ["-R", "-u"]
  {
    assert "u"[1..] == [] && "-" + ['u'] == "-u";
    assert PyText.Words("u", "-") == ["-u"];
    assert "-u"[1..] == "u" && [] + ['-'] == "-";
    assert PyText.Words("-u", []) == ["-u"];
    assert " -u"[1..] == "-u";
    assert PyText.Words(" -u", "-R") == ["-R", "-u"];
    assert "R -u"[1..] == " -u" && "-" + ['R'] == "-R";
    assert PyText.Words("R -u", "-") == ["-R", "-u"];
    assert "-R -u"[1..] == "R -u";
  }

  /** The example of a valid request: host and port with reverse mode and UDP
      flags. */
  lemma ExampleCommand()
    ensures Reply(Some("iperf.example.net"), Some(PortInt(5202)), Some("-R -u"))
      == Command(["iperf3", "-c", "iperf.example.net", "-p", "5202", "-R", "-u"])
  {
    assert !ContainsAny("iperf.example.net", HostForbidden);
    assert !ContainsAny("-R -u", FlagForbidden);
    assert NatToDecimal(5202) == "5202";
    SplitExample();
  }
}
