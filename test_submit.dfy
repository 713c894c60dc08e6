/** A test request end to end: the flags the form builds (static/script.js)
    as the backend splits and checks them (app.py). */
module TestSubmit {
  import opened Options
  import opened Strings
  import JsText
  import PyText
  import ServerMap
  import TestForm
  import TestEndpoint

  /** No U+FEFF in `s`: the one character JavaScript trims as white space
      and Python does not split on. */
  predicate NoBom(s: string) {
    forall i :: 0 <= i < |s| ==> s[i] as int != 0xFEFF
  }

  /** The words `-R` and `-6` are single tokens for `str.split()`. */
  lemma SplitFlagWord(w: string)
    requires w == "-R" || w == "-6"
    ensures PyText.Split(w) == [w]
  {
    PyText.SplitWord(w);
  }

  /** A character of the joined form words other than `-`, `R`, `6` and the
      space is a character of the custom text. */
  lemma {:induction false} JoinedChar(reverse: bool, ipv6: bool, custom: string, c: char)
    requires c != '-' && c != 'R' && c != '6' && c != ' '
    ensures c in JoinWith(TestForm.FlagWords(reverse, ipv6, custom), ' ') <==> c in custom
  {
    var words := TestForm.FlagWords(reverse, ipv6, custom);
    JoinWithChars(words, ' ', c);
    if exists k :: 0 <= k < |words| && c in words[k] {
      var k :| 0 <= k < |words| && c in words[k];
      assert words[k] == "-R" || words[k] == "-6" || words[k] == custom;
    }
    if c in custom {
      assert words[|words| - 1] == custom;
    }
  }

  /** The text of the form's words holds no U+FEFF unless the custom text
      does. */
  lemma JoinedHasNoBom(reverse: bool, ipv6: bool, custom: string)
    requires NoBom(custom)
    ensures NoBom(JoinWith(TestForm.FlagWords(reverse, ipv6, custom), ' '))
  {
    var j := JoinWith(TestForm.FlagWords(reverse, ipv6, custom), ' ');
    forall i | 0 <= i < |j|
      ensures j[i] as int != 0xFEFF
    {
      if j[i] != '-' && j[i] != 'R' && j[i] != '6' && j[i] != ' ' {
        JoinedChar(reverse, ipv6, custom, j[i]);
      }
    }
  }

  /** The words of pieces put one after another. */
  lemma {:induction false} ConcatAppend(a: seq<string>, b: seq<string>)
    ensures PyText.ConcatWords(a + b) == PyText.ConcatWords(a) + PyText.ConcatWords(b)
    decreases |a|
  {
    if a == [] {
      assert a + b == b;
    } else {
      assert (a + b)[1..] == a[1..] + b;
      ConcatAppend(a[1..], b);
    }
  }

  /** The words of the form's pieces: `-R`, `-6`, then those of the custom
      text. */
  lemma ConcatFormWords(reverse: bool, ipv6: bool, custom: string)
    ensures PyText.ConcatWords(TestForm.FlagWords(reverse, ipv6, custom))
      == (if reverse then ["-R"] else []) + (if ipv6 then ["-6"] else []) + PyText.Split(custom)
  {
    var r: seq<string> := if reverse then ["-R"] else [];
    var v: seq<string> := if ipv6 then ["-6"] else [];
    var c: seq<string> := if custom != "" then [custom] else [];
    SplitFlagWord("-R");
    SplitFlagWord("-6");
    assert PyText.Split("") == [];
    assert PyText.ConcatWords(r) == r;
    assert PyText.ConcatWords(v) == v;
    assert PyText.ConcatWords(c) == PyText.Split(custom);
    ConcatAppend(r, v + c);
    ConcatAppend(v, c);
    assert TestForm.FlagWords(reverse, ipv6, custom) == r + (v + c);
  }

  /** The tokens the backend runs with are the form's words, the custom text
      split at its white space, provided the custom text holds no U+FEFF. */
  lemma TokensOfForm(reverse: bool, ipv6: bool, custom: string)
    requires NoBom(custom)
    ensures PyText.Split(JsText.Trim(JoinWith(TestForm.FlagWords(reverse, ipv6, custom), ' ')))
      == (if reverse then ["-R"] else []) + (if ipv6 then ["-6"] else []) + PyText.Split(custom)
  {
    var words := TestForm.FlagWords(reverse, ipv6, custom);
    var j := JoinWith(words, ' ');
    JoinedHasNoBom(reverse, ipv6, custom);
    PyText.SplitOfTrim(j);
    PyText.SplitJoinedBySpaces(words);
    ConcatFormWords(reverse, ipv6, custom);
  }

  /** The flags the form posts hold `;`, `&` or `|` exactly when the custom
      text does: `-R`, `-6`, the joining spaces and the trimming add or
      remove none of them. */
  lemma FlagsForbiddenIff(reverse: bool, ipv6: bool, custom: string)
    ensures TestEndpoint.ContainsAny(JsText.Trim(JoinWith(TestForm.FlagWords(reverse, ipv6, custom), ' ')), TestEndpoint.FlagForbidden)
      <==> TestEndpoint.ContainsAny(custom, TestEndpoint.FlagForbidden)
  {
    var j := JoinWith(TestForm.FlagWords(reverse, ipv6, custom), ' ');
    forall c | c in TestEndpoint.FlagForbidden
      ensures c in JsText.Trim(j) <==> c in custom
    {
      JsText.TrimKeepsChars(j, c);
      JoinedChar(reverse, ipv6, custom, c);
    }
  }

  /** The flags the form posts for these settings. */
  function FormFlags(reverse: bool, ipv6: bool, custom: string): string {
    JsText.Trim(JoinWith(TestForm.FlagWords(reverse, ipv6, custom), ' '))
  }

  /** With an accepted host and clean custom flags, the backend's command is
      the form's words after the host and port. */
  lemma FormAccepted(host: Option<string>, port: Option<TestEndpoint.PortValue>, reverse: bool, ipv6: bool, custom: string)
    requires TestEndpoint.HostAccepted(host)
    requires !TestEndpoint.ContainsAny(custom, TestEndpoint.FlagForbidden) && NoBom(custom)
    ensures TestEndpoint.Reply(host, port, Some(FormFlags(reverse, ipv6, custom)))
      == TestEndpoint.Command(TestEndpoint.BaseCommand(host.value, port)
        + ((if reverse then ["-R"] else []) + (if ipv6 then ["-6"] else []) + PyText.Split(custom)))
  {
    var flags := FormFlags(reverse, ipv6, custom);
    var words := (if reverse then ["-R"] else []) + (if ipv6 then ["-6"] else []) + PyText.Split(custom);
    FlagsForbiddenIff(reverse, ipv6, custom);
    TokensOfForm(reverse, ipv6, custom);
    assert PyText.Split(flags) == words;
    TestEndpoint.AcceptedReply(host, port, flags);
  }

  /** With an accepted host, custom flags holding `;`, `&` or `|` are refused. */
  lemma FormRefused(host: Option<string>, port: Option<TestEndpoint.PortValue>, reverse: bool, ipv6: bool, custom: string)
    requires TestEndpoint.HostAccepted(host)
    requires TestEndpoint.ContainsAny(custom, TestEndpoint.FlagForbidden)
    ensures TestEndpoint.Reply(host, port, Some(FormFlags(reverse, ipv6, custom)))
      == TestEndpoint.Rejected("Invalid flags", 400)
  {
    FlagsForbiddenIff(reverse, ipv6, custom);
    TestEndpoint.RefusedReply(host, port, FormFlags(reverse, ipv6, custom));
  }

  /** Pressing "Run iperf3 Test": the form builds the request, which the
      backend checks and turns into a command. The reply is the backend's
      answer to the chosen port, posted as a JSON number or `null`, and the
      form's flags. A server without a host is refused as "Host is
      required" and one whose host holds `;`, `&`, `|` or a space as
      "Invalid host format". When the server has a clean host and the custom
      flags hold no `;`, `&`, `|` or U+FEFF, the command is iperf3 against
      that host and the chosen port, `5201` standing in for `NaN`, 0 or no
      port, followed by `-R`, `-6` and the custom flags' words. Custom flags
      holding `;`, `&` or `|` are refused as "Invalid flags". */
  method SubmitTest(server: ServerMap.Server, ports: seq<Option<int>>, choice: nat,
                    reverse: bool, ipv6: bool, custom: string) returns (reply: TestEndpoint.TestReply)
    requires ports == [] || choice < |ports|
    ensures var port := TestEndpoint.FromPage(if ports == [] then None else ports[choice]);
      reply == TestEndpoint.Reply(server.host, port, Some(FormFlags(reverse, ipv6, custom)))
    ensures server.host.None? || server.host.value == "" ==> reply == TestEndpoint.Rejected("Host is required", 400)
    ensures (server.host.Some? && server.host.value != ""
             && TestEndpoint.ContainsAny(server.host.value, TestEndpoint.HostForbidden))
      ==> reply == TestEndpoint.Rejected("Invalid host format", 400)
    ensures var port := TestEndpoint.FromPage(if ports == [] then None else ports[choice]);
      TestEndpoint.HostAccepted(server.host) && !TestEndpoint.ContainsAny(custom, TestEndpoint.FlagForbidden)
      && NoBom(custom) ==>
      reply == TestEndpoint.Command(TestEndpoint.BaseCommand(server.host.value, port)
        + ((if reverse then ["-R"] else []) + (if ipv6 then ["-6"] else []) + PyText.Split(custom)))
    ensures TestEndpoint.HostAccepted(server.host) && TestEndpoint.ContainsAny(custom, TestEndpoint.FlagForbidden) ==>
      reply == TestEndpoint.Rejected("Invalid flags", 400)
    ensures var port := TestEndpoint.FromPage(if ports == [] then None else ports[choice]);
      TestEndpoint.HostAccepted(server.host) && !TestEndpoint.ContainsAny(custom, TestEndpoint.FlagForbidden) ==>
      reply == TestEndpoint.Command(TestEndpoint.BaseCommand(server.host.value, port)
        + PyText.Split(FormFlags(reverse, ipv6, custom)))
    ensures !TestEndpoint.HostAccepted(server.host) ==> reply.Rejected? && reply.error != "Invalid flags"
  {
    var req := TestForm.StartTest(server, ports, choice, reverse, ipv6, custom);
    var port := TestEndpoint.FromPage(req.port);
    reply := TestEndpoint.RunTest(req.host, port, Some(req.flags));
    if TestEndpoint.HostAccepted(server.host) {
      if TestEndpoint.ContainsAny(custom, TestEndpoint.FlagForbidden) {
        FormRefused(server.host, port, reverse, ipv6, custom);
      } else {
        FlagsForbiddenIff(reverse, ipv6, custom);
        TestEndpoint.AcceptedReply(server.host, port, req.flags);
        if NoBom(custom) {
          FormAccepted(server.host, port, reverse, ipv6, custom);
        }
      }
    }
  }
}
