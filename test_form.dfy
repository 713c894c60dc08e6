/** The test form (static/script.js, `startBtn.onclick`): the flags text and
    the request body sent to `/api/test` when "Run iperf3 Test" is pressed. */
module TestForm {
  import opened Options
  import opened Strings
  import opened JsText
  import ServerMap

  /** The words the form contributes, in order: `-R` when reverse mode is
      checked, `-6` when IPv6 is checked, and the custom text when it is not
      empty. */
  function FlagWords(reverse: bool, ipv6: bool, custom: string): seq<string> {
    (if reverse then ["-R"] else []) + (if ipv6 then ["-6"] else []) + (if custom != "" then [custom] else [])
  }

  /** Each word preceded by a space, the way `flags +=` appends them. */
  function Appended(words: seq<string>): string
    decreases |words|
  {
    if words == [] then "" else " " + words[0] + Appended(words[1..])
  }

  lemma {:induction false} AppendedConcat(a: seq<string>, b: seq<string>)
    ensures Appended(a + b) == Appended(a) + Appended(b)
    decreases |a|
  {
    if a == [] {
      assert a + b == b;
    } else {
      assert (a + b)[1..] == a[1..] + b;
      AppendedConcat(a[1..], b);
    }
  }

  /** A single word is appended as a space and the word. */
  lemma AppendedOne(w: string)
    ensures Appended([w]) == " " + w
  {
    assert [w][1..] == [];
  }

  lemma {:induction false} AppendedIsJoin(words: seq<string>)
    requires words != []
    ensures Appended(words) == " " + JoinWith(words, ' ')
    decreases |words|
  {
    var rest := words[1..];
    if rest == [] {
      assert Appended(words) == " " + words[0] + "";
    } else {
      AppendedIsJoin(rest);
      var j := JoinWith(rest, ' ');
      assert Appended(words) == " " + words[0] + (" " + j);
      assert JoinWith(words, ' ') == words[0] + [' '] + j;
      assert " " + words[0] + (" " + j) == " " + (words[0] + [' '] + j);
    }
  }

  /** The first and last characters of a join of non-empty pieces are those
      of its first and last piece. */
  lemma {:induction false} JoinEnds(parts: seq<string>)
    requires parts != [] && forall i :: 0 <= i < |parts| ==> parts[i] != []
    ensures var j := JoinWith(parts, ' ');
      j != [] && j[0] == parts[0][0] && j[|j| - 1] == parts[|parts| - 1][|parts[|parts| - 1]| - 1]
    decreases |parts|
  {
    if |parts| >= 2 {
      JoinEnds(parts[1..]);
    }
  }

  /** With no white space at the ends of the custom text, the joined words
      have none at their ends either, so trimming keeps them as they are. */
  lemma JoinedFlagsClean(reverse: bool, ipv6: bool, custom: string)
    requires custom == [] || (!IsJsWhite(custom[0]) && !IsJsWhite(custom[|custom| - 1]))
    ensures Trim(JoinWith(FlagWords(reverse, ipv6, custom), ' ')) == JoinWith(FlagWords(reverse, ipv6, custom), ' ')
  {
    var words := FlagWords(reverse, ipv6, custom);
    if words != [] {
      assert forall i :: 0 <= i < |words| ==> words[i] != [];
      JoinEnds(words);
      var first := words[0];
      var last := words[|words| - 1];
      var j := JoinWith(words, ' ');
      assert j[0] == first[0];
      assert j[|j| - 1] == last[|last| - 1];
      assert first == "-R" || first == "-6" || first == custom;
      assert last == "-R" || last == "-6" || last == custom;
      assert !IsJsWhite(j[0]) && !IsJsWhite(j[|j| - 1]);
    }
  }

  /** `flags` is built with `+=` from " -R", " -6" and " " + the custom text,
      then trimmed. The result is the form's words joined by single spaces and
      trimmed; when the custom text has no white space at its ends, the
      trimming removes nothing. */
  method BuildFlags(reverse: bool, ipv6: bool, custom: string) returns (flags: string)
    ensures flags == Trim(JoinWith(FlagWords(reverse, ipv6, custom), ' '))
    ensures custom == [] || (!IsJsWhite(custom[0]) && !IsJsWhite(custom[|custom| - 1])) ==>
      flags == JoinWith(FlagWords(reverse, ipv6, custom), ' ')
  {
    var r: seq<string> := if reverse then ["-R"] else [];
    var v: seq<string> := if ipv6 then ["-6"] else [];
    var c: seq<string> := if custom != "" then [custom] else [];
    var f := "";
    if reverse {
      f := f + " -R";
      AppendedOne("-R");
    }
    assert f == Appended(r);
    if ipv6 {
      f := f + " -6";
      AppendedOne("-6");
    }
    assert f == Appended(r) + Appended(v);
    AppendedConcat(r, v);
    if custom != "" {
      f := f + " " + custom;
      AppendedOne(custom);
    }
    assert f == Appended(r + v) + Appended(c);
    AppendedConcat(r + v, c);
    var words := FlagWords(reverse, ipv6, custom);
    assert words == r + v + c;
    var joined := JoinWith(words, ' ');
    if words != [] {
      AppendedIsJoin(words);
      TrimAfterWhite(' ', joined);
    }
    flags := Trim(f);
    if custom == [] || (!IsJsWhite(custom[0]) && !IsJsWhite(custom[|custom| - 1])) {
      JoinedFlagsClean(reverse, ipv6, custom);
    }
  }

  /** The body posted to `/api/test`. `port` is `None` for `NaN`, which
      `JSON.stringify` sends as `null`; `host` is `None` when the server has
      no `IP/HOST`, which `JSON.stringify` leaves out. */
  datatype TestRequest = TestRequest(host: Option<string>, port: Option<int>, flags: string)

  /** `portSelect.value`: the text of the chosen option, or "" when the list
      of ports is empty and the drop-down has no option. */
  function SelectValue(ports: seq<Option<int>>, choice: nat): string
    requires ports == [] || choice < |ports|
  {
    if ports == [] then "" else NumberToString(ports[choice])
  }

  /** The request for a test against `server`, with option `choice` of the
      port list `ports` selected. The chosen port reaches the request
      unchanged, `NaN` arriving as `null`; with no option at all, the port is
      `null`. */
  method StartTest(server: ServerMap.Server, ports: seq<Option<int>>, choice: nat,
                   reverse: bool, ipv6: bool, custom: string) returns (req: TestRequest)
    requires ports == [] || choice < |ports|
    ensures req.host == server.host
    ensures req.port == if ports == [] then None else ports[choice]
    ensures req.flags == Trim(JoinWith(FlagWords(reverse, ipv6, custom), ' '))
  {
    var selectedPort := ParseInt(SelectValue(ports, choice));
    if ports != [] {
      ParseNumberToString(ports[choice]);
    } else {
      assert DigitRun("", 10) == 0;
    }
    var flags := BuildFlags(reverse, ipv6, custom);
    req := TestRequest(server.host, selectedPort, flags);
  }

  /** The example of the form's placeholder: reverse mode with custom flags
      "-u -b 10M" sends "-R -u -b 10M". */
  lemma ReverseWithCustomFlags()
    ensures Trim(JoinWith(FlagWords(true, false, "-u -b 10M"), ' ')) == "-R -u -b 10M"
  {
    var joined := JoinWith(FlagWords(true, false, "-u -b 10M"), ' ');
    assert joined == "-R -u -b 10M";
  }
}
