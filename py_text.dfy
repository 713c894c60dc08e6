/** The pieces of Python's string semantics the backend relies on: white
    space as `str.split()` with no argument sees it, that split itself, and
    `str.lower()`. */
module PyText {
  import JsText
  import Strings

  /** Characters for which `str.isspace()` holds: tab, line feed, vertical tab,
      form feed, carriage return, the file/group/record/unit separators
      U+001C..U+001F, space, U+0085, and the Unicode space separators and
      line/paragraph separators. */
  predicate IsPyWhite(c: char) {
    var n := c as int;
    (9 <= n <= 13) || (0x1C <= n <= 0x20) || n == 0x85 || n == 0xA0 || n == 0x1680
    || (0x2000 <= n <= 0x200A) || n == 0x2028 || n == 0x2029 || n == 0x202F || n == 0x205F
    || n == 0x3000
  }

  predicate NoPyWhite(s: string) {
    forall i :: 0 <= i < |s| ==> !IsPyWhite(s[i])
  }

  predicate AllPyWhite(s: string) {
    forall i :: 0 <= i < |s| ==> IsPyWhite(s[i])
  }

  /** The word being collected, emitted if it is not empty. */
  function Flush(cur: string): seq<string> {
    if cur == [] then [] else [cur]
  }

  /** The words of `s`, given the partial word `cur` collected before it. */
  function Words(s: string, cur: string): (ws: seq<string>)
    requires NoPyWhite(cur)
    ensures forall j :: 0 <= j < |ws| ==> ws[j] != [] && NoPyWhite(ws[j])
    decreases |s|
  {
    if s == [] then Flush(cur)
    else if IsPyWhite(s[0]) then Flush(cur) + Words(s[1..], [])
    else Words(s[1..], cur + [s[0]])
  }

  /** `s.split()`: the maximal runs of non-white characters, in order. */
  function Split(s: string): (ws: seq<string>)
    ensures forall j :: 0 <= j < |ws| ==> ws[j] != [] && NoPyWhite(ws[j])
  {
    Words(s, [])
  }

  /** A run of non-white characters, after a partial word, is one word. */
  lemma {:induction false} WordsOfWord(w: string, cur: string)
    requires NoPyWhite(cur) && NoPyWhite(w) && cur + w != []
    ensures Words(w, cur) == [cur + w]
    decreases |w|
  {
    if w == [] {
      assert cur + w == cur;
    } else {
      assert (cur + [w[0]]) + w[1..] == cur + w;
      WordsOfWord(w[1..], cur + [w[0]]);
    }
  }

  /** A non-empty text with no white space splits into itself alone. */
  lemma SplitWord(w: string)
    requires w != [] && NoPyWhite(w)
    ensures Split(w) == [w]
  {
    WordsOfWord(w, []);
    assert [] + w == w;
  }

  /** The words put back together, with nothing between them. */
  function Glued(ws: seq<string>): string
    decreases |ws|
  {
    if ws == [] then [] else ws[0] + Glued(ws[1..])
  }

  /** The characters of `s` that are not white space, in order. */
  function NonWhite(s: string): (r: string)
    ensures NoPyWhite(r)
    decreases |s|
  {
    if s == [] then [] else (if IsPyWhite(s[0]) then [] else [s[0]]) + NonWhite(s[1..])
  }

  lemma {:induction false} GluedAppend(a: seq<string>, b: seq<string>)
    ensures Glued(a + b) == Glued(a) + Glued(b)
    decreases |a|
  {
    if a == [] {
      assert a + b == b;
    } else {
      assert (a + b)[1..] == a[1..] + b;
      GluedAppend(a[1..], b);
    }
  }

  lemma GluedFlush(cur: string)
    ensures Glued(Flush(cur)) == cur
  {
    if cur != [] {
      assert Glued([cur]) == cur + Glued([cur][1..]);
      assert [cur][1..] == [];
    }
  }

  /** The words, after a partial word, hold that partial word and then every
      non-white character of the text, in order: nothing is lost. */
  lemma {:induction false} WordsKeepText(s: string, cur: string)
    requires NoPyWhite(cur)
    ensures Glued(Words(s, cur)) == cur + NonWhite(s)
    decreases |s|
  {
    GluedFlush(cur);
    if s == [] {
      assert cur + NonWhite(s) == cur + [];
    } else if IsPyWhite(s[0]) {
      var rest := Words(s[1..], []);
      assert Words(s, cur) == Flush(cur) + rest;
      assert NonWhite(s) == [] + NonWhite(s[1..]);
      WordsKeepText(s[1..], []);
      GluedAppend(Flush(cur), rest);
    } else {
      var next := cur + [s[0]];
      assert Words(s, cur) == Words(s[1..], next);
      assert NonWhite(s) == [s[0]] + NonWhite(s[1..]);
      WordsKeepText(s[1..], next);
      JsText.Regroup(cur + ([s[0]] + NonWhite(s[1..])), cur, [s[0]], NonWhite(s[1..]));
    }
  }

  /** `s.split()` keeps every non-white character of `s`, in order. */
  lemma SplitKeepsText(s: string)
    ensures Glued(Split(s)) == NonWhite(s)
  {
    WordsKeepText(s, []);
    assert [] + NonWhite(s) == NonWhite(s);
  }

  /** Every character of a word comes from the text or the partial word. */
  lemma {:induction false} WordsChars(s: string, cur: string, j: nat, c: char)
    requires NoPyWhite(cur)
    requires j < |Words(s, cur)| && c in Words(s, cur)[j]
    ensures c in s || c in cur
    decreases |s|
  {
    if s != [] {
      if IsPyWhite(s[0]) {
        if j >= |Flush(cur)| {
          WordsChars(s[1..], [], j - |Flush(cur)|, c);
        }
      } else {
        WordsChars(s[1..], cur + [s[0]], j, c);
      }
    }
  }

  /** The words of pieces joined by single spaces are the words of the
      pieces, in order. */
  lemma {:induction false} SplitJoinedBySpaces(parts: seq<string>)
    ensures Split(Strings.JoinWith(parts, ' ')) == ConcatWords(parts)
    decreases |parts|
  {
    if |parts| >= 2 {
      SplitJoinedBySpaces(parts[1..]);
      WordsAroundWhite(parts[0], ' ', Strings.JoinWith(parts[1..], ' '), []);
    } else if |parts| == 1 {
      assert ConcatWords(parts) == Split(parts[0]) + ConcatWords([]);
    }
  }

  /** The words of every piece, one piece after another. */
  function ConcatWords(parts: seq<string>): seq<string>
    decreases |parts|
  {
    if parts == [] then [] else Split(parts[0]) + ConcatWords(parts[1..])
  }

  /** A white character separates the words before it from those after it. */
  lemma {:induction false} WordsAroundWhite(a: string, c: char, b: string, cur: string)
    requires NoPyWhite(cur) && IsPyWhite(c)
    ensures Words(a + [c] + b, cur) == Words(a, cur) + Words(b, [])
    decreases |a|
  {
    if a == [] {
      assert a + [c] + b == [c] + b;
    } else {
      assert (a + [c] + b)[0] == a[0];
      assert (a + [c] + b)[1..] == a[1..] + [c] + b;
      if IsPyWhite(a[0]) {
        WordsAroundWhite(a[1..], c, b, []);
      } else {
        WordsAroundWhite(a[1..], c, b, cur + [a[0]]);
      }
    }
  }

  /** Leading white space contributes no word. */
  lemma {:induction false} WordsAfterWhite(w: string, t: string)
    requires AllPyWhite(w)
    ensures Words(w + t, []) == Words(t, [])
    decreases |w|
  {
    if w != [] {
      assert (w + t)[1..] == w[1..] + t;
      WordsAfterWhite(w[1..], t);
    } else {
      assert w + t == t;
    }
  }

  /** Trailing white space contributes no word. */
  lemma WordsBeforeWhite(t: string, w: string, cur: string)
    requires AllPyWhite(w) && NoPyWhite(cur)
    ensures Words(t + w, cur) == Words(t, cur)
  {
    if w == [] {
      assert t + w == t;
    } else {
      assert t + w == t + [w[0]] + w[1..];
      WordsAroundWhite(t, w[0], w[1..], cur);
      WordsAfterWhite(w[1..], []);
      assert w[1..] + [] == w[1..];
    }
  }

  /** Every JavaScript white-space character but U+FEFF is white space to
      Python too. */
  lemma JsWhiteIsPyWhite(w: string)
    requires forall i :: 0 <= i < |w| ==> JsText.IsJsWhite(w[i]) && w[i] as int != 0xFEFF
    ensures AllPyWhite(w)
  {
  }

  /** What `trim` removes from text without U+FEFF is white space to Python
      as well. */
  lemma TrimmedPyWhite(s: string) returns (lead: string, trail: string)
    requires forall i :: 0 <= i < |s| ==> s[i] as int != 0xFEFF
    ensures s == lead + JsText.Trim(s) + trail
    ensures AllPyWhite(lead) && AllPyWhite(trail)
  {
    lead, trail := JsText.TrimParts(s);
    var r := JsText.Trim(s);
    forall i | 0 <= i < |lead| ensures lead[i] as int != 0xFEFF {
      assert lead[i] == s[i];
    }
    forall i | 0 <= i < |trail| ensures trail[i] as int != 0xFEFF {
      assert trail[i] == s[|lead| + |r| + i];
    }
    JsWhiteIsPyWhite(lead);
    JsWhiteIsPyWhite(trail);
  }

  /** JavaScript's `trim` before Python's `split()` changes nothing, as long as
      the text holds no U+FEFF (white space to JavaScript, not to Python). */
  lemma SplitOfTrim(s: string)
    requires forall i :: 0 <= i < |s| ==> s[i] as int != 0xFEFF
    ensures Split(JsText.Trim(s)) == Split(s)
  {
    var lead, trail := TrimmedPyWhite(s);
    var r := JsText.Trim(s);
    JsText.Ungroup(s, lead, r, trail);
    WordsAfterWhite(lead, r + trail);
    WordsBeforeWhite(r, trail, []);
  }

  // ---------------------------------------------------------------------------
  // str.lower()
  // ---------------------------------------------------------------------------

  /** Lower case of one character: A..Z and the Latin-1 capitals U+00C0..U+00DE
      (except the multiplication sign U+00D7) move down by 0x20. */
  function LowerChar(c: char): char {
    var n := c as int;
    if ('A' as int <= n <= 'Z' as int) || (0xC0 <= n <= 0xDE && n != 0xD7) then (n + 0x20) as char
    else c
  }

  /** `s.lower()`. */
  function Lower(s: string): (r: string)
    ensures |r| == |s|
  {
    seq(|s|, i requires 0 <= i < |s| => LowerChar(s[i]))
  }

  /** Lower-casing is idempotent: a lowered character is lowered to itself. */
  lemma LowerIdempotent(s: string)
    ensures Lower(Lower(s)) == Lower(s)
    ensures forall i :: 0 <= i < |s| ==> !('A' <= Lower(s)[i] <= 'Z')
  {
  }
}
