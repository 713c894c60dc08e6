/** The port list offered when a server is selected (static/script.js,
    `openTestModal`): a server's `PORT` text becomes the ordered list of
    candidate ports shown in the port drop-down. `None` entries are `NaN`. */
module PortSpec {
  import opened Options
  import opened Strings
  import opened JsText

  /** iperf3's default port, used when a server advertises none. */
  const DefaultPort: int := 5201

  /** The range loop stops once the list is longer than this. */
  const RangeLimit: nat := 20

  function Min(a: int, b: int): int {
    if a <= b then a else b
  }

  /** How many ports the range loop collects from `start` to `end`: none when
      either bound is `NaN` or the range is reversed, otherwise the whole range
      but at most `RangeLimit + 1`, because the loop pushes a port before it
      tests the length. */
  function RangeLength(start: Option<int>, end: Option<int>): nat {
    if start.None? || end.None? || start.value > end.value then 0
    else Min(end.value - start.value + 1, RangeLimit + 1)
  }

  /** `ports` is the run `start, start + 1, ...` of `RangeLength(start, end)`
      numbers. */
  predicate IsRunFrom(start: Option<int>, end: Option<int>, ports: seq<Option<int>>) {
    && |ports| == RangeLength(start, end)
    && forall i :: 0 <= i < |ports| ==> start.Some? && ports[i] == Some(start.value + i)
  }

  /** The `for (let p = start; p <= end; p++)` loop with its `break`. A `NaN`
      bound makes `p <= end` false at once. */
  method ExpandRange(start: Option<int>, end: Option<int>) returns (ports: seq<Option<int>>)
    ensures start.None? || end.None? || start.value > end.value ==> ports == []
    ensures |ports| <= RangeLimit + 1
    ensures IsRunFrom(start, end, ports)
  {
    ports := [];
    if start.Some? && end.Some? {
      var p := start.value;
      while p <= end.value
        invariant p == start.value + |ports| && |ports| <= RangeLimit
        invariant ports != [] ==> p <= end.value + 1
        invariant forall i :: 0 <= i < |ports| ==> ports[i] == Some(start.value + i)
      {
        ports := ports + [Some(p)];
        if |ports| > RangeLimit {
          break;
        }
        p := p + 1;
      }
    }
  }

  /** The ports offered for a server whose `PORT` field is `portSpec`
      (`None` when the field is absent). The first rule that applies wins:
      an absent or empty field gives the default port; text containing `-`
      is a range `start-end` read from the first two `-`-separated pieces;
      text containing `,` is a list, each piece trimmed and parsed, `NaN`
      kept; anything else is parsed as one number. */
  method PortSelection(portSpec: Option<string>) returns (ports: seq<Option<int>>)
    ensures portSpec.None? || portSpec.value == "" ==> ports == [Some(DefaultPort)]
    ensures portSpec.Some? && '-' in portSpec.value ==>
      var parts := SplitOn(portSpec.value, '-');
      IsRunFrom(ParseInt(parts[0]), ParseInt(parts[1]), ports)
    ensures portSpec.Some? && '-' !in portSpec.value && ',' in portSpec.value ==>
      var parts := SplitOn(portSpec.value, ',');
      && |ports| == |parts|
      && forall i :: 0 <= i < |parts| ==> ports[i] == ParseInt(Trim(parts[i]))
    ensures portSpec.Some? && portSpec.value != "" && '-' !in portSpec.value && ',' !in portSpec.value ==>
      ports == [ParseInt(portSpec.value)]
  {
    if portSpec.Some? && portSpec.value != "" {
      var spec := portSpec.value;
      if '-' in spec {
        var parts := SplitOn(spec, '-');
        ports := ExpandRange(ParseInt(parts[0]), ParseInt(parts[1]));
      } else if ',' in spec {
        var parts := SplitOn(spec, ',');
        ports := seq(|parts|, i requires 0 <= i < |parts| => ParseInt(Trim(parts[i])));
      } else {
        ports := [ParseInt(spec)];
      }
    } else {
      ports := [Some(DefaultPort)];
    }
  }
}
