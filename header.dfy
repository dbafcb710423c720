/** `parse_header`: the metadata that the header block of a bottle file
    carries (start time, source hex file, start position, cruise), found by
    case-insensitive markers tested in a fixed priority order. */
module Header {
  import opened Wrappers
  import opened PyText
  import opened ParseErrors

  type HeaderMap = map<string, string>

  /** The timestamp parse and reformat of the start time (`pd.to_datetime`
      followed by `strftime('%Y-%m-%dT%H:%M:%SZ')`): an opaque partial
      function, None where the parse raises. */
  type TimeParser = string -> Option<string>

  datatype Marker = Utc | HexName | Latitude | Longitude | CruiseId

  /** The markers in the order the header parser tests them. */
  const Priority: seq<Marker> := [Utc, HexName, Latitude, Longitude, CruiseId]

  /** The lower-case text whose presence selects the marker. */
  function Needle(m: Marker): string
  {
    match m
    case Utc => "nmea utc"
    case HexName => "filename"
    case Latitude => "nmea latitude"
    case Longitude => "nmea longitude"
    case CruiseId => "cruise id"
  }

  /** The dictionary key under which the marker's value is stored. */
  function Key(m: Marker): string
  {
    match m
    case Utc => "Start Time [UTC]"
    case HexName => "Filename"
    case Latitude => "Start Latitude [degrees]"
    case Longitude => "Start Longitude [degrees]"
    case CruiseId => "Cruise"
  }

  /** The `re.split` pattern for the marker's line, as its literal
      alternatives: `'= |\['`, `':'` or `'='`. */
  function Separators(m: Marker): seq<Sep>
  {
    match m
    case Utc => ["= ", "["]
    case CruiseId => [":"]
    case _ => ["="]
  }

  const HeaderKeys: set<string> :=
    {"Start Time [UTC]", "Filename", "Start Latitude [degrees]", "Start Longitude [degrees]", "Cruise"}

  predicate Mentions(line: string, m: Marker)
  {
    Contains(Lower(line), Needle(m))
  }

  /** The `if`/`elif` chain: the first marker, in priority order, that the
      line mentions. */
  function MarkerOf(line: string): Option<Marker>
  {
    if Mentions(line, Utc) then Some(Utc)
    else if Mentions(line, HexName) then Some(HexName)
    else if Mentions(line, Latitude) then Some(Latitude)
    else if Mentions(line, Longitude) then Some(Longitude)
    else if Mentions(line, CruiseId) then Some(CruiseId)
    else None
  }

  /** The value a line attributed to marker m carries: the second segment
      of its split, trimmed, or for the start time reformatted by the
      timestamp parser; the IndexError of a line without a second segment,
      or the parser's rejection. */
  function MarkerValue(m: Marker, line: string, toStamp: TimeParser): Result<string, ParseError>
  {
    var segments := Split(line, Separators(m));
    if |segments| < 2 then Err(MissingSegment(line))
    else if m == Utc then
      match toStamp(segments[1])
      case None => Err(BadTimestamp(segments[1]))
      case Some(stamp) => Ok(stamp)
    else Ok(Strip(segments[1]))
  }

  /** One iteration of the loop: a marker line stores its value under the
      marker's key; any other line changes nothing. */
  function HeaderStep(hdr: HeaderMap, line: string, toStamp: TimeParser): Result<HeaderMap, ParseError>
  {
    match MarkerOf(line)
    case None => Ok(hdr)
    case Some(m) =>
      match MarkerValue(m, line, toStamp)
      case Err(e) => Err(e)
      case Ok(v) => Ok(hdr[Key(m) := v])
  }

  /** The loop over the remaining header lines, from the dictionary so far. */
  function HeaderFrom(hdr: HeaderMap, lines: seq<string>, toStamp: TimeParser): Result<HeaderMap, ParseError>
    decreases |lines|
  {
    if lines == [] then Ok(hdr)
    else match HeaderStep(hdr, lines[0], toStamp)
      case Err(e) => Err(e)
      case Ok(next) => HeaderFrom(next, lines[1..], toStamp)
  }

  /** What `parse_header(header)` returns, or the exception it raises. */
  function HeaderOf(lines: seq<string>, toStamp: TimeParser): Result<HeaderMap, ParseError>
  {
    HeaderFrom(map[], lines, toStamp)
  }

  method ParseHeader(header: seq<string>, toStamp: TimeParser) returns (r: Result<HeaderMap, ParseError>)
    ensures r == HeaderOf(header, toStamp)
  {
    var hdr: HeaderMap := map[];
    var i := 0;
    while i < |header|
      invariant 0 <= i <= |header|
      invariant HeaderFrom(hdr, header[i..], toStamp) == HeaderOf(header, toStamp)
    {
      var line := header[i];
      assert header[i..][1..] == header[i + 1..];
      var marker := MarkerOf(line);
      if marker.Some? {
        var m := marker.value;
        var segments := Split(line, Separators(m));
        if |segments| < 2 {
          return Err(MissingSegment(line));
        }
        if m == Utc {
          var stamp := toStamp(segments[1]);
          if stamp.None? {
            return Err(BadTimestamp(segments[1]));
          }
          hdr := hdr[Key(m) := stamp.value];
        } else {
          hdr := hdr[Key(m) := Strip(segments[1])];
        }
      }
      i := i + 1;
    }
    r := Ok(hdr);
  }

  /** The parser produces only the five known keys. */
  lemma {:induction false} HeaderKeysFixed(hdr: HeaderMap, lines: seq<string>, toStamp: TimeParser)
    requires hdr.Keys <= HeaderKeys
    ensures HeaderFrom(hdr, lines, toStamp).Ok? ==> HeaderFrom(hdr, lines, toStamp).value.Keys <= HeaderKeys
    decreases |lines|
  {
    if lines != [] {
      match HeaderStep(hdr, lines[0], toStamp)
      case Err(_) =>
      case Ok(next) =>
        assert next.Keys <= HeaderKeys;
        HeaderKeysFixed(next, lines[1..], toStamp);
    }
  }

  /** The priority order: a line is attributed to marker m exactly when it
      mentions m and none of the markers tested before m. */
  lemma MarkerPriority(line: string, m: Marker, k: nat)
    requires k < |Priority| && Priority[k] == m
    ensures MarkerOf(line) == Some(m) <==>
      Mentions(line, m) && forall j :: 0 <= j < k ==> !Mentions(line, Priority[j])
  {
    EarlierUnmentioned(line, k);
    assert Priority[0] == Utc && Priority[1] == HexName && Priority[2] == Latitude;
    assert Priority[3] == Longitude && Priority[4] == CruiseId;
  }

  /** None of the first k markers is mentioned, spelled out marker by marker. */
  lemma EarlierUnmentioned(line: string, k: nat)
    requires k < |Priority|
    ensures (forall j :: 0 <= j < k ==> !Mentions(line, Priority[j])) <==>
      && (k > 0 ==> !Mentions(line, Utc))
      && (k > 1 ==> !Mentions(line, HexName))
      && (k > 2 ==> !Mentions(line, Latitude))
      && (k > 3 ==> !Mentions(line, Longitude))
  {
    assert Priority[0] == Utc && Priority[1] == HexName && Priority[2] == Latitude;
    assert Priority[3] == Longitude;
    if forall j :: 0 <= j < k ==> !Mentions(line, Priority[j]) {
      if k > 0 { assert !Mentions(line, Priority[0]); }
      if k > 1 { assert !Mentions(line, Priority[1]); }
      if k > 2 { assert !Mentions(line, Priority[2]); }
      if k > 3 { assert !Mentions(line, Priority[3]); }
    }
  }

  /** A line that is attributed to a marker overwrites that one key with
      the line's value and leaves every other key as it was; it fails
      exactly when the value does. */
  lemma StepStores(hdr: HeaderMap, line: string, toStamp: TimeParser, m: Marker)
    requires MarkerOf(line) == Some(m)
    ensures HeaderStep(hdr, line, toStamp).Ok? <==> MarkerValue(m, line, toStamp).Ok?
    ensures HeaderStep(hdr, line, toStamp).Ok? ==>
      var next := HeaderStep(hdr, line, toStamp).value;
      && next.Keys == hdr.Keys + {Key(m)}
      && next[Key(m)] == MarkerValue(m, line, toStamp).value
      && forall key :: key in hdr && key != Key(m) ==> next[key] == hdr[key]
  {
  }

  /** A marker line's value exists exactly when its split has a second
      segment (and, for the start time, the parser accepts it), and is that
      segment trimmed, or the parser's reformatting of it. */
  lemma ValueOfSegment(m: Marker, line: string, toStamp: TimeParser)
    ensures var segments := Split(line, Separators(m));
      && (MarkerValue(m, line, toStamp) == Err(MissingSegment(line)) <==> |segments| < 2)
      && (MarkerValue(m, line, toStamp).Ok? <==>
            |segments| >= 2 && (m == Utc ==> toStamp(segments[1]).Some?))
      && (MarkerValue(m, line, toStamp).Ok? && m != Utc ==>
            MarkerValue(m, line, toStamp).value == Strip(segments[1]))
      && (MarkerValue(m, line, toStamp).Ok? && m == Utc ==>
            toStamp(segments[1]) == Some(MarkerValue(m, line, toStamp).value))
  {
  }

  /** A line that mentions no marker leaves the dictionary unchanged. */
  lemma StepIgnores(hdr: HeaderMap, line: string, toStamp: TimeParser)
    requires forall m :: !Mentions(line, m)
    ensures HeaderStep(hdr, line, toStamp) == Ok(hdr)
  {
    assert !Mentions(line, Utc) && !Mentions(line, HexName) && !Mentions(line, Latitude);
    assert !Mentions(line, Longitude) && !Mentions(line, CruiseId);
  }

  /** Starting from a non-empty dictionary only adds what the parse from an
      empty one would store, later keys winning; whether the parse fails does
      not depend on the starting dictionary. */
  lemma {:induction false} HeaderFromOverlay(hdr: HeaderMap, lines: seq<string>, toStamp: TimeParser)
    ensures HeaderFrom(hdr, lines, toStamp) ==
      match HeaderOf(lines, toStamp)
      case Err(e) => Err(e)
      case Ok(found) => Ok(hdr + found)
    decreases |lines|
  {
    if lines == [] {
      assert hdr + map[] == hdr;
    } else {
      var line, rest := lines[0], lines[1..];
      StepOverlay(hdr, line, toStamp);
      match HeaderStep(map[], line, toStamp)
      case Err(e) =>
      case Ok(single) =>
        var next := hdr + single;
        HeaderFromOverlay(next, rest, toStamp);
        HeaderFromOverlay(single, rest, toStamp);
        match HeaderOf(rest, toStamp)
        case Err(e) =>
        case Ok(tail) =>
          OverlayAssoc(hdr, single, tail);
    }
  }

  lemma OverlayAssoc(a: HeaderMap, b: HeaderMap, c: HeaderMap)
    ensures (a + b) + c == a + (b + c)
  {
  }

  lemma StepOverlay(hdr: HeaderMap, line: string, toStamp: TimeParser)
    ensures HeaderStep(hdr, line, toStamp) ==
      match HeaderStep(map[], line, toStamp)
      case Err(e) => Err(e)
      case Ok(single) => Ok(hdr + single)
  {
    match MarkerOf(line)
    case None =>
      assert hdr + map[] == hdr;
    case Some(m) =>
      match MarkerValue(m, line, toStamp)
      case Err(_) =>
      case Ok(v) =>
        UpdateIsOverlay(hdr, Key(m), v);
  }

  lemma UpdateIsOverlay(hdr: HeaderMap, key: string, v: string)
    ensures hdr[key := v] == hdr + map[][key := v]
  {
  }

  /** Parsing the header block twice over gives the same metadata as parsing
      it once: every key ends with the value of its last marker line. */
  lemma HeaderTwice(lines: seq<string>, toStamp: TimeParser)
    ensures HeaderOf(lines + lines, toStamp) == HeaderOf(lines, toStamp)
  {
    HeaderFromConcat(map[], lines, lines, toStamp);
    match HeaderOf(lines, toStamp)
    case Err(e) =>
    case Ok(once) =>
      HeaderFromOverlay(once, lines, toStamp);
      assert once + once == once;
  }

  lemma {:induction false} HeaderFromConcat(hdr: HeaderMap, a: seq<string>, b: seq<string>, toStamp: TimeParser)
    ensures HeaderFrom(hdr, a + b, toStamp) ==
      match HeaderFrom(hdr, a, toStamp)
      case Err(e) => Err(e)
      case Ok(mid) => HeaderFrom(mid, b, toStamp)
    decreases |a|
  {
    if a == [] {
      assert a + b == b;
    } else {
      assert (a + b)[0] == a[0] && (a + b)[1..] == a[1..] + b;
      match HeaderStep(hdr, a[0], toStamp)
      case Err(e) =>
      case Ok(next) => HeaderFromConcat(next, a[1..], b, toStamp);
    }
  }
}
