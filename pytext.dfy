/** The handful of Python string operations the bottle-file parser is built
    from: `str.strip`, `str.split()`, `re.split` on literal alternatives,
    `str.join`, `in`, `startswith`/`endswith`, `lower`, `zfill`, `index`,
    slicing and `str(int)`. */
module PyText {
  import opened Wrappers

  /** A non-empty literal separator: one alternative of an `re.split` pattern,
      or the argument of `str.split(sep)`. */
  type Sep = s: string | |s| > 0 witness "."

  /** `str.isspace` of one code point: the characters that `str.strip()` and
      `str.split()` treat as whitespace. */
  predicate IsSpace(c: char)
  {
    var n := c as int;
    (9 <= n <= 13) || (28 <= n <= 32) || n == 0x85 || n == 0xA0 || n == 0x1680
    || (0x2000 <= n <= 0x200A) || n == 0x2028 || n == 0x2029 || n == 0x202F
    || n == 0x205F || n == 0x3000
  }

  /** A character that `float(c)` accepts on its own: a decimal digit. */
  predicate IsDigit(c: char)
  {
    '0' <= c <= '9'
  }

  predicate StartsWith(s: string, p: string)
  {
    |p| <= |s| && s[..|p|] == p
  }

  predicate EndsWith(s: string, p: string)
  {
    |p| <= |s| && s[|s| - |p|..] == p
  }

  /** `t in s`: t occurs in s at some position. */
  predicate Contains(s: string, t: string)
    decreases |s|
  {
    StartsWith(s, t) || (|s| > 0 && Contains(s[1..], t))
  }

  /** An occurrence at some position is an occurrence: the converse of
      NotContains. */
  lemma {:induction false} ContainsAt(s: string, t: string, i: nat)
    requires i <= |s| && StartsWith(s[i..], t)
    ensures Contains(s, t)
  {
    if i > 0 {
      assert s[1..][i - 1..] == s[i..];
      ContainsAt(s[1..], t, i - 1);
    }
  }

  /** Text with no occurrence at any position does not contain t. */
  lemma {:induction false} NotContains(s: string, t: string)
    requires forall i :: 0 <= i <= |s| && |t| <= |s| - i ==> !StartsWith(s[i..], t)
    ensures !Contains(s, t)
  {
    assert s[0..] == s;
    if |s| > 0 {
      forall i | 0 <= i <= |s| - 1 && |t| <= |s| - 1 - i
        ensures !StartsWith(s[1..][i..], t)
      {
        assert s[1..][i..] == s[i + 1..];
      }
      NotContains(s[1..], t);
    }
  }

  function LowerChar(c: char): char
  {
    if 'A' <= c <= 'Z' then (c as int + 32) as char else c
  }

  /** `str.lower()`, on the ASCII letters. */
  function Lower(s: string): (r: string)
    ensures |r| == |s|
    ensures forall i :: 0 <= i < |s| ==> r[i] == LowerChar(s[i])
  {
    seq(|s|, i requires 0 <= i < |s| => LowerChar(s[i]))
  }

  predicate AllSpace(s: string)
  {
    forall i :: 0 <= i < |s| ==> IsSpace(s[i])
  }

  /** `str.lstrip()`: drops the leading whitespace. */
  function TrimStart(s: string): (r: string)
    ensures |r| <= |s| && r == s[|s| - |r|..]
    ensures AllSpace(s[..|s| - |r|])
    ensures r == [] || !IsSpace(r[0])
  {
    if s == [] || !IsSpace(s[0]) then s else TrimStart(s[1..])
  }

  /** `str.rstrip()`: drops the trailing whitespace. */
  function TrimEnd(s: string): (r: string)
    ensures |r| <= |s| && r == s[..|r|]
    ensures AllSpace(s[|r|..])
    ensures r == [] || !IsSpace(r[|r| - 1])
  {
    if s == [] || !IsSpace(s[|s| - 1]) then s else TrimEnd(s[..|s| - 1])
  }

  /** `str.strip()`: the text between the leading and the trailing whitespace. */
  function Strip(s: string): (r: string)
    ensures |r| <= |s|
    ensures r == [] || (!IsSpace(r[0]) && !IsSpace(r[|r| - 1]))
  {
    TrimEnd(TrimStart(s))
  }

  /** Strip gives back exactly the text a caller padded with whitespace. */
  lemma {:induction false} StripPadded(a: string, m: string, b: string)
    requires AllSpace(a) && AllSpace(b)
    requires m == [] || (!IsSpace(m[0]) && !IsSpace(m[|m| - 1]))
    ensures Strip(a + m + b) == m
  {
    if m == [] {
      assert a + m + b == (a + b) + [];
      assert AllSpace(a + b);
      TrimStartPadded(a + b, []);
    } else {
      assert a + m + b == a + (m + b);
      TrimStartPadded(a, m + b);
      TrimEndPadded(m, b);
    }
  }

  lemma {:induction false} TrimStartPadded(a: string, rest: string)
    requires AllSpace(a)
    requires rest == [] || !IsSpace(rest[0])
    ensures TrimStart(a + rest) == rest
  {
    if a != [] {
      assert (a + rest)[1..] == a[1..] + rest;
      TrimStartPadded(a[1..], rest);
    } else {
      assert a + rest == rest;
    }
  }

  lemma {:induction false} TrimEndPadded(m: string, b: string)
    requires AllSpace(b)
    requires m != [] && !IsSpace(m[|m| - 1])
    ensures TrimEnd(m + b) == m
  {
    if b != [] {
      var n := |m + b|;
      assert (m + b)[..n - 1] == m + b[..|b| - 1];
      TrimEndPadded(m, b[..|b| - 1]);
    } else {
      assert m + b == m;
    }
  }

  /** Length of the run of non-whitespace characters at the start of s. */
  function WordLength(s: string): (n: nat)
    ensures n <= |s|
    ensures forall i :: 0 <= i < n ==> !IsSpace(s[i])
    ensures n == |s| || IsSpace(s[n])
  {
    if s == [] || IsSpace(s[0]) then 0 else 1 + WordLength(s[1..])
  }

  predicate IsWord(w: string)
  {
    |w| > 0 && forall i :: 0 <= i < |w| ==> !IsSpace(w[i])
  }

  /** `str.split()` with no argument: the maximal runs of non-whitespace. */
  function Tokens(s: string): (r: seq<string>)
    ensures forall t :: t in r ==> IsWord(t)
    decreases |s|
  {
    if s == [] then []
    else if IsSpace(s[0]) then Tokens(s[1..])
    else
      var n := WordLength(s);
      [s[..n]] + Tokens(s[n..])
  }

  /** `sep.join(xs)`. */
  function Join(xs: seq<string>, sep: string): (r: string)
  {
    if |xs| == 0 then []
    else if |xs| == 1 then xs[0]
    else Join(xs[..|xs| - 1], sep) + sep + xs[|xs| - 1]
  }

  lemma {:induction false} JoinCons(x: string, xs: seq<string>, sep: string)
    requires |xs| > 0
    ensures Join([x] + xs, sep) == x + sep + Join(xs, sep)
  {
    var ys := [x] + xs;
    if |xs| == 1 {
      assert ys[..1] == [x];
    } else {
      assert ys[..|ys| - 1] == [x] + xs[..|xs| - 1];
      JoinCons(x, xs[..|xs| - 1], sep);
    }
  }

  /** Splitting words joined by single spaces gives the words back. */
  lemma {:induction false} TokensOfJoin(ws: seq<string>)
    requires forall w :: w in ws ==> IsWord(w)
    ensures Tokens(Join(ws, " ")) == ws
    decreases |ws|
  {
    if |ws| == 0 {
    } else if |ws| == 1 {
      TokensOfWord(ws[0], []);
      assert ws[0] + [] == ws[0];
    } else {
      var rest := Join(ws[1..], " ");
      assert ws == [ws[0]] + ws[1..];
      JoinCons(ws[0], ws[1..], " ");
      assert Join(ws, " ") == ws[0] + (" " + rest);
      TokensOfWord(ws[0], " " + rest);
      assert (" " + rest)[0] == ' ' && (" " + rest)[1..] == rest;
      assert Tokens(" " + rest) == Tokens(rest);
      TokensOfJoin(ws[1..]);
    }
  }

  lemma {:induction false} TokensOfWord(w: string, rest: string)
    requires IsWord(w)
    requires rest == [] || IsSpace(rest[0])
    ensures Tokens(w + rest) == [w] + Tokens(rest)
  {
    WordLengthOf(w, rest);
    assert (w + rest)[..|w|] == w;
    assert (w + rest)[|w|..] == rest;
  }

  lemma {:induction false} WordLengthOf(w: string, rest: string)
    requires forall i :: 0 <= i < |w| ==> !IsSpace(w[i])
    requires rest == [] || IsSpace(rest[0])
    ensures WordLength(w + rest) == |w|
  {
    if w != [] {
      assert (w + rest)[1..] == w[1..] + rest;
      WordLengthOf(w[1..], rest);
    } else {
      assert w + rest == rest;
    }
  }

  /** Words with whitespace gaps around and between them:
      `gaps[0] + ws[0] + gaps[1] + ... + ws[|ws| - 1] + gaps[|ws|]`. */
  function Spaced(gaps: seq<string>, ws: seq<string>): string
    requires |gaps| == |ws| + 1
    decreases |ws|
  {
    if ws == [] then gaps[0] else gaps[0] + (ws[0] + Spaced(gaps[1..], ws[1..]))
  }

  /** `str.split()` on any text: words separated by non-empty runs of
      whitespace, with whitespace or nothing at either end, split into
      exactly those words, in order. */
  lemma {:induction false} TokensOfSpaced(gaps: seq<string>, ws: seq<string>)
    requires |gaps| == |ws| + 1
    requires forall g :: g in gaps ==> AllSpace(g)
    requires forall i :: 0 < i < |ws| ==> gaps[i] != []
    requires forall w :: w in ws ==> IsWord(w)
    ensures Tokens(Spaced(gaps, ws)) == ws
    decreases |ws|
  {
    if ws == [] {
      TokensSkipSpace(gaps[0], []);
      assert gaps[0] + [] == gaps[0];
    } else {
      var rest := Spaced(gaps[1..], ws[1..]);
      TokensSkipSpace(gaps[0], ws[0] + rest);
      SpacedStart(gaps[1..], ws[1..]);
      TokensOfWord(ws[0], rest);
      TokensOfSpaced(gaps[1..], ws[1..]);
      assert ws == [ws[0]] + ws[1..];
    }
  }

  /** The text after a word starts with whitespace, or is empty. */
  lemma SpacedStart(gaps: seq<string>, ws: seq<string>)
    requires |gaps| == |ws| + 1
    requires AllSpace(gaps[0]) && (ws != [] ==> gaps[0] != [])
    ensures Spaced(gaps, ws) == [] || IsSpace(Spaced(gaps, ws)[0])
  {
  }

  /** Leading whitespace yields no token. */
  lemma {:induction false} TokensSkipSpace(g: string, rest: string)
    requires AllSpace(g)
    ensures Tokens(g + rest) == Tokens(rest)
    decreases |g|
  {
    if g != [] {
      assert (g + rest)[0] == g[0];
      assert (g + rest)[1..] == g[1..] + rest;
      TokensSkipSpace(g[1..], rest);
    } else {
      assert g + rest == rest;
    }
  }

  /** Length of the first separator (in pattern order) that starts s, or 0
      when none does: one step of a regular-expression alternation. */
  function MatchAt(s: string, seps: seq<Sep>): (n: nat)
    ensures n <= |s|
    ensures n > 0 ==> s[..n] in seps
    ensures n == 0 ==> forall sep :: sep in seps ==> !StartsWith(s, sep)
  {
    if seps == [] then 0
    else if StartsWith(s, seps[0]) then |seps[0]|
    else MatchAt(s, seps[1..])
  }

  /** `re.split(p, s)` where p is an alternation of literal separators
      (`str.split(sep)` when there is just one), with the text already
      scanned in the current segment `cur`. */
  function SplitFrom(s: string, seps: seq<Sep>, cur: string): (r: seq<string>)
    ensures |r| > 0
    decreases |s|
  {
    if s == [] then [cur]
    else
      var n := MatchAt(s, seps);
      if n > 0 then [cur] + SplitFrom(s[n..], seps, [])
      else SplitFrom(s[1..], seps, cur + [s[0]])
  }

  function Split(s: string, seps: seq<Sep>): (r: seq<string>)
    ensures |r| > 0
  {
    SplitFrom(s, seps, [])
  }

  /** Splitting on one separator and joining with it is the identity. */
  lemma SplitJoin(s: string, sep: Sep)
    ensures Join(Split(s, [sep]), sep) == s
  {
    SplitFromJoin(s, sep, []);
    assert [] + s == s;
  }

  lemma {:induction false} SplitFromJoin(s: string, sep: Sep, cur: string)
    ensures Join(SplitFrom(s, [sep], cur), sep) == cur + s
    decreases |s|
  {
    if s == [] {
      assert cur + s == cur;
    } else {
      var n := MatchAt(s, [sep]);
      if n > 0 {
        SplitFromJoin(s[n..], sep, []);
        assert [] + s[n..] == s[n..];
        JoinAtMatch(s, sep, cur);
      } else {
        SplitFromJoin(s[1..], sep, cur + [s[0]]);
        JoinNoMatch(s, sep, cur);
      }
    }
  }

  /** The step of SplitFromJoin where a separator starts the text. */
  lemma JoinAtMatch(s: string, sep: Sep, cur: string)
    requires s != [] && MatchAt(s, [sep]) > 0
    requires Join(SplitFrom(s[MatchAt(s, [sep])..], [sep], []), sep) == s[MatchAt(s, [sep])..]
    ensures Join(SplitFrom(s, [sep], cur), sep) == cur + s
  {
    var n := MatchAt(s, [sep]);
    assert s[..n] in [sep];
    SplitFromAtMatch(s, [sep], cur);
    JoinCut(cur, SplitFrom(s[n..], [sep], []), sep, s, n);
  }

  /** The step of SplitFromJoin where the first character is kept. */
  lemma JoinNoMatch(s: string, sep: Sep, cur: string)
    requires s != [] && MatchAt(s, [sep]) == 0
    requires Join(SplitFrom(s[1..], [sep], cur + [s[0]]), sep) == cur + [s[0]] + s[1..]
    ensures Join(SplitFrom(s, [sep], cur), sep) == cur + s
  {
    SplitFromNoMatch(s, [sep], cur);
    KeepFirst(cur, s);
  }

  /** Joining a segment in front of segments that join to the text after a
      separator gives the segment, the separator and that text. */
  lemma JoinCut(cur: string, rest: seq<string>, sep: Sep, s: string, n: nat)
    requires |rest| > 0 && n <= |s| && s[..n] == sep && Join(rest, sep) == s[n..]
    ensures Join([cur] + rest, sep) == cur + s
  {
    JoinCons(cur, rest, sep);
    assert s == s[..n] + s[n..];
  }

  lemma KeepFirst(cur: string, s: string)
    requires s != []
    ensures cur + [s[0]] + s[1..] == cur + s
  {
    assert s == [s[0]] + s[1..];
  }

  /** A character that starts no separator joins the current segment. */
  lemma SplitFromNoMatch(s: string, seps: seq<Sep>, cur: string)
    requires s != [] && MatchAt(s, seps) == 0
    ensures SplitFrom(s, seps, cur) == SplitFrom(s[1..], seps, cur + [s[0]])
  {
  }

  /** A separator at the front closes the current segment. */
  lemma SplitFromAtMatch(s: string, seps: seq<Sep>, cur: string)
    requires s != [] && MatchAt(s, seps) > 0
    ensures SplitFrom(s, seps, cur) == [cur] + SplitFrom(s[MatchAt(s, seps)..], seps, [])
  {
  }

  /** The separators `re.split` consumed, in order. */
  function Delimiters(s: string, seps: seq<Sep>): (ds: seq<string>)
    ensures forall d :: d in ds ==> d in seps
    decreases |s|
  {
    if s == [] then []
    else
      var n := MatchAt(s, seps);
      if n > 0 then [s[..n]] + Delimiters(s[n..], seps)
      else Delimiters(s[1..], seps)
  }

  /** Segments with separators between them: `segs[0] + ds[0] + segs[1] + ...`. */
  function Weave(segs: seq<string>, ds: seq<string>): string
    requires |segs| == |ds| + 1
    decreases |ds|
  {
    if ds == [] then segs[0] else segs[0] + (ds[0] + Weave(segs[1..], ds[1..]))
  }

  /** `re.split` on an alternation loses nothing: the segments, with the
      separators it consumed (each one of the alternatives) put back
      between them, rebuild the text. */
  lemma SplitWeave(s: string, seps: seq<Sep>)
    ensures |Delimiters(s, seps)| + 1 == |Split(s, seps)|
    ensures Weave(Split(s, seps), Delimiters(s, seps)) == s
  {
    SplitFromWeave(s, seps, []);
    assert [] + s == s;
  }

  lemma {:induction false} SplitFromWeave(s: string, seps: seq<Sep>, cur: string)
    ensures |Delimiters(s, seps)| + 1 == |SplitFrom(s, seps, cur)|
    ensures Weave(SplitFrom(s, seps, cur), Delimiters(s, seps)) == cur + s
    decreases |s|
  {
    if s == [] {
      assert cur + s == cur;
    } else {
      var n := MatchAt(s, seps);
      if n > 0 {
        SplitFromWeave(s[n..], seps, []);
        assert [] + s[n..] == s[n..];
        WeaveAtMatch(s, seps, cur);
      } else {
        SplitFromWeave(s[1..], seps, cur + [s[0]]);
        WeaveNoMatch(s, seps, cur);
      }
    }
  }

  /** The step of SplitFromWeave where a separator starts the text. */
  lemma WeaveAtMatch(s: string, seps: seq<Sep>, cur: string)
    requires s != [] && MatchAt(s, seps) > 0
    requires |Delimiters(s[MatchAt(s, seps)..], seps)| + 1 == |SplitFrom(s[MatchAt(s, seps)..], seps, [])|
    requires Weave(SplitFrom(s[MatchAt(s, seps)..], seps, []), Delimiters(s[MatchAt(s, seps)..], seps))
      == s[MatchAt(s, seps)..]
    ensures |Delimiters(s, seps)| + 1 == |SplitFrom(s, seps, cur)|
    ensures Weave(SplitFrom(s, seps, cur), Delimiters(s, seps)) == cur + s
  {
    var n := MatchAt(s, seps);
    SplitFromAtMatch(s, seps, cur);
    DelimitersAtMatch(s, seps);
    WeaveCons(cur, SplitFrom(s[n..], seps, []), s[..n], Delimiters(s[n..], seps));
    SplitAt(s, n);
  }

  lemma DelimitersAtMatch(s: string, seps: seq<Sep>)
    requires s != [] && MatchAt(s, seps) > 0
    ensures Delimiters(s, seps) == [s[..MatchAt(s, seps)]] + Delimiters(s[MatchAt(s, seps)..], seps)
  {
  }

  lemma SplitAt(s: string, n: nat)
    requires n <= |s|
    ensures s[..n] + s[n..] == s
  {
  }

  lemma WeaveCons(seg: string, segs: seq<string>, d: string, ds: seq<string>)
    requires |segs| == |ds| + 1
    ensures Weave([seg] + segs, [d] + ds) == seg + (d + Weave(segs, ds))
  {
    assert ([seg] + segs)[1..] == segs && ([d] + ds)[1..] == ds;
  }

  /** The step of SplitFromWeave where the first character is kept. */
  lemma WeaveNoMatch(s: string, seps: seq<Sep>, cur: string)
    requires s != [] && MatchAt(s, seps) == 0
    requires |Delimiters(s[1..], seps)| + 1 == |SplitFrom(s[1..], seps, cur + [s[0]])|
    requires Weave(SplitFrom(s[1..], seps, cur + [s[0]]), Delimiters(s[1..], seps)) == cur + [s[0]] + s[1..]
    ensures |Delimiters(s, seps)| + 1 == |SplitFrom(s, seps, cur)|
    ensures Weave(SplitFrom(s, seps, cur), Delimiters(s, seps)) == cur + s
  {
    SplitFromNoMatch(s, seps, cur);
    assert Delimiters(s, seps) == Delimiters(s[1..], seps);
    KeepFirst(cur, s);
  }

  /** No separator occurrence starts inside `cur` (within the text `cur + s`). */
  predicate NoMatchBefore(cur: string, s: string, seps: seq<Sep>)
  {
    forall i, sep :: 0 <= i < |cur| && sep in seps ==> !StartsWith((cur + s)[i..], sep)
  }

  /** No segment that `re.split` returns contains any of the separators. */
  lemma SplitSegmentsFree(s: string, seps: seq<Sep>)
    ensures forall seg, sep :: seg in Split(s, seps) && sep in seps ==> !Contains(seg, sep)
  {
    SplitFromSegmentsFree(s, seps, []);
  }

  lemma {:induction false} SplitFromSegmentsFree(s: string, seps: seq<Sep>, cur: string)
    requires NoMatchBefore(cur, s, seps)
    ensures forall seg, sep :: seg in SplitFrom(s, seps, cur) && sep in seps ==> !Contains(seg, sep)
    decreases |s|
  {
    if s == [] {
      SegmentFree(cur, s, seps);
    } else {
      var n := MatchAt(s, seps);
      if n > 0 {
        SegmentFree(cur, s, seps);
        SplitFromSegmentsFree(s[n..], seps, []);
      } else {
        var cur' := cur + [s[0]];
        assert cur' + s[1..] == cur + s;
        assert (cur + s)[|cur|..] == s;
        SplitFromSegmentsFree(s[1..], seps, cur');
      }
    }
  }

  lemma SegmentFree(cur: string, s: string, seps: seq<Sep>)
    requires NoMatchBefore(cur, s, seps)
    ensures forall sep :: sep in seps ==> !Contains(cur, sep)
  {
    forall sep | sep in seps
      ensures !Contains(cur, sep)
    {
      forall i | 0 <= i <= |cur| && |sep| <= |cur| - i
        ensures !StartsWith(cur[i..], sep)
      {
        assert (cur + s)[i..][..|sep|] == cur[i..][..|sep|];
      }
      NotContains(cur, sep);
    }
  }

  /** When the last character of s belongs to no separator, the last segment
      of the split is not empty. */
  lemma {:induction false} SplitLastNonEmpty(s: string, seps: seq<Sep>, cur: string)
    requires |s| > 0
    requires forall sep :: sep in seps ==> s[|s| - 1] !in sep
    ensures SplitFrom(s, seps, cur)[|SplitFrom(s, seps, cur)| - 1] != []
    decreases |s|
  {
    var n := MatchAt(s, seps);
    if n > 0 {
      assert s[..n][n - 1] in s[..n];
      assert n < |s|;
      SplitLastNonEmpty(s[n..], seps, []);
    } else if |s| == 1 {
      assert SplitFrom(s[1..], seps, cur + [s[0]]) == [cur + [s[0]]];
    } else {
      SplitLastNonEmpty(s[1..], seps, cur + [s[0]]);
    }
  }

  /** `filter(None, xs)`: the non-empty strings of xs, in order. */
  function NonEmpty(xs: seq<string>): (r: seq<string>)
    ensures forall x :: x in r ==> x != []
    ensures forall x :: x in xs && x != [] ==> x in r
  {
    if xs == [] then []
    else (if xs[0] == [] then [] else [xs[0]]) + NonEmpty(xs[1..])
  }

  /** The zeros inserted by `zfill`. */
  function Zeros(n: nat): (r: string)
    ensures |r| == n && forall i :: 0 <= i < n ==> r[i] == '0'
  {
    seq(n, _ => '0')
  }

  /** 1 when s starts with a sign that `zfill` keeps in front, else 0. */
  function SignWidth(s: string): nat
  {
    if |s| > 0 && (s[0] == '+' || s[0] == '-') then 1 else 0
  }

  /** `s.zfill(width)`: pads with '0' to `width`, after a leading sign. */
  function ZFill(s: string, width: nat): (r: string)
    ensures |r| == if |s| >= width then |s| else width
    ensures r[..SignWidth(s)] == s[..SignWidth(s)]
    ensures r[|r| - |s| + SignWidth(s)..] == s[SignWidth(s)..]
    ensures forall i :: SignWidth(s) <= i < |r| - |s| + SignWidth(s) ==> r[i] == '0'
  {
    if |s| >= width then s
    else if SignWidth(s) == 1 then [s[0]] + Zeros(width - |s|) + s[1..]
    else Zeros(width - |s|) + s
  }

  /** Padding text that is already wide enough leaves it unchanged. */
  lemma ZFillWide(s: string, width: nat)
    requires |s| >= width
    ensures ZFill(s, width) == s
  {
    var r, w := ZFill(s, width), SignWidth(s);
    assert r == r[..w] + r[w..];
    assert s == s[..w] + s[w..];
  }

  /** Padding text without a sign puts the zeros in front. */
  lemma ZFillPlain(s: string, width: nat)
    requires |s| <= width
    ensures SignWidth(s) == 0 ==> ZFill(s, width) == Zeros(width - |s|) + s
  {
    if |s| == width {
      assert Zeros(0) + s == s;
    }
  }

  /** Padding signed text puts the zeros between the sign and the rest. */
  lemma ZFillSigned(s: string, width: nat)
    requires SignWidth(s) == 1 && |s| <= width
    ensures ZFill(s, width) == [s[0]] + Zeros(width - |s|) + s[1..]
  {
    if |s| == width {
      assert [s[0]] + Zeros(0) + s[1..] == s;
    }
  }

  /** The first position of c in s: `s.index(c)`, or None where Python raises. */
  function IndexOf(s: string, c: char): (r: Option<nat>)
    ensures r.None? <==> c !in s
    ensures r.Some? ==> r.value < |s| && s[r.value] == c && c !in s[..r.value]
  {
    if s == [] then None
    else if s[0] == c then Some(0)
    else match IndexOf(s[1..], c)
      case None => None
      case Some(i) => assert s[..i + 1] == [s[0]] + s[1..][..i]; Some(i + 1)
  }

  /** The index Python uses for a slice bound i on a sequence of length n. */
  function SliceBound(i: int, n: nat): (b: nat)
    ensures b <= n
    ensures 0 <= i <= n ==> b == i
  {
    if i < 0 then (if i + n < 0 then 0 else i + n)
    else if i > n then n
    else i
  }

  /** `s[a:b]` with Python's rules for negative and out-of-range bounds. */
  function PySlice(s: string, a: int, b: int): (r: string)
    ensures |r| <= |s|
  {
    var lo := SliceBound(a, |s|);
    var hi := SliceBound(b, |s|);
    if lo < hi then s[lo..hi] else []
  }

  function DigitChar(d: nat): char
    requires d < 10
  {
    ('0' as int + d) as char
  }

  function NatToStr(n: nat): (r: string)
    ensures |r| > 0 && forall i :: 0 <= i < |r| ==> IsDigit(r[i])
  {
    if n < 10 then [DigitChar(n)] else NatToStr(n / 10) + [DigitChar(n % 10)]
  }

  /** `str(i)` for an integer. */
  function IntToStr(i: int): (r: string)
    ensures |r| > 0
  {
    if i < 0 then "-" + NatToStr(-i) else NatToStr(i)
  }
}
