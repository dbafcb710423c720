/** Names derived from a bottle file's name: the three-character cast number
    and the name of the per-cast summary file. */
module Naming {
  import opened Wrappers
  import opened PyText

  /** The cast exactly as written:
      `str(filename[filename.index('.')-3:filename.index('.')]).zfill(3)`,
      with Python's slice rules; None where `index` raises. */
  function CastAsWritten(filename: string): (r: Option<string>)
    ensures r.None? <==> '.' !in filename
    ensures r.Some? ==> |r.value| == 3
    ensures r.Some? ==> var dot := IndexOf(filename, '.').value;
      && (dot >= 3 || |filename| < 3 ==> r == Cast(filename))
      && (dot < 3 <= |filename| ==> r.value == "000")
  {
    match IndexOf(filename, '.')
    case None => None
    case Some(dot) =>
      var chars := PySlice(filename, dot - 3, dot);
      if dot >= 3 || |filename| < 3 then
        assert chars == CastChars(filename, dot);
        Some(ZFill(chars, 3))
      else
        assert chars == [];
        ZerosThree();
        Some(ZFill(chars, 3))
  }

  /** The up-to-three characters just before the first dot. */
  function CastChars(filename: string, dot: nat): (r: string)
    requires dot <= |filename|
    ensures |r| <= 3 && |r| <= dot
    ensures |r| == 3 || |r| == dot
    ensures r == filename[dot - |r|..dot]
  {
    filename[(if dot >= 3 then dot - 3 else 0)..dot]
  }

  /** The cast number: the up-to-three characters before the first dot,
      zero-padded to width three. */
  function Cast(filename: string): (r: Option<string>)
    ensures r.None? <==> '.' !in filename
    ensures r.Some? ==>
      var chars := CastChars(filename, IndexOf(filename, '.').value);
      && |r.value| == 3
      && (|chars| == 3 ==> r.value == chars)
      && (SignWidth(chars) == 0 ==> r.value == Zeros(3 - |chars|) + chars)
  {
    match IndexOf(filename, '.')
    case None => None
    case Some(dot) =>
      var chars := CastChars(filename, dot);
      ZFillPlain(chars, 3);
      Some(ZFill(chars, 3))
  }

  /** With at least three characters before the dot, the slice as written
      and the intended one agree. */
  lemma CastAgrees(filename: string)
    requires '.' in filename && IndexOf(filename, '.').value >= 3
    ensures CastAsWritten(filename) == Cast(filename)
  {
  }

  /** With fewer, the slice's negative start wraps around to the end of the
      name: "ab.btl" gives cast "000" where "0ab" was intended. */
  lemma CastShortName()
    ensures CastAsWritten("ab.btl") == Some("000")
    ensures Cast("ab.btl") == Some("0ab")
  {
    var name := "ab.btl";
    DotAtTwo(name);
    assert SliceBound(-1, 6) == 5 && SliceBound(2, 6) == 2;
    assert PySlice(name, -1, 2) == [];
    ZerosThree();
    assert CastChars(name, 2) == "ab";
    assert ZFill("ab", 3) == "0ab";
  }

  lemma DotAtTwo(name: string)
    requires name == "ab.btl"
    ensures IndexOf(name, '.') == Some(2)
  {
    assert name[0] == 'a' && name[1..] == "b.btl" && name[2..] == ".btl";
    assert IndexOf(name[2..], '.') == Some(0);
    assert IndexOf(name[1..], '.') == Some(1) by {
      assert name[1..][1..] == name[2..];
    }
  }

  lemma ZerosThree()
    ensures ZFill([], 3) == "000"
  {
    assert Zeros(3) == "000";
  }

  /** The text before the first c, or all of s when it has none. */
  function Before(s: string, c: char): (r: string)
    ensures |r| <= |s| && r == s[..|r|]
    ensures c !in r
    ensures |r| < |s| ==> s[|r|] == c
  {
    if s == [] || s[0] == c then [] else [s[0]] + Before(s[1..], c)
  }

  /** `filename.split('.')[0] + '.sum'`: the name up to its first dot, with
      the suffix `.sum`. */
  function OutName(filename: string): (r: string)
    ensures r == Before(filename, '.') + ".sum"
    ensures '.' !in filename ==> r == filename + ".sum"
    ensures '.' in filename ==> r == filename[..IndexOf(filename, '.').value] + ".sum"
  {
    FirstSegment(filename, []);
    Split(filename, ["."])[0] + ".sum"
  }

  /** The first segment of a split on "." is the text before the first dot. */
  lemma {:induction false} FirstSegment(s: string, cur: string)
    ensures SplitFrom(s, ["."], cur)[0] == cur + Before(s, '.')
    decreases |s|
  {
    if s == [] {
      assert cur + [] == cur;
    } else if s[0] == '.' {
      assert StartsWith(s, ".");
      assert MatchAt(s, ["."]) == 1;
      assert cur + [] == cur;
    } else {
      assert !StartsWith(s, ".");
      assert MatchAt(s, ["."]) == 0;
      FirstSegment(s[1..], cur + [s[0]]);
      assert cur + [s[0]] + Before(s[1..], '.') == cur + ([s[0]] + Before(s[1..], '.'));
    }
  }
}
