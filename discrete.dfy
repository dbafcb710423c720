/** The two cell-level helpers applied when the discrete-sample sheet is
    merged with the bottle summaries: the cruise-identifier normaliser used as
    the merge key, and the flag padder applied to every flag column. */
module Discrete {
  import opened PyText

  /** `reformat_cruise_id`: an identifier mentioning leg "-A", "-B" or "-C"
      (tested in that order) becomes the canonical name of that leg of
      cruise AR-18; any other identifier is kept. */
  function ReformatCruiseId(x: string): (r: string)
    ensures Contains(x, "-A") ==> r == "AR-18A"
    ensures !Contains(x, "-A") && Contains(x, "-B") ==> r == "AR-18B"
    ensures !Contains(x, "-A") && !Contains(x, "-B") && Contains(x, "-C") ==> r == "AR-18C"
    ensures !Contains(x, "-A") && !Contains(x, "-B") && !Contains(x, "-C") ==> r == x
  {
    if Contains(x, "-A") then "AR-18A"
    else if Contains(x, "-B") then "AR-18B"
    else if Contains(x, "-C") then "AR-18C"
    else x
  }

  /** The canonical name of a leg mentions none of the leg markers: its only
      dash is followed by a digit. */
  lemma CanonicalHasNoMarker(leg: char, marker: char)
    requires 'A' <= marker <= 'Z'
    ensures !Contains("AR-18" + [leg], ['-', marker])
  {
    var s := "AR-18" + [leg];
    var t := ['-', marker];
    assert s[0] == 'A' && s[1] == 'R' && s[2] == '-' && s[3] == '1' && s[4] == '8';
    forall i | 0 <= i <= |s| && |t| <= |s| - i
      ensures !StartsWith(s[i..], t)
    {
      assert s[i..][..2][0] == s[i] && s[i..][..2][1] == s[i + 1];
    }
    NotContains(s, t);
  }

  /** Normalising is idempotent: the identifiers it produces are kept as they
      are, so normalising the sample sheet's cruise identifiers a second time
      changes nothing. */
  lemma ReformatIdempotent(x: string)
    ensures ReformatCruiseId(ReformatCruiseId(x)) == ReformatCruiseId(x)
  {
    var r := ReformatCruiseId(x);
    if r != x {
      var leg := r[5];
      assert r == "AR-18" + [leg];
      CanonicalHasNoMarker(leg, 'A');
      CanonicalHasNoMarker(leg, 'B');
      CanonicalHasNoMarker(leg, 'C');
      assert "-A" == ['-', 'A'] && "-B" == ['-', 'B'] && "-C" == ['-', 'C'];
    }
  }

  /** A cell of a flag column after `fillna(-9999999)`: an integer, a float
      (with the text Python's `str` gives for it, which is not modelled), a
      string or a boolean. */
  datatype Cell =
    | IntCell(i: int)
    | FloatCell(x: real, text: string)
    | StrCell(s: string)
    | BoolCell(b: bool)

  /** The fill value that `fillna` puts in empty cells. */
  const Missing: int := -9999999

  /** `str(x)`. */
  function Str(c: Cell): string
  {
    match c
    case IntCell(i) => IntToStr(i)
    case FloatCell(_, text) => text
    case StrCell(s) => s
    case BoolCell(b) => if b then "True" else "False"
  }

  /** `x == -9999999 or x == '-9999999'`: Python compares numbers by value
      (so the float -9999999.0 matches too, and a boolean never does) and a
      string only with the string. */
  predicate IsMissing(c: Cell)
  {
    match c
    case IntCell(i) => i == Missing
    case FloatCell(x, _) => x == Missing as real
    case StrCell(s) => s == "-9999999"
    case BoolCell(_) => false
  }

  /** `str(x).lower()` is "true" or "false". */
  predicate IsBoolText(c: Cell)
  {
    Lower(Str(c)) == "true" || Lower(Str(c)) == "false"
  }

  /** Width every other flag is padded to. */
  const FlagWidth: nat := 16

  /** `fill_flags`: the missing-value marker and boolean-looking cells are
      kept; every other cell becomes its text zero-padded to sixteen
      characters, a leading sign staying in front. */
  function FillFlags(x: Cell): (r: Cell)
    ensures IsMissing(x) || IsBoolText(x) ==> r == x
    ensures !IsMissing(x) && !IsBoolText(x) ==>
      var t, w := Str(x), SignWidth(Str(x));
      && r.StrCell?
      && |r.s| == (if |t| >= FlagWidth then |t| else FlagWidth)
      && r.s[..w] == t[..w]
      && r.s[|r.s| - |t| + w..] == t[w..]
      && forall i :: w <= i < |r.s| - |t| + w ==> r.s[i] == '0'
  {
    if IsMissing(x) then x
    else if Lower(Str(x)) == "false" then x
    else if Lower(Str(x)) == "true" then x
    else StrCell(ZFill(Str(x), FlagWidth))
  }

  /** A padded flag is at least sixteen characters long, so it is neither
      the missing-value marker nor boolean text. */
  lemma FilledIsPlain(x: Cell)
    requires !IsMissing(x) && !IsBoolText(x)
    ensures |FillFlags(x).s| >= FlagWidth
    ensures !IsMissing(FillFlags(x)) && !IsBoolText(FillFlags(x))
  {
    var r := FillFlags(x);
    assert |Lower(Str(r))| == |r.s|;
  }

  /** Applying `fill_flags` twice gives what applying it once does. */
  lemma FillFlagsIdempotent(x: Cell)
    ensures FillFlags(FillFlags(x)) == FillFlags(x)
  {
    if !IsMissing(x) && !IsBoolText(x) {
      FilledIsPlain(x);
      ZFillWide(FillFlags(x).s, FlagWidth);
    }
  }

  /** A non-negative integer flag of at most sixteen digits becomes its
      decimal digits behind leading zeros, sixteen characters in all. */
  lemma IntFlagPadded(n: nat)
    requires n != Missing && |NatToStr(n)| <= FlagWidth
    ensures FillFlags(IntCell(n)) == StrCell(Zeros(FlagWidth - |NatToStr(n)|) + NatToStr(n))
  {
    var d := NatToStr(n);
    assert Str(IntCell(n)) == d;
    assert IsDigit(d[0]) && SignWidth(d) == 0;
    NotBoolText(d);
    ZFillPlain(d, FlagWidth);
  }

  /** Text starting with a digit or a minus sign is not boolean text. */
  lemma NotBoolText(t: string)
    requires |t| > 0 && (t[0] == '-' || IsDigit(t[0]))
    ensures Lower(t) != "true" && Lower(t) != "false"
  {
    assert Lower(t)[0] == LowerChar(t[0]) == t[0];
  }

  /** A negative integer flag keeps its minus sign in front of the zeros. */
  lemma NegativeFlagPadded(n: int)
    requires 0 < n && -n != Missing && |NatToStr(n)| < FlagWidth
    ensures FillFlags(IntCell(-n)) == StrCell("-" + Zeros(FlagWidth - 1 - |NatToStr(n)|) + NatToStr(n))
  {
    var d := NatToStr(n);
    var t := "-" + d;
    assert Str(IntCell(-n)) == t;
    NotBoolText(t);
    assert SignWidth(t) == 1 && t[1..] == d;
    ZFillSigned(t, FlagWidth);
  }
}
