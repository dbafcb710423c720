/** The column layout: column-header lines are tokenised on whitespace and
    the tokens standing at the same position on successive lines are joined
    with single spaces into that position's column name. */
module Layout {
  import opened PyText

  type ColumnNames = map<int, string>

  /** The keys of m are exactly the positions 0 .. n-1. */
  ghost predicate KeysArePositions<V>(m: map<int, V>, n: nat)
  {
    forall i :: i in m <==> 0 <= i < n
  }

  /** The largest number of tokens on any of the lines. */
  function MaxTokens(lines: seq<string>): nat
  {
    if lines == [] then 0
    else
      var init := MaxTokens(lines[..|lines| - 1]);
      var n := |Tokens(lines[|lines| - 1])|;
      if n > init then n else init
  }

  /** The tokens at position i, one from each line that is long enough, in
      line order. */
  function TokensAt(lines: seq<string>, i: nat): seq<string>
  {
    if lines == [] then []
    else
      var toks := Tokens(lines[|lines| - 1]);
      TokensAt(lines[..|lines| - 1], i) + (if i < |toks| then [toks[i]] else [])
  }

  /** Some line has a token at position i exactly when i is below the widest
      line's token count. */
  lemma {:induction false} TokensAtNonEmpty(lines: seq<string>, i: nat)
    ensures |TokensAt(lines, i)| > 0 <==> i < MaxTokens(lines)
  {
    if lines != [] {
      TokensAtNonEmpty(lines[..|lines| - 1], i);
    }
  }

  /** The names after the tokens `toks[..j]` of one more line were added:
      each appended, after a space, to the name at its position, or starting
      that name. */
  function AddTokens(m: ColumnNames, toks: seq<string>, j: nat): ColumnNames
    requires j <= |toks|
  {
    if j == 0 then m
    else
      var cur, t := AddTokens(m, toks, j - 1), toks[j - 1];
      cur[j - 1 := if j - 1 in cur then cur[j - 1] + " " + t else t]
  }

  /** `column_dict` after the column loop has handled the lines. */
  function LayoutOf(lines: seq<string>): ColumnNames
  {
    if lines == [] then map[]
    else
      var toks := Tokens(lines[|lines| - 1]);
      AddTokens(LayoutOf(lines[..|lines| - 1]), toks, |toks|)
  }

  /** One line's tokens reach the positions below their count, and touch no
      other position. */
  lemma {:induction false} AddTokensAt(m: ColumnNames, toks: seq<string>, j: nat, i: int)
    requires j <= |toks|
    ensures i in AddTokens(m, toks, j) <==> i in m || 0 <= i < j
    ensures i in AddTokens(m, toks, j) ==>
      AddTokens(m, toks, j)[i] ==
        if 0 <= i < j then (if i in m then m[i] + " " + toks[i] else toks[i]) else m[i]
    decreases j
  {
    if j > 0 {
      AddTokensAt(m, toks, j - 1, i);
    }
  }

  /** The positions named are exactly those below the widest line's token
      count, and each is named by the space-join of the tokens standing at
      it, in line order. */
  lemma {:induction false} LayoutNames(lines: seq<string>, i: int)
    ensures i in LayoutOf(lines) <==> 0 <= i < MaxTokens(lines)
    ensures i in LayoutOf(lines) ==> LayoutOf(lines)[i] == Join(TokensAt(lines, i), " ")
  {
    if lines != [] {
      var init, toks := lines[..|lines| - 1], Tokens(lines[|lines| - 1]);
      LayoutNames(init, i);
      AddTokensAt(LayoutOf(init), toks, |toks|, i);
      if 0 <= i {
        TokensAtNonEmpty(init, i);
        var prev := TokensAt(init, i);
        if i < |toks| {
          var xs := prev + [toks[i]];
          assert TokensAt(lines, i) == xs;
          assert xs[..|xs| - 1] == prev && xs[|xs| - 1] == toks[i];
        } else {
          assert TokensAt(lines, i) == prev + [];
          assert TokensAt(lines, i) == prev;
          assert LayoutOf(lines) == AddTokens(LayoutOf(init), toks, |toks|);
        }
      }
    }
  }

  lemma LayoutKeys(lines: seq<string>)
    ensures KeysArePositions(LayoutOf(lines), MaxTokens(lines))
  {
    forall i
      ensures i in LayoutOf(lines) <==> 0 <= i < MaxTokens(lines)
    {
      LayoutNames(lines, i);
    }
  }

  /** The column loop: for each line and each of its tokens, appends the
      token to the name at its position, or starts that name. */
  method BuildLayout(columns: seq<string>) returns (names: ColumnNames)
    ensures names == LayoutOf(columns)
    ensures KeysArePositions(names, MaxTokens(columns))
  {
    names := map[];
    var k := 0;
    while k < |columns|
      invariant 0 <= k <= |columns|
      invariant names == LayoutOf(columns[..k])
    {
      var toks := Tokens(columns[k]);
      ghost var before := names;
      var j := 0;
      while j < |toks|
        invariant 0 <= j <= |toks|
        invariant names == AddTokens(before, toks, j)
      {
        if j in names {
          names := names[j := names[j] + " " + toks[j]];
        } else {
          names := names[j := toks[j]];
        }
        j := j + 1;
      }
      assert columns[..k + 1][..k] == columns[..k];
      k := k + 1;
    }
    assert columns[..k] == columns;
    LayoutKeys(columns);
  }

  /** Names are made of the header words: splitting a column name on
      whitespace gives back, in line order, the tokens that formed it. */
  lemma ColumnNameTokens(lines: seq<string>, i: nat)
    requires i < MaxTokens(lines)
    ensures i in LayoutOf(lines) && Tokens(LayoutOf(lines)[i]) == TokensAt(lines, i)
  {
    LayoutNames(lines, i);
    TokensAtWords(lines, i);
    TokensOfJoin(TokensAt(lines, i));
  }

  lemma {:induction false} TokensAtWords(lines: seq<string>, i: nat)
    ensures forall w :: w in TokensAt(lines, i) ==> IsWord(w)
  {
    if lines != [] {
      TokensAtWords(lines[..|lines| - 1], i);
    }
  }
}
