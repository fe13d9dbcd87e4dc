/** The keyword half of the attention analysis: which token positions count as
    keywords for a symbolic or a verbal phrasing of a problem, and what share of
    an attention matrix's total mass falls on those positions' columns. */
module Analysis {
  import opened PyStr

  // ---------------------------------------------------------------------------
  // Keyword locator
  // ---------------------------------------------------------------------------

  const Symbolic := "symbolic"
  const Verbal := "verbal"

  /** The operator characters stripped from both ends of a symbolic token. */
  const OperatorChars := "=+-*/"

  /** Variables, operators and the ideograph for "find" in the symbolic phrasing. */
  const SymbolicKeywords: set<string> :=
    {"x", "y", "a", "b", "m", "n", "=", "+", "-", "*", "/", "求"}

  /** Find, add, subtract, multiply, divide and equals in the verbal phrasing. */
  const VerbalKeywords: set<string> := {"求", "加", "减", "乘", "除", "等于"}

  /** The symbolic matching rule: the token with its operator runs stripped, or
      the token as written, is a symbolic keyword. */
  predicate IsSymbolicKeyword(token: string) {
    Strip(token, OperatorChars) in SymbolicKeywords || token in SymbolicKeywords
  }

  /** Whether `token` is a keyword under the input-type tag; an unrecognised tag
      has no keywords. */
  predicate IsKeyword(token: string, inputType: string) {
    if inputType == Symbolic then IsSymbolicKeyword(token)
    else if inputType == Verbal then token in VerbalKeywords
    else false
  }

  /** The keyword positions of `tokens`, in token order; each is a position of
      `tokens`. */
  function KeywordPositions(tokens: seq<string>, inputType: string): (positions: seq<nat>)
    ensures forall j :: 0 <= j < |positions| ==> positions[j] < |tokens|
  {
    if tokens == [] then []
    else
      var n := |tokens| - 1;
      KeywordPositions(tokens[..n], inputType) + (if IsKeyword(tokens[n], inputType) then [n] else [])
  }

  /** Positions are listed in strictly increasing order, so without repeats. */
  predicate StrictlyIncreasing(s: seq<nat>) {
    forall j, k :: 0 <= j < k < |s| ==> s[j] < s[k]
  }

  /** No position is listed twice. */
  predicate Distinct(s: seq<nat>) {
    forall j, k :: 0 <= j < |s| && 0 <= k < |s| && j != k ==> s[j] != s[k]
  }

  /** The keyword positions are strictly increasing, and are exactly the
      positions whose token is a keyword. */
  lemma {:induction false} KeywordPositionsCharacterized(tokens: seq<string>, inputType: string)
    ensures StrictlyIncreasing(KeywordPositions(tokens, inputType))
    ensures forall i :: 0 <= i < |tokens| ==>
              (i in KeywordPositions(tokens, inputType) <==> IsKeyword(tokens[i], inputType))
  {
    if tokens != [] {
      var n := |tokens| - 1;
      KeywordPositionsCharacterized(tokens[..n], inputType);
      assert forall i :: 0 <= i < n ==> tokens[..n][i] == tokens[i];
    }
  }

  /** A tag other than "symbolic" or "verbal" yields no positions, whatever the
      tokens. */
  lemma {:induction false} UnknownTypeHasNoKeywords(tokens: seq<string>, inputType: string)
    requires inputType != Symbolic && inputType != Verbal
    ensures KeywordPositions(tokens, inputType) == []
  {
    if tokens != [] {
      UnknownTypeHasNoKeywords(tokens[..|tokens| - 1], inputType);
    }
  }

  /** Strictly increasing positions never repeat. */
  lemma IncreasingIsDistinct(s: seq<nat>)
    requires StrictlyIncreasing(s)
    ensures Distinct(s)
  {
  }

  /** The locator: one pass over the tokens, in order, appending each position
      whose token matches the rule the tag selects. */
  method GetKeywordIndices(tokens: seq<string>, inputType: string) returns (keywords: seq<nat>)
    ensures keywords == KeywordPositions(tokens, inputType)
    ensures forall j :: 0 <= j < |keywords| ==> keywords[j] < |tokens|
    ensures StrictlyIncreasing(keywords)
    ensures forall i :: 0 <= i < |tokens| ==> (i in keywords <==> IsKeyword(tokens[i], inputType))
  {
    keywords := [];
    if inputType == Symbolic {
      for idx := 0 to |tokens|
        invariant keywords == KeywordPositions(tokens[..idx], inputType)
      {
        assert tokens[..idx + 1][..idx] == tokens[..idx];
        var token := tokens[idx];
        var tokenClean := Strip(token, OperatorChars);
        if tokenClean in SymbolicKeywords || token in SymbolicKeywords {
          keywords := keywords + [idx];
        }
      }
    } else if inputType == Verbal {
      for idx := 0 to |tokens|
        invariant keywords == KeywordPositions(tokens[..idx], inputType)
      {
        assert tokens[..idx + 1][..idx] == tokens[..idx];
        var token := tokens[idx];
        if token in VerbalKeywords {
          keywords := keywords + [idx];
        }
      }
    } else {
      UnknownTypeHasNoKeywords(tokens, inputType);
    }
    assert tokens[..|tokens|] == tokens;
    KeywordPositionsCharacterized(tokens, inputType);
  }

  /** A token made only of operator characters matches the symbolic rule
      exactly when it is a single character: "+" matches as written, while "=="
      and "" strip to "" and match nothing. */
  lemma OperatorRunMatchesIffSingle(token: string)
    requires AllIn(token, OperatorChars)
    ensures IsSymbolicKeyword(token) <==> |token| == 1
  {
    StripRemovesBothRuns(token, OperatorChars);
    if |token| == 1 {
      assert token == [token[0]];
      assert token[0] in OperatorChars;
    }
  }

  /** A variable or "求" with operators fused to either side, such as "+x" or
      "求=", still matches the symbolic rule. */
  lemma FusedOperatorsMatch(p: string, word: string, q: string)
    requires word in {"x", "y", "a", "b", "m", "n", "求"}
    requires AllIn(p, OperatorChars) && AllIn(q, OperatorChars)
    ensures IsSymbolicKeyword(p + word + q)
  {
    assert |word| == 1 && word[0] in "xyabmn求";
    StripAround(p, word, q, OperatorChars);
  }

  /** The verbal rule applies no stripping: "求=" is not a verbal keyword, though
      the symbolic rule accepts it. */
  lemma VerbalMatchIsExact()
    ensures !IsKeyword("求=", Verbal)
    ensures IsKeyword("求=", Symbolic)
  {
    assert IsKeyword("求=", Symbolic) by {
      FusedOperatorsMatch([], "求", "=");
      assert "求=" == [] + "求" + "=";
    }
    assert !IsKeyword("求=", Verbal);
  }

  /** The locator on the verbal example ["求", "猫"]. */
  lemma VerbalExample()
    ensures KeywordPositions(["求", "猫"], Verbal) == [0]
  {
  }

  /** The locator on ["x", "=", "+", "cat"]: the variable and both operators
      match, "cat" does not. */
  lemma SymbolicExample()
    ensures KeywordPositions(["x", "=", "+", "cat"], Symbolic) == [0, 1, 2]
  {
    var t := ["x", "=", "+", "cat"];
    assert !IsKeyword("cat", Symbolic) by {
      assert LStrip("cat", OperatorChars) == "cat";
      assert RStrip("cat", OperatorChars) == "cat";
    }
    assert IsKeyword("x", Symbolic) && IsKeyword("=", Symbolic) && IsKeyword("+", Symbolic);
    assert t[..1] == ["x"] && t[..1][..0] == [];
    assert KeywordPositions(t[..1], Symbolic) == [0];
    assert t[..2] == ["x", "="] && t[..2][..1] == t[..1];
    assert KeywordPositions(t[..2], Symbolic) == [0, 1];
    assert t[..3] == ["x", "=", "+"] && t[..3][..2] == t[..2];
    assert KeywordPositions(t[..3], Symbolic) == [0, 1, 2];
    assert t[..4][..3] == t[..3] && t[..4] == t;
  }

  /** The locator on ["a", "b", "c"] gives [0, 1], not [0]: "b" is a symbolic
      keyword as well as "a". */
  lemma ThreeTokenExample()
    ensures KeywordPositions(["a", "b", "c"], Symbolic) == [0, 1]
  {
    var t := ["a", "b", "c"];
    assert !IsKeyword("c", Symbolic) by {
      assert LStrip("c", OperatorChars) == "c";
      assert RStrip("c", OperatorChars) == "c";
    }
    assert IsKeyword("a", Symbolic) && IsKeyword("b", Symbolic);
    assert t[..1] == ["a"] && t[..1][..0] == [];
    assert KeywordPositions(t[..1], Symbolic) == [0];
    assert t[..2] == ["a", "b"] && t[..2][..1] == t[..1];
    assert KeywordPositions(t[..2], Symbolic) == [0, 1];
    assert t[..3][..2] == t[..2] && t[..3] == t;
  }

  // ---------------------------------------------------------------------------
  // Keyword attention ratio
  // ---------------------------------------------------------------------------

  /** The 1e-10 added to the total mass before dividing. */
  const Eps: real := 0.0000000001

  /** A seq_len x seq_len matrix. */
  predicate IsSquare(m: seq<seq<real>>) {
    forall r :: 0 <= r < |m| ==> |m[r]| == |m|
  }

  /** Attention weights are never negative. */
  predicate NonNegative(m: seq<seq<real>>) {
    forall r, c :: 0 <= r < |m| && 0 <= c < |m[r]| ==> 0.0 <= m[r][c]
  }

  /** Every listed index is a column of every row. */
  predicate ColumnsFit(m: seq<seq<real>>, idx: seq<nat>) {
    forall r, j :: 0 <= r < |m| && 0 <= j < |idx| ==> idx[j] < |m[r]|
  }

  function Sum(row: seq<real>): real {
    if row == [] then 0.0 else row[0] + Sum(row[1..])
  }

  /** The sum of every entry of the matrix. */
  function TotalMass(m: seq<seq<real>>): real {
    if m == [] then 0.0 else Sum(m[0]) + TotalMass(m[1..])
  }

  /** numpy's `row[idx]`: one entry per listed index, repeats included. */
  function Pick(row: seq<real>, idx: seq<nat>): seq<real>
    requires forall j :: 0 <= j < |idx| ==> idx[j] < |row|
  {
    seq(|idx|, j requires 0 <= j < |idx| => row[idx[j]])
  }

  /** numpy's `m[:, idx]`: every row restricted to the listed columns. */
  function SelectColumns(m: seq<seq<real>>, idx: seq<nat>): seq<seq<real>>
    requires ColumnsFit(m, idx)
  {
    seq(|m|, r requires 0 <= r < |m| => Pick(m[r], idx))
  }

  /** The attention mass on the listed columns, as numpy sums `m[:, idx]`. */
  function KeywordMass(m: seq<seq<real>>, idx: seq<nat>): real
    requires ColumnsFit(m, idx)
  {
    TotalMass(SelectColumns(m, idx))
  }

  /** The sum of column `k` over all rows. */
  function ColumnSum(m: seq<seq<real>>, k: nat): real
    requires forall r :: 0 <= r < |m| ==> k < |m[r]|
  {
    if m == [] then 0.0 else m[0][k] + ColumnSum(m[1..], k)
  }

  /** The column sums of the listed indices, one per occurrence. */
  function ColumnsMass(m: seq<seq<real>>, idx: seq<nat>): real
    requires ColumnsFit(m, idx)
  {
    if idx == [] then 0.0 else ColumnSum(m, idx[0]) + ColumnsMass(m, idx[1..])
  }

  lemma {:induction false} SumNonNegative(row: seq<real>)
    requires forall c :: 0 <= c < |row| ==> 0.0 <= row[c]
    ensures 0.0 <= Sum(row)
  {
    if row != [] { SumNonNegative(row[1..]); }
  }

  lemma {:induction false} TotalMassNonNegative(m: seq<seq<real>>)
    requires NonNegative(m)
    ensures 0.0 <= TotalMass(m)
  {
    if m != [] {
      SumNonNegative(m[0]);
      TotalMassNonNegative(m[1..]);
    }
  }

  /** `part / (total + 1e-10)`. */
  function Share(part: real, total: real): real
    requires 0.0 <= total
  {
    part / (total + Eps)
  }

  /** The ratio of the attention mass on the keyword columns to the total mass
      plus 1e-10; exactly 0.0 when no index is listed, and never negative. */
  function KeywordAttentionRatio(m: seq<seq<real>>, idx: seq<nat>): (ratio: real)
    requires IsSquare(m) && NonNegative(m)
    requires forall j :: 0 <= j < |idx| ==> idx[j] < |m|
    ensures idx == [] ==> ratio == 0.0
    ensures 0.0 <= ratio
  {
    if idx == [] then 0.0
    else
      TotalMassNonNegative(m);
      TotalMassNonNegative(SelectColumns(m, idx));
      Share(KeywordMass(m, idx), TotalMass(m))
  }

  /** Picking the listed entries of the first row and summing them. */
  lemma {:induction false} ColumnsMassFirstRow(m: seq<seq<real>>, idx: seq<nat>)
    requires m != [] && ColumnsFit(m, idx)
    ensures ColumnsMass(m, idx) == Sum(Pick(m[0], idx)) + ColumnsMass(m[1..], idx)
  {
    if idx != [] {
      ColumnsMassFirstRow(m, idx[1..]);
      assert Pick(m[0], idx)[1..] == Pick(m[0], idx[1..]);
    }
  }

  /** numpy's `m[:, idx].sum()` adds, for every occurrence of an index in the
      list, that column's full sum: a repeated index is counted once per
      occurrence. */
  lemma {:induction false} KeywordMassByColumns(m: seq<seq<real>>, idx: seq<nat>)
    requires ColumnsFit(m, idx)
    ensures KeywordMass(m, idx) == ColumnsMass(m, idx)
  {
    if m == [] {
      ColumnsMassEmptyMatrix(m, idx);
    } else {
      assert SelectColumns(m, idx)[1..] == SelectColumns(m[1..], idx);
      KeywordMassByColumns(m[1..], idx);
      ColumnsMassFirstRow(m, idx);
    }
  }

  lemma {:induction false} ColumnsMassEmptyMatrix(m: seq<seq<real>>, idx: seq<nat>)
    requires m == []
    ensures ColumnsMass(m, idx) == 0.0
  {
    if idx != [] { ColumnsMassEmptyMatrix(m, idx[1..]); }
  }

  /** Listing a column once more adds its column sum once more. */
  lemma DuplicateIndexCountsAgain(m: seq<seq<real>>, idx: seq<nat>, k: nat)
    requires ColumnsFit(m, idx) && forall r :: 0 <= r < |m| ==> k < |m[r]|
    ensures ColumnsFit(m, [k] + idx)
    ensures KeywordMass(m, [k] + idx) == ColumnSum(m, k) + KeywordMass(m, idx)
  {
    KeywordMassByColumns(m, [k] + idx);
    KeywordMassByColumns(m, idx);
    assert ([k] + idx)[1..] == idx;
  }

  lemma {:induction false} SumUpdate(row: seq<real>, k: nat, v: real)
    requires k < |row|
    ensures Sum(row[k := v]) == Sum(row) - row[k] + v
  {
    if k == 0 {
      assert row[k := v][1..] == row[1..];
    } else {
      assert row[k := v][1..] == row[1..][k - 1 := v];
      SumUpdate(row[1..], k - 1, v);
    }
  }

  /** Over a non-negative row, distinct indices pick at most the row's sum. */
  lemma {:induction false} PickAtMostSum(row: seq<real>, idx: seq<nat>)
    requires forall c :: 0 <= c < |row| ==> 0.0 <= row[c]
    requires forall j :: 0 <= j < |idx| ==> idx[j] < |row|
    requires Distinct(idx)
    ensures Sum(Pick(row, idx)) <= Sum(row)
    decreases |idx|
  {
    if idx == [] {
      SumNonNegative(row);
    } else {
      var k := idx[0];
      var rest := idx[1..];
      var cleared := row[k := 0.0];
      assert forall j :: 0 <= j < |rest| ==> rest[j] != k by {
        forall j | 0 <= j < |rest| ensures rest[j] != k {
          assert idx[j + 1] != idx[0];
        }
      }
      assert Pick(row, idx)[1..] == Pick(cleared, rest);
      assert Distinct(rest) by {
        forall j, l | 0 <= j < |rest| && 0 <= l < |rest| && j != l ensures rest[j] != rest[l] {
          assert idx[j + 1] != idx[l + 1];
        }
      }
      PickAtMostSum(cleared, rest);
      SumUpdate(row, k, 0.0);
    }
  }

  /** With non-negative entries and distinct indices the keyword mass is at most
      the total mass. */
  lemma {:induction false} KeywordMassAtMostTotal(m: seq<seq<real>>, idx: seq<nat>)
    requires NonNegative(m) && ColumnsFit(m, idx) && Distinct(idx)
    ensures KeywordMass(m, idx) <= TotalMass(m)
  {
    if m != [] {
      assert SelectColumns(m, idx)[1..] == SelectColumns(m[1..], idx);
      KeywordMassAtMostTotal(m[1..], idx);
      PickAtMostSum(m[0], idx);
    }
  }

  /** With non-negative entries and distinct indices the ratio lies in [0, 1). */
  lemma RatioBelowOne(m: seq<seq<real>>, idx: seq<nat>)
    requires IsSquare(m) && NonNegative(m)
    requires forall j :: 0 <= j < |idx| ==> idx[j] < |m|
    requires Distinct(idx)
    ensures 0.0 <= KeywordAttentionRatio(m, idx) < 1.0
  {
    if idx != [] {
      var num, den := KeywordMass(m, idx), TotalMass(m) + Eps;
      KeywordMassAtMostTotal(m, idx);
      TotalMassNonNegative(m);
      assert num < den;
    }
  }

  /** Every entry of the matrix outside the listed columns is zero. */
  predicate MassOnlyIn(m: seq<seq<real>>, idx: seq<nat>) {
    forall r, c :: 0 <= r < |m| && 0 <= c < |m[r]| && c !in idx ==> m[r][c] == 0.0
  }

  lemma {:induction false} SumOfZeros(row: seq<real>)
    requires forall c :: 0 <= c < |row| ==> row[c] == 0.0
    ensures Sum(row) == 0.0
  {
    if row != [] { SumOfZeros(row[1..]); }
  }

  /** Distinct indices that cover every non-zero entry of a row pick its whole
      sum. */
  lemma {:induction false} PickWholeRow(row: seq<real>, idx: seq<nat>)
    requires forall j :: 0 <= j < |idx| ==> idx[j] < |row|
    requires Distinct(idx)
    requires forall c :: 0 <= c < |row| && c !in idx ==> row[c] == 0.0
    ensures Sum(Pick(row, idx)) == Sum(row)
    decreases |idx|
  {
    if idx == [] {
      SumOfZeros(row);
    } else {
      var k := idx[0];
      var rest := idx[1..];
      var cleared := row[k := 0.0];
      assert forall j :: 0 <= j < |rest| ==> rest[j] != k by {
        forall j | 0 <= j < |rest| ensures rest[j] != k {
          assert idx[j + 1] != idx[0];
        }
      }
      assert Pick(row, idx)[1..] == Pick(cleared, rest);
      assert Distinct(rest) by {
        forall j, l | 0 <= j < |rest| && 0 <= l < |rest| && j != l ensures rest[j] != rest[l] {
          assert idx[j + 1] != idx[l + 1];
        }
      }
      forall c | 0 <= c < |cleared| && c !in rest ensures cleared[c] == 0.0 {
        if c != k {
          assert c !in idx;
        }
      }
      PickWholeRow(cleared, rest);
      SumUpdate(row, k, 0.0);
    }
  }

  /** When all the mass lies in the listed (distinct) columns, the keyword mass
      is the whole mass. */
  lemma {:induction false} KeywordMassIsTotal(m: seq<seq<real>>, idx: seq<nat>)
    requires ColumnsFit(m, idx) && Distinct(idx) && MassOnlyIn(m, idx)
    ensures KeywordMass(m, idx) == TotalMass(m)
  {
    if m != [] {
      assert SelectColumns(m, idx)[1..] == SelectColumns(m[1..], idx);
      KeywordMassIsTotal(m[1..], idx);
      PickWholeRow(m[0], idx);
    }
  }

  /** The bound of `RatioBelowOne` is tight: when all the mass lies in the
      listed columns the ratio is total / (total + 1e-10), as close to 1 as the
      total is large against 1e-10. */
  lemma RatioWithAllMassOnKeywords(m: seq<seq<real>>, idx: seq<nat>)
    requires IsSquare(m) && NonNegative(m)
    requires forall j :: 0 <= j < |idx| ==> idx[j] < |m|
    requires idx != [] && Distinct(idx) && MassOnlyIn(m, idx)
    ensures 0.0 <= TotalMass(m)
    ensures KeywordAttentionRatio(m, idx) == Share(TotalMass(m), TotalMass(m))
  {
    assert ColumnsFit(m, idx) by {
      forall r, j | 0 <= r < |m| && 0 <= j < |idx| ensures idx[j] < |m[r]| {
        assert |m[r]| == |m|;
      }
    }
    TotalMassNonNegative(m);
    KeywordMassIsTotal(m, idx);
  }

  /** The 3 x 3 anti-diagonal permutation matrix: each query attends to one key. */
  const AntiDiagonal: seq<seq<real>> := [[0.0, 0.0, 1.0], [0.0, 1.0, 0.0], [1.0, 0.0, 0.0]]

  /** The anti-diagonal matrix is a square matrix of non-negative weights. */
  lemma AntiDiagonalIsAttention()
    ensures IsSquare(AntiDiagonal) && NonNegative(AntiDiagonal)
  {
  }

  /** On ["a", "b", "c"] with "symbolic" and the anti-diagonal matrix, two of
      the three units of mass lie on keyword columns. */
  lemma ThreeTokenRatio()
    ensures IsSquare(AntiDiagonal) && NonNegative(AntiDiagonal)
    ensures KeywordAttentionRatio(AntiDiagonal, KeywordPositions(["a", "b", "c"], Symbolic))
            == Share(2.0, 3.0)
  {
    var m := AntiDiagonal;
    AntiDiagonalIsAttention();
    ThreeTokenExample();
    KeywordMassByColumns(m, [0, 1]);
    assert ColumnSum(m, 0) == 1.0;
    assert ColumnSum(m, 1) == 1.0;
    assert ColumnsMass(m, [0, 1]) == 2.0;
    assert TotalMass(m) == 3.0;
  }

  // ---------------------------------------------------------------------------
  // Analyzer
  // ---------------------------------------------------------------------------

  /** The keyword-ratio half of the analysis of one attention matrix: locate the
      keywords of the aligned tokens and take the ratio on their columns. */
  method AnalyzeAttention(m: seq<seq<real>>, tokens: seq<string>, inputType: string)
    returns (keywordRatio: real)
    requires IsSquare(m) && NonNegative(m) && |m| == |tokens|
    ensures keywordRatio == KeywordAttentionRatio(m, KeywordPositions(tokens, inputType))
    ensures inputType != Symbolic && inputType != Verbal ==> keywordRatio == 0.0
    ensures 0.0 <= keywordRatio < 1.0
  {
    var keywordsIndices := GetKeywordIndices(tokens, inputType);
    keywordRatio := KeywordAttentionRatio(m, keywordsIndices);
    IncreasingIsDistinct(keywordsIndices);
    RatioBelowOne(m, keywordsIndices);
    if inputType != Symbolic && inputType != Verbal {
      UnknownTypeHasNoKeywords(tokens, inputType);
    }
  }
}
