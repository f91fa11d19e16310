/** The rounds of phase 1 as a run: which row each round chooses, by the flags and degrees the rows of the original
    matrix have, and what it does to the matrix (src/fast_decode.cpp, lines 116-299). */
module PivotRuns {
  import opened Sequences
  import opened Octets
  import opened Permutations
  import opened LinearAlgebra
  import opened Matrices
  import opened Elimination
  import opened PivotChoice
  import opened Params

  predicate IsHDPC(param: Param, j: nat) {
    param.S <= j < param.S + param.H
  }

  /** The original degree of a row: the sum of its octets in the columns that start in V. */
  function Degree(row: Row, param: Param): nat
    requires param.P <= param.L <= |row|
  {
    RowSum(row, 0, param.L - param.P)
  }

  /** Place j holds row w[j] of the original matrix A0, with row operations added to it. */
  ghost predicate Places(A0: seq<Row>, param: Param, w: seq<nat>) {
    IsMatrix(A0, param.L) && param.P <= param.L && IsPermutation(w) && |w| == |A0|
  }

  /** The flags and degrees of the rows at their places. */
  ghost function Flags(A0: seq<Row>, param: Param, w: seq<nat>): (tr: seq<IntPair>)
    requires Places(A0, param, w)
    ensures |tr| == |w|
    ensures forall j {:trigger tr[j]} :: 0 <= j < |w| ==> tr[j] == IntPair(if IsHDPC(param, w[j]) then 1 else 0, Degree(A0[w[j]], param))
  {
    seq(|w|, j requires 0 <= j < |w| => IntPair(if IsHDPC(param, w[j]) then 1 else 0, Degree(A0[w[j]], param)))
  }

  /** The rule by which row chosen is the pivot row of V: it has the least positive number r of non-zero octets, and
      among the rows with as many it is chosen by degree or by the graph. */
  ghost predicate Obeys(a: seq<Row>, tr: seq<IntPair>, i: nat, vEnd: nat, r: nat, chosen: nat) {
    && 0 < r && Candidate(a, chosen, i, vEnd, r) && LeastCount(a, |a|, i, vEnd, r)
    && (if r == 2 then InMaximumComponent(a, tr, chosen, i, vEnd) else LeastDegree(a, tr, chosen, i, vEnd, r))
  }

  /** The columns of V are reordered by s so that the pivot is in column i and only the last r - 1 columns of V have other
      non-zero octets of row i. */
  ghost predicate Turned(b: seq<Row>, i: nat, vEnd: nat, r: nat, s: seq<nat>, c: seq<Row>) {
    && i < |b| && MovesOnly(s, i, vEnd) && i < |s| && IsMatrix(b, |s|) && c == PermuteColumns(b, s)
    && c[i][i] != 0 && forall q :: i < q < vEnd - (r - 1) && q < |s| ==> c[i][q] == 0
  }

  /** Behind that column i is cleared below row i. */
  ghost predicate Cleared(F: Field, b: seq<Row>, i: nat, vEnd: nat, r: nat, s: seq<nat>, a': seq<Row>) {
    && MovesOnly(s, i, vEnd) && IsMatrix(b, |s|)
    && var c := PermuteColumns(b, s);
    && Turned(b, i, vEnd, r, s, c) && a' == AddMultiples(F, c, i, Factors(F, c, i))
  }

  /** The rows a, which are those of the original matrix in the order w with row operations added, and the end of V. */
  datatype State = State(a: seq<Row>, w: seq<nat>, vEnd: nat)

  /** The choice of a round: a row with r non-zero octets in V, and the order of the columns after it. */
  datatype Choice = Choice(r: nat, chosen: nat, s: seq<nat>)

  /** The states of phase 1, from the first to the last, and the choices between them. */
  datatype Phase = Phase(states: seq<State>, choices: seq<Choice>)

  /** Round k obeys the rule for the flags and degrees the rows have in the original matrix; row chosen becomes row k. */
  ghost predicate RoundAt(F: Field, A0: seq<Row>, param: Param, run: Phase, k: nat)
    requires k < |run.choices| && |run.states| == |run.choices| + 1
  {
    var x, y, c := run.states[k], run.states[k + 1], run.choices[k];
    && Places(A0, param, x.w) && |x.a| == |A0| && k < |A0| && c.chosen < |A0|
    && Obeys(x.a, Flags(A0, param, x.w), k, x.vEnd, c.r, c.chosen)
    && Cleared(F, SwapAt(x.a, k, c.chosen), k, x.vEnd, c.r, c.s, y.a) && y.w == SwapAt(x.w, k, c.chosen) && y.vEnd == x.vEnd - (c.r - 1)
  }

  /** A run of phase 1 starts with the original matrix. */
  ghost predicate IsRun(F: Field, A0: seq<Row>, param: Param, run: Phase) {
    && |run.states| == |run.choices| + 1 && param.P <= param.L && run.states[0] == State(A0, Identity(|A0|), param.L - param.P)
    && forall k: nat {:trigger RoundAt(F, A0, param, run, k)} :: k < |run.choices| ==> RoundAt(F, A0, param, run, k)
  }

  /** After i rounds the rows are a, their flags and degrees tr, and V ends at vEnd. */
  ghost predicate RunTo(F: Field, A0: seq<Row>, param: Param, run: Phase, a: seq<Row>, tr: seq<IntPair>, i: nat, vEnd: nat) {
    && IsRun(F, A0, param, run) && |run.choices| == i && Last(run.states).a == a && Last(run.states).vEnd == vEnd
    && Places(A0, param, Last(run.states).w) && tr == Flags(A0, param, Last(run.states).w)
  }

  /** A run of phase 1 that leaves rows a: it goes on until V has no columns, or fails because V is zero. */
  ghost predicate Ran(F: Field, A0: seq<Row>, param: Param, run: Phase, a: seq<Row>, success: bool) {
    && IsRun(F, A0, param, run) && Last(run.states).a == a
    && var i, vEnd := |run.choices|, Last(run.states).vEnd;
       if success then i == vEnd else i < vEnd && ZeroRows(a, |a|, i, vEnd)
  }

  lemma ClearedBy(F: Field, b: seq<Row>, c: seq<Row>, i: nat, vEnd: nat, r: nat, s: seq<nat>, a': seq<Row>)
    requires Turned(b, i, vEnd, r, s, c) && a' == AddMultiples(F, c, i, Factors(F, c, i))
    ensures Cleared(F, b, i, vEnd, r, s, a')
  {
  }

  ghost function Started(A0: seq<Row>, param: Param): Phase
    requires param.P <= param.L
  {
    Phase([State(A0, Identity(|A0|), param.L - param.P)], [])
  }

  lemma RunStarts(F: Field, A0: seq<Row>, param: Param, tr: seq<IntPair>)
    requires IsMatrix(A0, param.L) && param.P <= param.L && |tr| == |A0|
    requires forall j :: 0 <= j < |A0| ==> tr[j] == IntPair(if IsHDPC(param, j) then 1 else 0, Degree(A0[j], param))
    ensures RunTo(F, A0, param, Started(A0, param), A0, tr, 0, param.L - param.P)
  {
    IdentityIsPermutation(|A0|);
    assert tr == Flags(A0, param, Identity(|A0|));
  }

  ghost function Extended(run: Phase, c: Choice, a: seq<Row>): (next: Phase)
    requires run.states != [] && |run.choices| < |Last(run.states).w| && c.chosen < |Last(run.states).w| && c.r <= Last(run.states).vEnd
  {
    var x, i := Last(run.states), |run.choices|;
    Phase(run.states + [State(a, SwapAt(x.w, i, c.chosen), x.vEnd - (c.r - 1))], run.choices + [c])
  }

  /** One more round. */
  lemma RunExtended(F: Field, A0: seq<Row>, param: Param, run: Phase, a: seq<Row>, tr: seq<IntPair>, i: nat, vEnd: nat, c: Choice, a': seq<Row>)
    requires RunTo(F, A0, param, run, a, tr, i, vEnd) && i < |a| == |A0| && c.chosen < |a| && c.r <= vEnd
    requires Obeys(a, tr, i, vEnd, c.r, c.chosen) && Cleared(F, SwapAt(a, i, c.chosen), i, vEnd, c.r, c.s, a')
    ensures |Last(run.states).w| == |a|
    ensures RunTo(F, A0, param, Extended(run, c, a'), a', SwapAt(tr, i, c.chosen), i + 1, vEnd - (c.r - 1))
  {
    var next, w := Extended(run, c, a'), Last(run.states).w;
    SwapIsPermutation(w, i, c.chosen);
    assert SwapAt(tr, i, c.chosen) == Flags(A0, param, SwapAt(w, i, c.chosen));
    forall k: nat | k < |next.choices|
      ensures RoundAt(F, A0, param, next, k)
    {
      if k < i {
        assert RoundAt(F, A0, param, run, k);
        assert next.states[k] == run.states[k] && next.states[k + 1] == run.states[k + 1] && next.choices[k] == run.choices[k];
      }
    }
  }

  /** In every round whose pivot row has other than two non-zero octets in V it is a row of least original degree among
      those with as few, and an HDPC row only if all of these are. */
  lemma DegreeRule(F: Field, A0: seq<Row>, param: Param, run: Phase, k: nat, j: nat)
    requires IsRun(F, A0, param, run) && k < |run.choices| && run.choices[k].r != 2
    requires Candidate(run.states[k].a, j, k, run.states[k].vEnd, run.choices[k].r)
    ensures var w, chosen := run.states[k].w, run.choices[k].chosen;
            && Places(A0, param, w) && j < |w| && chosen < |w|
            && (IsHDPC(param, w[chosen]) ==> IsHDPC(param, w[j]))
            && ((IsHDPC(param, w[chosen]) <==> IsHDPC(param, w[j])) ==> Degree(A0[w[chosen]], param) <= Degree(A0[w[j]], param))
  {
    assert RoundAt(F, A0, param, run, k);
  }

  /** In every round whose pivot row has two non-zero octets in V: if there is a row that is no HDPC row and has two
      ones and nothing else there, the pivot row is such a row. */
  lemma GraphRule(F: Field, A0: seq<Row>, param: Param, run: Phase, k: nat, j: nat)
    requires IsRun(F, A0, param, run) && k < |run.choices| && run.choices[k].r == 2
    requires Candidate(run.states[k].a, j, k, run.states[k].vEnd, 2) && Ones(run.states[k].a[j], k, run.states[k].vEnd) == 2
    requires j < |run.states[k].w| && !IsHDPC(param, run.states[k].w[j])
    ensures var x, chosen := run.states[k], run.choices[k].chosen;
            && chosen < |x.w| && !IsHDPC(param, x.w[chosen])
            && chosen < |x.a| && x.vEnd <= |x.a[chosen]| && Ones(x.a[chosen], k, x.vEnd) == 2
  {
    assert RoundAt(F, A0, param, run, k);
    var x := run.states[k];
    assert EdgeRow(x.a, Flags(A0, param, x.w), j, k, x.vEnd);
  }
}
