/**
 * `schulzeWinner`: direct strengths from the pairwise matrix, a
 * Floyd–Warshall-style strongest-path closure, then the set of options whose
 * strongest path to every rival is at least as strong as the way back.
 */
module Schulze {
  import opened Ballots
  import opened Pairwise
  import opened Condorcet

  function Max(a: nat, b: nat): nat { if a >= b then a else b }

  function Min(a: nat, b: nat): nat { if a <= b then a else b }

  /** Initial strength of `a` over `b`: its head-to-head count if it wins that pair, else 0. */
  function Direct(m: seq<seq<nat>>, a: int, b: int): nat
    requires 0 <= a < |m| && 0 <= b < |m| && |m[a]| == |m| && |m[b]| == |m|
  {
    if m[a][b] > m[b][a] then m[a][b] else 0
  }

  /** The matrix of initial strengths. */
  function DirectMatrix(m: seq<seq<nat>>): (d: seq<seq<nat>>)
    requires IsSquare(m, |m|)
  {
    seq(|m|, a requires 0 <= a < |m| => seq(|m|, b requires 0 <= b < |m| => Direct(m, a, b)))
  }

  function RowMax(row: seq<nat>): (r: nat)
    ensures forall k :: 0 <= k < |row| ==> row[k] <= r
  {
    if |row| == 0 then 0 else Max(RowMax(row[..|row| - 1]), row[|row| - 1])
  }

  /** The largest entry of a matrix (0 for an empty one). */
  function MaxEntry(m: seq<seq<nat>>): (r: nat)
    ensures forall a, b :: 0 <= a < |m| && 0 <= b < |m[a]| ==> m[a][b] <= r
  {
    if |m| == 0 then 0
    else
      var r := Max(MaxEntry(m[..|m| - 1]), RowMax(m[|m| - 1]));
      assert forall a :: 0 <= a < |m| - 1 ==> m[a] == m[..|m| - 1][a];
      r
  }

  /** Strength of the two-step path from `j` through `i` to `k`. */
  function Via(p: seq<seq<nat>>, j: int, i: int, k: int): nat
    requires 0 <= i < |p| && 0 <= j < |p| && 0 <= k < |p| && |p[j]| == |p| && |p[i]| == |p|
  {
    Min(p[j][i], p[i][k])
  }

  /**
   * For every intermediate `i` below `t`, no path through `i` is stronger than
   * the direct entry: `p[j][k] >= min(p[j][i], p[i][k])` for distinct i, j, k.
   */
  ghost predicate ClosedThrough(p: seq<seq<nat>>, n: nat, t: int)
    requires IsSquare(p, n)
  {
    forall i, j, k :: 0 <= i < t && i < n && 0 <= j < n && 0 <= k < n && i != j && i != k && j != k ==>
      p[j][k] >= Via(p, j, i, k)
  }

  /** Closed under every intermediate: the strongest-path property the closure establishes. */
  ghost predicate Closed(p: seq<seq<nat>>, n: nat)
    requires IsSquare(p, n)
  {
    ClosedThrough(p, n, n)
  }

  /** One pass of the closure for intermediate `i`, as the j/k loops compute it. */
  ghost function Relax(p: seq<seq<nat>>, n: nat, i: int): (q: seq<seq<nat>>)
    requires IsSquare(p, n) && 0 <= i < n
    ensures IsSquare(q, n)
  {
    seq(n, j requires 0 <= j < n =>
      seq(n, k requires 0 <= k < n =>
        if j != i && k != i && j != k then Max(p[j][k], Via(p, j, i, k)) else p[j][k]))
  }

  /**
   * A pass for intermediate `t` keeps closure under the earlier intermediates
   * and adds closure under `t`.
   */
  lemma RelaxExtendsClosure(p: seq<seq<nat>>, n: nat, t: int)
    requires IsSquare(p, n) && 0 <= t < n && ClosedThrough(p, n, t)
    ensures ClosedThrough(Relax(p, n, t), n, t + 1)
  {
    var q := Relax(p, n, t);
    forall i, j, k | 0 <= i < t + 1 && i < n && 0 <= j < n && 0 <= k < n && i != j && i != k && j != k
      ensures q[j][k] >= Via(q, j, i, k)
    {
      if i == t {
        assert q[j][t] == p[j][t] && q[t][k] == p[t][k];
      } else if j == t {
        assert q[t][k] == p[t][k] && q[t][i] == p[t][i];
        assert p[t][k] >= Via(p, t, i, k);
      } else if k == t {
        assert q[j][t] == p[j][t] && q[i][t] == p[i][t];
        assert p[j][t] >= Via(p, j, i, t);
      } else {
        assert p[j][k] >= Via(p, j, i, k);
        assert p[t][k] >= Via(p, t, i, k);
        assert p[j][t] >= Via(p, j, i, t);
      }
    }
  }

  /** The matrix after the passes for intermediates `0 .. t-1`, applied in order to `d`. */
  ghost function Closure(d: seq<seq<nat>>, n: nat, t: int): (p: seq<seq<nat>>)
    requires IsSquare(d, n) && 0 <= t <= n
    ensures IsSquare(p, n)
    decreases t
  {
    if t == 0 then d else Relax(Closure(d, n, t - 1), n, t - 1)
  }

  /** `p` is entrywise at most `q`. */
  ghost predicate Below(p: seq<seq<nat>>, q: seq<seq<nat>>, n: nat)
    requires IsSquare(p, n) && IsSquare(q, n)
  {
    forall a, b :: 0 <= a < n && 0 <= b < n ==> p[a][b] <= q[a][b]
  }

  /** A pass never climbs above a closed matrix that already bounds its input. */
  lemma RelaxBelow(p: seq<seq<nat>>, q: seq<seq<nat>>, n: nat, i: int)
    requires IsSquare(p, n) && IsSquare(q, n) && 0 <= i < n
    requires Below(p, q, n) && Closed(q, n)
    ensures Below(Relax(p, n, i), q, n)
  {
    var r := Relax(p, n, i);
    forall a, b | 0 <= a < n && 0 <= b < n
      ensures r[a][b] <= q[a][b]
    {
      if a != i && b != i && a != b {
        assert p[a][i] <= q[a][i] && p[i][b] <= q[i][b];
        assert q[a][b] >= Via(q, a, i, b);
      }
    }
  }

  /** Every closed matrix above `d` lies above each stage of the closure. */
  lemma {:induction false} ClosureIsLeast(d: seq<seq<nat>>, q: seq<seq<nat>>, n: nat, t: int)
    requires IsSquare(d, n) && IsSquare(q, n) && 0 <= t <= n
    requires Below(d, q, n) && Closed(q, n)
    ensures Below(Closure(d, n, t), q, n)
    decreases t
  {
    if t > 0 {
      var p := Closure(d, n, t - 1);
      ClosureIsLeast(d, q, n, t - 1);
      RelaxBelow(p, q, n, t - 1);
      assert Closure(d, n, t) == Relax(p, n, t - 1);
    }
  }

  /** Stage `t` of the closure is closed under the intermediates below `t`. */
  lemma {:induction false} ClosureClosedThrough(d: seq<seq<nat>>, n: nat, t: int)
    requires IsSquare(d, n) && 0 <= t <= n
    ensures ClosedThrough(Closure(d, n, t), n, t)
    decreases t
  {
    if t > 0 {
      var p := Closure(d, n, t - 1);
      ClosureClosedThrough(d, n, t - 1);
      RelaxExtendsClosure(p, n, t - 1);
      assert Closure(d, n, t) == Relax(p, n, t - 1);
    }
  }

  /**
   * The full closure is the least closed matrix above `d`: closed, above `d`,
   * and below every other closed matrix above `d`. So every entry is the
   * strength of the strongest path, and no other result satisfies this.
   */
  lemma ClosureIsStrongestPaths(d: seq<seq<nat>>, q: seq<seq<nat>>)
    requires IsSquare(d, |d|) && IsSquare(q, |d|)
    ensures Closed(Closure(d, |d|, |d|), |d|) && Below(d, Closure(d, |d|, |d|), |d|)
    ensures Below(d, q, |d|) && Closed(q, |d|) ==> Below(Closure(d, |d|, |d|), q, |d|)
  {
    ClosureClosedThrough(d, |d|, |d|);
    ClosureBounded(d, |d|, |d|, MaxEntry(d));
    if Below(d, q, |d|) && Closed(q, |d|) {
      ClosureIsLeast(d, q, |d|, |d|);
    }
  }

  /** Column `c` is zero off the diagonal: no option has any strength over `c`. */
  predicate ColumnZero(p: seq<seq<nat>>, n: nat, c: int)
    requires IsSquare(p, n) && 0 <= c < n
  {
    forall x :: 0 <= x < n && x != c ==> p[x][c] == 0
  }

  /** `a` qualifies: its strongest path to every rival is at least as strong as the way back. */
  predicate Dominant(p: seq<seq<nat>>, a: int)
    requires IsSquare(p, |p|) && 0 <= a < |p|
  {
    forall b :: 0 <= b < |p| && b != a ==> p[a][b] >= p[b][a]
  }

  /** `x` beats `y` on strongest paths. */
  predicate Beats(p: seq<seq<nat>>, x: int, y: int)
    requires IsSquare(p, |p|) && 0 <= x < |p| && 0 <= y < |p|
  {
    p[x][y] > p[y][x]
  }

  /** On a closed strength matrix, beating is transitive. */
  lemma BeatsTransitive(p: seq<seq<nat>>, a: int, b: int, c: int)
    requires IsSquare(p, |p|) && Closed(p, |p|)
    requires 0 <= a < |p| && 0 <= b < |p| && 0 <= c < |p|
    requires Beats(p, a, b) && Beats(p, b, c)
    ensures a != c && Beats(p, a, c)
  {
    var n := |p|;
    assert a != b && b != c;
    if a != c {
      assert p[a][c] >= Via(p, a, b, c);
      assert p[b][a] >= Via(p, b, c, a);
      assert p[c][b] >= Via(p, c, a, b);
    }
  }

  /** Every non-empty list of options holds one that no other listed option beats. */
  lemma {:induction false} UnbeatenMember(p: seq<seq<nat>>, s: seq<int>) returns (w: int)
    requires IsSquare(p, |p|) && Closed(p, |p|)
    requires |s| > 0 && forall i :: 0 <= i < |s| ==> 0 <= s[i] < |p|
    ensures w in s && forall y :: y in s && y != w ==> !Beats(p, y, w)
  {
    var x := s[|s| - 1];
    if |s| == 1 {
      w := x;
    } else {
      var rest := s[..|s| - 1];
      var w' := UnbeatenMember(p, rest);
      assert forall y :: y in s ==> y in rest || y == x;
      if Beats(p, x, w') {
        w := x;
        forall y | y in s && y != x
          ensures !Beats(p, y, x)
        {
          if Beats(p, y, x) {
            BeatsTransitive(p, y, x, w');
          }
        }
      } else {
        w := w';
      }
    }
  }

  /** A closed strength matrix over at least one option always has a qualifying option. */
  lemma ClosedHasDominant(p: seq<seq<nat>>) returns (w: int)
    requires IsSquare(p, |p|) && Closed(p, |p|) && |p| > 0
    ensures 0 <= w < |p| && Dominant(p, w)
  {
    var positions := seq(|p|, i => i);
    w := UnbeatenMember(p, positions);
    forall b | 0 <= b < |p| && b != w
      ensures p[w][b] >= p[b][w]
    {
      assert positions[b] == b && b in positions;
    }
    assert Dominant(p, w);
  }

  /** Step 1: the initial strengths. */
  method DirectStrengths(m: seq<seq<nat>>) returns (d: seq<seq<nat>>)
    requires IsSquare(m, |m|)
    ensures d == DirectMatrix(m)
    ensures forall a, b :: 0 <= a < |m| && 0 <= b < |m| && a != b ==>
              d[a][b] == (if m[a][b] > m[b][a] then m[a][b] else 0) && (d[a][b] == 0 || d[b][a] == 0)
  {
    var n := |m|;
    d := [];
    var a := 0;
    while a < n
      invariant 0 <= a <= n && |d| == a
      invariant forall x :: 0 <= x < a ==> d[x] == DirectMatrix(m)[x]
    {
      var row := [];
      var b := 0;
      while b < n
        invariant 0 <= b <= n && |row| == b
        invariant forall y :: 0 <= y < b ==> row[y] == Direct(m, a, y)
      {
        if a == b {
          row := row + [0];
        } else {
          row := row + [if m[a][b] > m[b][a] then m[a][b] else 0];
        }
        b := b + 1;
      }
      d := d + [row];
      a := a + 1;
    }
  }

  /** The inner k loop for intermediate `i` and row `j`. */
  method RelaxRow(p: seq<seq<nat>>, n: nat, i: int, j: int) returns (row: seq<nat>)
    requires IsSquare(p, n) && 0 <= i < n && 0 <= j < n && i != j
    ensures row == Relax(p, n, i)[j]
  {
    row := p[j];
    var k := 0;
    while k < n
      invariant 0 <= k <= n && |row| == n
      invariant forall y :: 0 <= y < n ==> row[y] == (if y < k then Relax(p, n, i)[j][y] else p[j][y])
    {
      if i != k && j != k {
        row := row[k := Max(row[k], Min(row[i], p[i][k]))];
      }
      k := k + 1;
    }
  }

  /** The j loop for intermediate `i`: every row but row `i` is relaxed through `i`. */
  method RelaxPass(p: seq<seq<nat>>, n: nat, i: int) returns (q: seq<seq<nat>>)
    requires IsSquare(p, n) && 0 <= i < n
    ensures q == Relax(p, n, i)
  {
    q := p;
    var j := 0;
    while j < n
      invariant 0 <= j <= n && IsSquare(q, n)
      invariant forall x :: 0 <= x < j ==> q[x] == Relax(p, n, i)[x]
      invariant forall x :: j <= x < n ==> q[x] == p[x]
    {
      if i != j {
        assert q[i] == p[i];
        var row := RelaxRow(q, n, i, j);
        assert Relax(q, n, i)[j] == Relax(p, n, i)[j];
        q := q[j := row];
      } else {
        assert Relax(p, n, i)[j] == p[j];
      }
      j := j + 1;
    }
  }

  /** A pass only raises entries, and never above a bound every entry already respects. */
  lemma RelaxRaises(d: seq<seq<nat>>, p: seq<seq<nat>>, n: nat, i: int, top: nat)
    requires IsSquare(d, n) && IsSquare(p, n) && 0 <= i < n
    requires forall a, b :: 0 <= a < n && 0 <= b < n ==> d[a][b] <= p[a][b] <= top
    ensures forall a, b :: 0 <= a < n && 0 <= b < n ==> d[a][b] <= Relax(p, n, i)[a][b] <= top
  {
    var q := Relax(p, n, i);
    forall a, b | 0 <= a < n && 0 <= b < n
      ensures d[a][b] <= q[a][b] <= top
    {
      assert p[a][b] <= top && p[a][i] <= top;
    }
  }

  /** A pass keeps a zero column zero: a path into `c` is never stronger than its last step. */
  lemma RelaxKeepsZeroColumn(p: seq<seq<nat>>, n: nat, i: int, c: int)
    requires IsSquare(p, n) && 0 <= i < n && 0 <= c < n && ColumnZero(p, n, c)
    ensures ColumnZero(Relax(p, n, i), n, c)
  {
    var q := Relax(p, n, i);
    forall x | 0 <= x < n && x != c
      ensures q[x][c] == 0
    {
      assert p[x][c] == 0;
      if i != c {
        assert p[i][c] == 0;
      }
    }
  }

  /** Every stage of the closure lies between `d` and any bound on the entries of `d`. */
  lemma {:induction false} ClosureBounded(d: seq<seq<nat>>, n: nat, t: int, top: nat)
    requires IsSquare(d, n) && 0 <= t <= n
    requires forall a, b :: 0 <= a < n && 0 <= b < n ==> d[a][b] <= top
    ensures forall a, b :: 0 <= a < n && 0 <= b < n ==> d[a][b] <= Closure(d, n, t)[a][b] <= top
    decreases t
  {
    if t > 0 {
      ClosureBounded(d, n, t - 1, top);
      RelaxRaises(d, Closure(d, n, t - 1), n, t - 1, top);
    }
  }

  /** Every stage of the closure keeps a zero column of `d` zero. */
  lemma {:induction false} ClosureKeepsZeroColumn(d: seq<seq<nat>>, n: nat, t: int, c: int)
    requires IsSquare(d, n) && 0 <= t <= n && 0 <= c < n && ColumnZero(d, n, c)
    ensures ColumnZero(Closure(d, n, t), n, c)
    decreases t
  {
    if t > 0 {
      ClosureKeepsZeroColumn(d, n, t - 1, c);
      RelaxKeepsZeroColumn(Closure(d, n, t - 1), n, t - 1, c);
    }
  }

  /** Step 2: the strongest-path closure over every intermediate option. */
  method StrongestPaths(d: seq<seq<nat>>) returns (p: seq<seq<nat>>)
    requires IsSquare(d, |d|)
    ensures p == Closure(d, |d|, |d|)
    ensures IsSquare(p, |d|) && Closed(p, |d|)
    ensures forall a, b :: 0 <= a < |d| && 0 <= b < |d| ==> d[a][b] <= p[a][b] <= MaxEntry(d)
    ensures forall c :: 0 <= c < |d| && ColumnZero(d, |d|, c) ==> ColumnZero(p, |d|, c)
  {
    var n := |d|;
    p := d;
    var i := 0;
    while i < n
      invariant 0 <= i <= n && p == Closure(d, n, i)
    {
      p := RelaxPass(p, n, i);
      i := i + 1;
    }
    ClosureProperties(d);
  }

  /** The full closure is closed, lies between `d` and its largest entry, and keeps zero columns zero. */
  lemma ClosureProperties(d: seq<seq<nat>>)
    requires IsSquare(d, |d|)
    ensures Closed(Closure(d, |d|, |d|), |d|)
    ensures forall a, b :: 0 <= a < |d| && 0 <= b < |d| ==> d[a][b] <= Closure(d, |d|, |d|)[a][b] <= MaxEntry(d)
    ensures forall c :: 0 <= c < |d| && ColumnZero(d, |d|, c) ==> ColumnZero(Closure(d, |d|, |d|), |d|, c)
  {
    var n := |d|;
    ClosureClosedThrough(d, n, n);
    ClosureBounded(d, n, n, MaxEntry(d));
    forall c | 0 <= c < n && ColumnZero(d, n, c)
      ensures ColumnZero(Closure(d, n, n), n, c)
    {
      ClosureKeepsZeroColumn(d, n, n, c);
    }
  }

  /** The b loop: whether option `a`'s strongest path to each rival is at least as strong as the way back. */
  method Qualifies(options: seq<Label>, p: seq<seq<nat>>, a: int) returns (ok: bool)
    requires Distinct(options) && IsSquare(p, |options|) && 0 <= a < |options|
    ensures ok <==> Dominant(p, a)
  {
    ok := true;
    var b := 0;
    while b < |options|
      invariant 0 <= b <= |options|
      invariant ok <==> forall y :: 0 <= y < b && y != a ==> p[a][y] >= p[y][a]
    {
      if options[a] != options[b] {
        if p[a][b] < p[b][a] {
          ok := false;
          break;
        }
      }
      b := b + 1;
    }
  }

  /** The qualifying options among the first `a`, in declared order. */
  function Qualifying(options: seq<Label>, p: seq<seq<nat>>, a: int): (w: seq<Label>)
    requires IsSquare(p, |options|) && 0 <= a <= |options|
    ensures |w| <= a
  {
    if a == 0 then []
    else Qualifying(options, p, a - 1) + (if Dominant(p, a - 1) then [options[a - 1]] else [])
  }

  /**
   * The listed options are among the first `a`, each after the one before it
   * in declared order.
   */
  lemma {:induction false} QualifyingInOrder(options: seq<Label>, p: seq<seq<nat>>, a: int)
    requires Distinct(options) && IsSquare(p, |options|) && 0 <= a <= |options|
    ensures forall i :: 0 <= i < |Qualifying(options, p, a)| ==>
              0 <= IndexOf(options, Qualifying(options, p, a)[i]) < a
    ensures forall i, j :: 0 <= i < j < |Qualifying(options, p, a)| ==>
              IndexOf(options, Qualifying(options, p, a)[i]) < IndexOf(options, Qualifying(options, p, a)[j])
  {
    if a > 0 {
      QualifyingInOrder(options, p, a - 1);
      var dominant := Dominant(p, a - 1);
      InOrderStep(options, Qualifying(options, p, a - 1), Qualifying(options, p, a), a, dominant);
    }
  }

  /** Listing option `a - 1` or not after a list of earlier options keeps the list in declared order. */
  lemma InOrderStep(options: seq<Label>, w: seq<Label>, v: seq<Label>, a: int, listed: bool)
    requires Distinct(options) && 0 < a <= |options|
    requires v == w + (if listed then [options[a - 1]] else [])
    requires forall i :: 0 <= i < |w| ==> 0 <= IndexOf(options, w[i]) < a - 1
    requires forall i, j :: 0 <= i < j < |w| ==> IndexOf(options, w[i]) < IndexOf(options, w[j])
    ensures forall i :: 0 <= i < |v| ==> 0 <= IndexOf(options, v[i]) < a
    ensures forall i, j :: 0 <= i < j < |v| ==> IndexOf(options, v[i]) < IndexOf(options, v[j])
  {
    IndexOfDistinct(options, a - 1);
    forall i, j | 0 <= i < j < |v|
      ensures IndexOf(options, v[i]) < IndexOf(options, v[j])
    {
      assert v[i] == w[i];
      if j < |w| {
        assert v[j] == w[j];
      }
    }
  }

  /** Option `x` is listed exactly when it is among the first `a` and qualifies. */
  lemma {:induction false} QualifyingMembers(options: seq<Label>, p: seq<seq<nat>>, a: int, x: int)
    requires Distinct(options) && IsSquare(p, |options|) && 0 <= a <= |options| && 0 <= x < |options|
    ensures options[x] in Qualifying(options, p, a) <==> x < a && Dominant(p, x)
  {
    if a > 0 {
      QualifyingMembers(options, p, a - 1, x);
    }
  }

  /** Step 3: the qualifying options, in declared order. */
  method WinnerSet(options: seq<Label>, p: seq<seq<nat>>) returns (winners: seq<Label>)
    requires Distinct(options) && IsSquare(p, |options|)
    ensures winners == Qualifying(options, p, |options|)
    ensures forall a :: 0 <= a < |options| ==> (options[a] in winners <==> Dominant(p, a))
    ensures forall x :: x in winners ==> x in options
    ensures forall i, j :: 0 <= i < j < |winners| ==> IndexOf(options, winners[i]) < IndexOf(options, winners[j])
  {
    winners := [];
    var a := 0;
    while a < |options|
      invariant 0 <= a <= |options|
      invariant winners == Qualifying(options, p, a)
    {
      var ok := Qualifies(options, p, a);
      if ok {
        winners := winners + [options[a]];
      }
      a := a + 1;
    }
    forall x | 0 <= x < |options|
      ensures options[x] in winners <==> Dominant(p, x)
    {
      QualifyingMembers(options, p, |options|, x);
    }
    QualifyingInOrder(options, p, |options|);
  }

  /** Steps 1 and 2: the strongest-path strengths for a pairwise matrix. */
  method StrengthMatrix(m: seq<seq<nat>>) returns (p: seq<seq<nat>>)
    requires IsSquare(m, |m|)
    ensures p == Closure(DirectMatrix(m), |m|, |m|)
    ensures IsSquare(p, |m|) && Closed(p, |m|)
    ensures forall a, b :: 0 <= a < |m| && 0 <= b < |m| ==> Direct(m, a, b) <= p[a][b] <= MaxEntry(DirectMatrix(m))
    ensures forall c :: 0 <= c < |m| && BeatsAll(m, c) ==>
              Dominant(p, c) && forall a :: 0 <= a < |m| && a != c ==> !Dominant(p, a)
  {
    var d := DirectStrengths(m);
    p := StrongestPaths(d);
    forall c | 0 <= c < |m| && BeatsAll(m, c)
      ensures Dominant(p, c) && forall a :: 0 <= a < |m| && a != c ==> !Dominant(p, a)
    {
      CondorcetWinnerAloneDominant(m, d, p, c);
    }
  }

  method SchulzeWinner(options: seq<Label>, m: seq<seq<nat>>)
    returns (winner: Option<Label>, p: seq<seq<nat>>, winners: seq<Label>)
    requires Distinct(options) && IsSquare(m, |options|)
    ensures p == Closure(DirectMatrix(m), |m|, |m|)
    ensures IsSquare(p, |options|) && Closed(p, |options|)
    ensures forall a, b :: 0 <= a < |options| && 0 <= b < |options| ==>
              Direct(m, a, b) <= p[a][b] <= MaxEntry(DirectMatrix(m))
    ensures forall a :: 0 <= a < |options| ==> (options[a] in winners <==> Dominant(p, a))
    ensures forall x :: x in winners ==> x in options
    ensures forall i, j :: 0 <= i < j < |winners| ==> IndexOf(options, winners[i]) < IndexOf(options, winners[j])
    ensures |options| > 0 ==> |winners| > 0
    ensures winner == if |winners| > 0 then Some(winners[0]) else None
    ensures forall c :: 0 <= c < |options| && BeatsAll(m, c) ==>
              winner == Some(options[c]) && forall x :: x in winners ==> x == options[c]
  {
    p := StrengthMatrix(m);
    winners := WinnerSet(options, p);
    winner := if |winners| > 0 then Some(winners[0]) else None;
    WinnerListFacts(options, m, p, winners);
  }

  /** What the list of qualifying options says about the winner: some option qualifies, and a Condorcet winner is alone. */
  lemma WinnerListFacts(options: seq<Label>, m: seq<seq<nat>>, p: seq<seq<nat>>, winners: seq<Label>)
    requires IsSquare(m, |options|) && IsSquare(p, |options|) && Closed(p, |options|)
    requires forall a :: 0 <= a < |options| ==> (options[a] in winners <==> Dominant(p, a))
    requires forall x :: x in winners ==> x in options
    requires forall c :: 0 <= c < |m| && BeatsAll(m, c) ==>
               Dominant(p, c) && forall a :: 0 <= a < |m| && a != c ==> !Dominant(p, a)
    ensures |options| > 0 ==> |winners| > 0
    ensures forall c :: 0 <= c < |options| && BeatsAll(m, c) ==>
              |winners| > 0 && winners[0] == options[c] && forall x :: x in winners ==> x == options[c]
  {
    if |options| > 0 {
      var a := ClosedHasDominant(p);
      assert options[a] in winners;
    }
    forall c | 0 <= c < |options| && BeatsAll(m, c)
      ensures |winners| > 0 && winners[0] == options[c] && forall x :: x in winners ==> x == options[c]
    {
      OnlyDominantListed(options, p, winners, c);
    }
  }

  /** When `c` is the one qualifying option, the list of qualifying options is exactly `[options[c]]`. */
  lemma OnlyDominantListed(options: seq<Label>, p: seq<seq<nat>>, winners: seq<Label>, c: int)
    requires IsSquare(p, |options|) && 0 <= c < |options|
    requires forall a :: 0 <= a < |options| ==> (options[a] in winners <==> Dominant(p, a))
    requires forall x :: x in winners ==> x in options
    requires Dominant(p, c) && forall a :: 0 <= a < |options| && a != c ==> !Dominant(p, a)
    ensures |winners| > 0 && winners[0] == options[c]
    ensures forall x :: x in winners ==> x == options[c]
  {
    forall x | x in winners
      ensures x == options[c]
    {
      var a := IndexOf(options, x);
      assert options[a] in winners;
    }
    assert winners[0] in winners;
  }

  /**
   * A Condorcet winner `c` keeps a zero column through the closure and a
   * positive entry over every rival, so it is the only option that qualifies.
   */
  lemma CondorcetWinnerAloneDominant(m: seq<seq<nat>>, d: seq<seq<nat>>, p: seq<seq<nat>>, c: int)
    requires IsSquare(m, |m|) && 0 <= c < |m| && BeatsAll(m, c)
    requires d == DirectMatrix(m) && IsSquare(p, |m|)
    requires forall a, b :: 0 <= a < |m| && 0 <= b < |m| ==> d[a][b] <= p[a][b]
    requires ColumnZero(d, |m|, c) ==> ColumnZero(p, |m|, c)
    ensures Dominant(p, c)
    ensures forall a :: 0 <= a < |m| && a != c ==> !Dominant(p, a)
  {
    var n := |m|;
    assert ColumnZero(d, n, c) by {
      forall x | 0 <= x < n && x != c
        ensures d[x][c] == 0
      {
        assert m[c][x] > m[x][c];
      }
    }
    forall a | 0 <= a < n && a != c
      ensures !Dominant(p, a)
    {
      assert m[c][a] > m[a][c];
      assert p[c][a] >= d[c][a] > 0 == p[a][c];
    }
  }
}
