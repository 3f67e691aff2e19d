/** The progress display: a row of stars under a scale of 51 characters. Counts are
    unbounded and the two `double` expressions are exact fractions. */
module Progress {
  import opened NumberTheory
  import opened Strings

  const SCALE := "|----|----|----|----|----|----|----|----|----|----|"
  const HEADING := "0%   10   20   30   40   50   60   70   80   90   100%\n"

  /** The counters of the display. */
  datatype Counters = Counters(count: nat, expected: nat, nextTic: nat, tic: nat)

  function Stars(n: nat): string {
    seq(n, _ => '*')
  }

  function Larger(a: nat, b: nat): nat {
    if a < b then b else a
  }

  function TicsNeeded(d: Counters): nat
    requires d.expected > 0
  {
    50 * d.count / d.expected
  }

  /** `display_tic`: the counters afterwards. At least one star is printed. */
  function TicDisplayed(d: Counters): Counters
    requires d.expected > 0
  {
    var tic := Larger(d.tic + 1, TicsNeeded(d));
    d.(tic := tic, nextTic := tic * d.expected / 50)
  }

  /** `display_tic`: the text printed. */
  function TicText(d: Counters): string
    requires d.expected > 0
  {
    var tic := TicDisplayed(d).tic;
    Stars(tic - d.tic) + LineEnd(d.count, d.expected, tic)
  }

  /** The closing star and the end of the line, when the count has come out exactly. */
  function LineEnd(count: nat, expected: nat, tic: nat): string {
    if count == expected then (if tic < 51 then "*\n" else "\n") else ""
  }

  function Counted(d: Counters, increment: nat): Counters {
    d.(count := d.count + increment)
  }

  /** `operator+=`. */
  function Added(d: Counters, increment: nat): Counters
    requires d.expected > 0
  {
    var c := Counted(d, increment);
    if c.count >= c.nextTic then TicDisplayed(c) else c
  }

  function AddedText(d: Counters, increment: nat): string
    requires d.expected > 0
  {
    var c := Counted(d, increment);
    if c.count >= c.nextTic then TicText(c) else ""
  }

  function Restarted(expected: nat): (d: Counters)
    ensures d.expected > 0
  {
    Counters(0, if expected == 0 then 1 else expected, 0, 0)
  }

  class ProgressDisplay {
    const s1: string
    const s2: string
    const s3: string
    var out: string
    var count: nat
    var expected: nat
    var nextTic: nat
    var tic: nat

    function View(): Counters
      reads this
    {
      Counters(count, expected, nextTic, tic)
    }

    constructor (expectedCount: nat, s1: string, s2: string, s3: string)
      ensures View() == Restarted(expectedCount)
      ensures count == 0 && expected == (if expectedCount == 0 then 1 else expectedCount) && nextTic == 0 && tic == 0
      ensures out == s1 + HEADING + s2 + SCALE + "\n" + s3
    {
      this.s1, this.s2, this.s3 := s1, s2, s3;
      out, count, expected, nextTic, tic := "", 0, 1, 0, 0;
      new;
      Restart(expectedCount);
      assert "" + (s1 + HEADING + s2 + SCALE + "\n" + s3) == s1 + HEADING + s2 + SCALE + "\n" + s3;
    }

    method Restart(expectedCount: nat)
      modifies this
      ensures View() == Restarted(expectedCount)
      ensures count == 0 && expected == (if expectedCount == 0 then 1 else expectedCount) && nextTic == 0 && tic == 0
      ensures out == old(out) + (s1 + HEADING + s2 + SCALE + "\n" + s3)
    {
      count, nextTic, tic := 0, 0, 0;
      expected := expectedCount;
      out := out + (s1 + HEADING + s2 + SCALE + "\n" + s3);
      if expected == 0 {
        expected := 1;
      }
    }

    method AddAssign(increment: nat) returns (c: nat)
      requires expected > 0
      modifies this
      ensures View() == Added(old(View()), increment) && c == old(count) + increment
      ensures out == old(out) + AddedText(old(View()), increment)
      ensures c == count && expected == old(expected)
      ensures count < old(nextTic) ==> tic == old(tic) && nextTic == old(nextTic) && out == old(out)
      ensures count >= old(nextTic) ==>
                && tic == (if old(tic) + 1 < 50 * count / expected then 50 * count / expected else old(tic) + 1)
                && nextTic == tic * expected / 50
                && out == old(out) + (Stars(tic - old(tic))
                    + if count == expected then (if tic < 51 then "*\n" else "\n") else "")
    {
      count := count + increment;
      if count >= nextTic {
        DisplayTic();
      } else {
        assert out + "" == out;
      }
      return count;
    }

    method DisplayTic()
      requires expected > 0
      modifies this
      ensures View() == TicDisplayed(old(View()))
      ensures out == old(out) + TicText(old(View()))
      ensures count == old(count) && expected == old(expected)
      ensures tic == (if old(tic) + 1 < 50 * count / expected then 50 * count / expected else old(tic) + 1)
      ensures nextTic == tic * expected / 50
      ensures out == old(out) + (Stars(tic - old(tic))
                    + if count == expected then (if tic < 51 then "*\n" else "\n") else "")
    {
      ghost var before, tic0 := out, tic;
      var ticsNeeded := 50 * count / expected;
      // the body of the do-while loop runs once before its test
      out := out + "*";
      tic := tic + 1;
      while tic < ticsNeeded
        invariant tic0 < tic <= Larger(tic0 + 1, ticsNeeded)
        invariant out == before + Stars(tic - tic0)
        invariant count == old(count) && expected == old(expected)
      {
        out := out + "*";
        tic := tic + 1;
      }
      nextTic := tic * expected / 50;
      ghost var stars := Stars(tic - tic0);
      assert before + stars + "*" + "\n" == before + (stars + "*\n");
      assert before + stars + "\n" == before + (stars + "\n");
      assert stars + "" == stars;
      if count == expected {
        if tic < 51 {
          out := out + "*";
        }
        out := out + "\n";
      }
    }
  }

  // ------------------------------------------------------------- invariant

  function CeilDiv(a: nat, b: nat): nat
    requires b > 0
  {
    (a + b - 1) / b
  }

  /** The next-tic threshold goes with the tic count, and the tic count follows the
      count from both sides. */
  predicate Inv(d: Counters) {
    && d.expected > 0
    && d.nextTic == d.tic * d.expected / 50
    && 50 * d.count / d.expected <= d.tic <= CeilDiv(50 * (d.count + 1), d.expected)
  }

  lemma FloorFacts(a: nat, b: nat, q: nat)
    requires b > 0
    ensures a / b >= q <==> a >= q * b
    ensures CeilDiv(a, b) >= q + 1 <==> a > q * b
  {
    DivAtLeast(a, b, q);
    DivAtLeast(a + b - 1, b, q + 1);
    assert (q + 1) * b == q * b + b;
  }

  lemma DivAtLeast(a: nat, b: nat, q: nat)
    requires b > 0
    ensures a / b >= q <==> a >= q * b
  {
    var k, r := a / b, a % b;
    assert a == k * b + r;
    if k >= q {
      MulMonotone(q, k, b);
    } else {
      MulMonotone(k + 1, q, b);
    }
  }

  lemma RestartedInv(expected: nat)
    ensures Inv(Restarted(expected))
  {
    var e := Restarted(expected).expected;
    FloorFacts(0, e, 1);
  }

  /** A threshold that has been reached leaves room for one more tic. */
  lemma RoomForTic(tic: nat, e: nat, count: nat)
    requires e > 0 && count >= tic * e / 50
    ensures tic + 1 <= CeilDiv(50 * (count + 1), e)
  {
    FloorFacts(tic * e, 50, count + 1);
    FloorFacts(50 * (count + 1), e, tic);
  }

  lemma RoomForNeeded(e: nat, count: nat)
    requires e > 0
    ensures 50 * count / e <= CeilDiv(50 * (count + 1), e)
  {
    var n := 50 * count / e;
    if n > 0 {
      FloorFacts(50 * count, e, n);
      FloorFacts(50 * (count + 1), e, n - 1);
      assert (n - 1) * e == n * e - e;
    }
  }

  /** Below the threshold the tics displayed suffice. */
  lemma NoTicNeeded(tic: nat, e: nat, count: nat)
    requires e > 0 && count < tic * e / 50
    ensures 50 * count / e <= tic
  {
    FloorFacts(tic * e, 50, count + 1);
    FloorFacts(50 * count, e, tic + 1);
    assert (tic + 1) * e == tic * e + e;
  }

  /** Any increment keeps the tic count between its two bounds. */
  lemma AddedInv(d: Counters, increment: nat)
    requires Inv(d)
    ensures Inv(Added(d, increment))
  {
    var c := Counted(d, increment);
    MonotoneBounds(d, c);
    if c.count >= c.nextTic {
      RoomForTic(c.tic, c.expected, c.count);
      RoomForNeeded(c.expected, c.count);
    } else {
      NoTicNeeded(c.tic, c.expected, c.count);
    }
  }

  /** Counting on raises the upper bound at most. */
  lemma MonotoneBounds(d: Counters, c: Counters)
    requires d.expected > 0 && c.expected == d.expected && d.count <= c.count
    ensures CeilDiv(50 * (d.count + 1), d.expected) <= CeilDiv(50 * (c.count + 1), d.expected)
  {
    var q := CeilDiv(50 * (d.count + 1), d.expected);
    if q > 0 {
      FloorFacts(50 * (d.count + 1), d.expected, q - 1);
      FloorFacts(50 * (c.count + 1), d.expected, q - 1);
    }
  }

  // ------------------------------------------------------------ whole runs

  function Run(d: Counters, increments: seq<nat>): (r: Counters)
    requires d.expected > 0
    ensures r.expected == d.expected
  {
    if increments == [] then d else Added(Run(d, increments[..|increments| - 1]), increments[|increments| - 1])
  }

  function RunText(d: Counters, increments: seq<nat>): string
    requires d.expected > 0
  {
    if increments == [] then ""
    else
      var before := increments[..|increments| - 1];
      RunText(d, before) + AddedText(Run(d, before), increments[|increments| - 1])
  }

  lemma {:induction false} RunInv(expected: nat, increments: seq<nat>)
    ensures Inv(Run(Restarted(expected), increments))
  {
    if increments == [] {
      RestartedInv(expected);
    } else {
      var k := |increments| - 1;
      RunInv(expected, increments[..k]);
      AddedInv(Run(Restarted(expected), increments[..k]), increments[k]);
    }
  }

  /** The counters after a run, by the sum of its increments alone: how far the tics are,
      and when the next one is due. */
  lemma RunBounds(expected: nat, increments: seq<nat>)
    ensures var e, sum := if expected == 0 then 1 else expected, Sum(increments);
            var d := Run(Restarted(expected), increments);
            && d.count == sum && d.expected == e && d.nextTic == d.tic * e / 50
            && 50 * sum / e <= d.tic <= (50 * (sum + 1) + e - 1) / e
  {
    RunInv(expected, increments);
    RunCounts(Restarted(expected), increments);
  }

  function Sum(increments: seq<nat>): nat {
    if increments == [] then 0 else Sum(increments[..|increments| - 1]) + increments[|increments| - 1]
  }

  lemma {:induction false} RunCounts(d: Counters, increments: seq<nat>)
    requires d.expected > 0
    ensures Run(d, increments).count == d.count + Sum(increments)
  {
    if increments != [] {
      RunCounts(d, increments[..|increments| - 1]);
    }
  }

  lemma StarsAppend(a: nat, b: nat)
    ensures Stars(a) + Stars(b) == Stars(a + b)
  {
  }

  /** Before completion the row is as long as the tic count, and not longer than 50. */
  lemma {:induction false} RowBefore(expected: nat, increments: seq<nat>)
    requires Sum(increments) < Restarted(expected).expected
    ensures var d := Run(Restarted(expected), increments);
            RunText(Restarted(expected), increments) == Stars(d.tic) && d.tic <= 50
    decreases |increments|
  {
    var start := Restarted(expected);
    var d, e := Run(start, increments), start.expected;
    RunInv(expected, increments);
    RunCounts(start, increments);
    FloorFacts(50 * (d.count + 1), e, 50);
    if increments != [] {
      var k := |increments| - 1;
      RowBefore(expected, increments[..k]);
      var b := Run(start, increments[..k]);
      StarsAppend(b.tic, d.tic - b.tic);
      assert Stars(d.tic - b.tic) + "" == Stars(d.tic - b.tic);
      assert Stars(b.tic) + "" == Stars(b.tic);
    }
  }

  /** Before completion nothing but stars has been printed, and how many is tied to the
      sum of the increments from both sides. */
  lemma RowBounds(expected: nat, increments: seq<nat>)
    requires Sum(increments) < if expected == 0 then 1 else expected
    ensures var e, sum := if expected == 0 then 1 else expected, Sum(increments);
            var row := RunText(Restarted(expected), increments);
            && (forall i :: 0 <= i < |row| ==> row[i] == '*')
            && 50 * sum / e <= |row| <= (50 * (sum + 1) + e - 1) / e && |row| <= 50
  {
    RowBefore(expected, increments);
    RunBounds(expected, increments);
  }

  /** Sixty out of a hundred at one step: thirty stars. */
  lemma StepExample()
    ensures RunText(Restarted(100), [60]) == Stars(30)
  {
    assert [60][..0] == [];
    assert "" + (Stars(30) + "") == Stars(30);
  }

  /** A complete count is never below the threshold of an incomplete row. */
  lemma ThresholdReached(tic: nat, e: nat, count: nat)
    requires tic <= 50 && count >= e
    ensures tic * e / 50 <= count
  {
    MulMonotone(tic, 50, e);
    FloorFacts(tic * e, 50, count + 1);
  }

  /** The increment that makes the count reach the expected count completes the row. */
  lemma LastIncrement(b: Counters, increment: nat)
    requires Inv(b) && b.tic <= 50 && b.count + increment == b.expected
    ensures Stars(b.tic) + AddedText(b, increment) == Stars(51) + "\n"
  {
    var c, e := Counted(b, increment), b.expected;
    ThresholdReached(c.tic, e, e);
    FloorFacts(50 * e, e, 50);
    FloorFacts(50 * e, e, 51);
    assert TicsNeeded(c) == 50;
    var tic := TicDisplayed(c).tic;
    StarsAppend(b.tic, tic - b.tic);
    if tic < 51 {
      assert Stars(50) + "*\n" == Stars(51) + "\n";
      assert Stars(b.tic) + (Stars(tic - b.tic) + "*\n") == Stars(b.tic) + Stars(tic - b.tic) + "*\n";
    } else {
      assert Stars(b.tic) + (Stars(tic - b.tic) + "\n") == Stars(b.tic) + Stars(tic - b.tic) + "\n";
    }
  }

  lemma RunTextSnoc(d: Counters, increments: seq<nat>, last: nat)
    requires d.expected > 0
    ensures RunText(d, increments + [last]) == RunText(d, increments) + AddedText(Run(d, increments), last)
  {
    assert (increments + [last])[..|increments|] == increments;
  }

  lemma CompletedRow(expected: nat, increments: seq<nat>)
    requires Sum(increments) == Restarted(expected).expected
    requires forall k :: 0 <= k < |increments| ==> Sum(increments[..k]) < Restarted(expected).expected
    ensures RunText(Restarted(expected), increments) == Stars(51) + "\n"
  {
    var k, start := |increments| - 1, Restarted(expected);
    assert Sum(increments[..k]) < start.expected;
    RowBefore(expected, increments[..k]);
    RunInv(expected, increments[..k]);
    RunCounts(start, increments[..k]);
    LastIncrement(Run(start, increments[..k]), increments[k]);
  }

  lemma ScaleLength()
    ensures |SCALE| == 51
  {
  }

  /** The percentages stand above the bars, one for every five characters. */
  lemma ScaleMarks()
    ensures HEADING == "0%   10   20   30   40   50   60   70   80   90   100%\n"
    ensures SCALE == "|----|----|----|----|----|----|----|----|----|----|"
  {
  }

  /** A run of increments, zero ones included, whose sum first reaches the expected count
      exactly prints one star for every character of the scale and then ends the line. */
  lemma FullRow(expected: nat, increments: seq<nat>)
    requires Sum(increments) == if expected == 0 then 1 else expected
    requires forall k :: 0 <= k < |increments| ==> Sum(increments[..k]) < if expected == 0 then 1 else expected
    ensures RunText(Restarted(expected), increments) == Stars(|SCALE|) + "\n"
    ensures |SCALE| == 51
  {
    ScaleLength();
    CompletedRow(expected, increments);
  }

  /** The increment that jumps over the expected count adds plain stars. */
  lemma JumpingIncrement(b: Counters, last: nat)
    requires Inv(b) && b.tic <= 50 && b.expected < b.count + last
    ensures Stars(b.tic) + AddedText(b, last) == Stars(Larger(b.tic + 1, TicsNeeded(Counted(b, last))))
  {
    var c := Counted(b, last);
    ThresholdReached(c.tic, c.expected, c.count);
    var tic := TicDisplayed(c).tic;
    StarsAppend(b.tic, tic - b.tic);
    assert Stars(tic - b.tic) + "" == Stars(tic - b.tic);
  }

  lemma BeforeCompletion(expected: nat, increments: seq<nat>)
    requires Sum(increments) < if expected == 0 then 1 else expected
    ensures var b := Run(Restarted(expected), increments);
            && Inv(b) && b.tic <= 50 && b.count == Sum(increments)
            && b.expected == (if expected == 0 then 1 else expected)
            && RunText(Restarted(expected), increments) == Stars(b.tic)
  {
    RowBefore(expected, increments);
    RunInv(expected, increments);
    RunCounts(Restarted(expected), increments);
  }

  /** A count that jumps over the expected one never gets the closing star or the end of
      the line; how many stars there are is decided by the fraction alone or by the step. */
  lemma Overshoot(expected: nat, increments: seq<nat>, last: nat)
    requires var e := if expected == 0 then 1 else expected;
             Sum(increments) < e < Sum(increments) + last
    ensures var b := Run(Restarted(expected), increments);
            RunText(Restarted(expected), increments + [last]) == Stars(Larger(b.tic + 1, TicsNeeded(Counted(b, last))))
  {
    BeforeCompletion(expected, increments);
    RunTextSnoc(Restarted(expected), increments, last);
    JumpingIncrement(Run(Restarted(expected), increments), last);
  }

  /** One step past a hundred leaves 50 stars, not 51. */
  lemma OvershootExample()
    ensures RunText(Restarted(100), [101]) == Stars(50)
  {
    Overshoot(100, [], 101);
    assert [] + [101] == [101];
  }

  // -------------------------------------------------- when the line is ended

  /** The count stands at the expected one after the first k increments. */
  predicate Hits(expected: nat, increments: seq<nat>, k: nat) {
    k <= |increments| && Sum(increments[..k]) == if expected == 0 then 1 else expected
  }

  lemma PrefixOfPrefix(increments: seq<nat>, m: nat, k: nat)
    requires k <= m <= |increments|
    ensures increments[..m][..k] == increments[..k]
  {
  }

  /** Away from the expected count an increment adds nothing but stars. */
  lemma PlainIncrement(b: Counters, increment: nat)
    requires b.expected > 0 && b.count + increment != b.expected
    ensures b.tic <= Added(b, increment).tic
    ensures Stars(b.tic) + AddedText(b, increment) == Stars(Added(b, increment).tic)
  {
    var tic := Added(b, increment).tic;
    StarsAppend(b.tic, tic - b.tic);
    assert Stars(tic - b.tic) + "" == Stars(tic - b.tic);
    assert Stars(b.tic) + "" == Stars(b.tic);
  }

  /** A run that never stands at the expected count prints nothing but stars, on either side of it. */
  lemma {:induction false} NeverHit(expected: nat, increments: seq<nat>)
    requires forall k: nat :: !Hits(expected, increments, k)
    ensures RunText(Restarted(expected), increments) == Stars(Run(Restarted(expected), increments).tic)
    decreases |increments|
  {
    var start := Restarted(expected);
    if increments != [] {
      var m := |increments| - 1;
      var before := increments[..m];
      forall k: nat
        ensures !Hits(expected, before, k)
      {
        if k <= m {
          PrefixOfPrefix(increments, m, k);
          assert !Hits(expected, increments, k);
        }
      }
      NeverHit(expected, before);
      assert increments[..|increments|] == increments;
      assert !Hits(expected, increments, |increments|);
      RunCounts(start, before);
      PlainIncrement(Run(start, before), increments[m]);
    }
  }

  lemma {:induction false} SumGrows(increments: seq<nat>, k: nat)
    requires k <= |increments|
    ensures Sum(increments[..k]) <= Sum(increments)
    decreases |increments|
  {
    if k == |increments| {
      assert increments[..k] == increments;
    } else {
      var m := |increments| - 1;
      PrefixOfPrefix(increments, m, k);
      SumGrows(increments[..m], k);
    }
  }

  /** The first hit, given any. */
  lemma {:induction false} FirstHit(expected: nat, increments: seq<nat>, k: nat) returns (first: nat)
    requires Hits(expected, increments, k)
    ensures Hits(expected, increments, first)
    ensures forall j: nat :: j < first ==> Sum(increments[..first][..j]) < Restarted(expected).expected
    decreases k
  {
    if j: nat :| j < k && Hits(expected, increments, j) {
      first := FirstHit(expected, increments, j);
    } else {
      first := k;
      forall j: nat | j < first
        ensures Sum(increments[..first][..j]) < Restarted(expected).expected
      {
        PrefixOfPrefix(increments, first, j);
        SumGrows(increments[..first], j);
        assert !Hits(expected, increments, j);
      }
    }
  }

  lemma PrefixTransitive(a: string, b: string, c: string)
    requires a <= b && b <= c
    ensures a <= c
  {
  }

  lemma TextGrowsByOne(d: Counters, increments: seq<nat>)
    requires d.expected > 0 && increments != []
    ensures RunText(d, increments[..|increments| - 1]) <= RunText(d, increments)
  {
  }

  /** What has been printed stays printed. */
  lemma {:induction false} TextGrows(d: Counters, increments: seq<nat>, k: nat)
    requires d.expected > 0 && k <= |increments|
    ensures RunText(d, increments[..k]) <= RunText(d, increments)
    decreases |increments|
  {
    if k == |increments| {
      assert increments[..k] == increments;
    } else {
      var before := increments[..|increments| - 1];
      assert before[..k] == increments[..k];
      TextGrows(d, before, k);
      TextGrowsByOne(d, increments);
      PrefixTransitive(RunText(d, increments[..k]), RunText(d, before), RunText(d, increments));
    }
  }

  /** The line under the scale is ever ended if, and only if, the count stands at the
      expected one after some increment. */
  lemma LineEndsIff(expected: nat, increments: seq<nat>)
    ensures '\n' in RunText(Restarted(expected), increments) <==> exists k: nat :: Hits(expected, increments, k)
  {
    var start := Restarted(expected);
    if k: nat :| Hits(expected, increments, k) {
      var first := FirstHit(expected, increments, k);
      CompletedRow(expected, increments[..first]);
      TextGrows(start, increments, first);
      assert (Stars(51) + "\n")[51] == '\n';
      assert RunText(start, increments)[51] == '\n';
    } else {
      NeverHit(expected, increments);
    }
  }

  lemma RunTextStep(d: Counters, increments: seq<nat>, i: nat, heading: string)
    requires d.expected > 0 && i < |increments|
    ensures var before := increments[..i];
            && increments[..i + 1][..i] == before
            && Run(d, increments[..i + 1]) == Added(Run(d, before), increments[i])
            && heading + RunText(d, increments[..i + 1])
               == heading + RunText(d, before) + AddedText(Run(d, before), increments[i])
  {
    assert increments[..i + 1][..i] == increments[..i];
    AppendAssociative(heading, RunText(d, increments[..i]), AddedText(Run(d, increments[..i]), increments[i]));
  }

  /** Nothing but stars behind the heading, as many as go with the count. */
  predicate RowFits(printed: string, heading: string, count: nat, e: nat)
    requires e > 0
  {
    && heading <= printed
    && (forall i :: |heading| <= i < |printed| ==> printed[i] == '*')
    && 50 * count / e <= |printed| - |heading| <= (50 * (count + 1) + e - 1) / e
  }

  lemma PrintedRow(printed: string, heading: string, expected: nat, increments: seq<nat>)
    requires printed == heading + RunText(Restarted(expected), increments)
    requires Sum(increments) < if expected == 0 then 1 else expected
    ensures RowFits(printed, heading, Sum(increments), if expected == 0 then 1 else expected)
  {
    RowBounds(expected, increments);
  }

  /** The object itself, over a whole run. */
  method RunDisplay(expected: nat, increments: seq<nat>, s1: string, s2: string, s3: string)
    returns (printed: string, count: nat)
    ensures printed == s1 + HEADING + s2 + SCALE + "\n" + s3 + RunText(Restarted(expected), increments)
    ensures count == Sum(increments)
    ensures count < (if expected == 0 then 1 else expected) ==>
              RowFits(printed, s1 + HEADING + s2 + SCALE + "\n" + s3, count, if expected == 0 then 1 else expected)
  {
    var display := new ProgressDisplay(expected, s1, s2, s3);
    ghost var heading := s1 + HEADING + s2 + SCALE + "\n" + s3;
    var i := 0;
    assert heading + "" == heading;
    count := 0;
    while i < |increments|
      invariant 0 <= i <= |increments| && fresh(display)
      invariant display.View() == Run(Restarted(expected), increments[..i])
      invariant display.out == heading + RunText(Restarted(expected), increments[..i])
      invariant count == display.count == Sum(increments[..i])
    {
      RunTextStep(Restarted(expected), increments, i, heading);
      count := display.AddAssign(increments[i]);
      i := i + 1;
    }
    assert increments[..i] == increments;
    printed := display.out;
    if count < if expected == 0 then 1 else expected {
      PrintedRow(printed, heading, expected, increments);
    }
  }
}
