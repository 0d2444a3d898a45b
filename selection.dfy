/**
 * Value-level specifications of the selection operations of the flat tree
 * (src/flat_tree.rs, `Tree::try_select`, `move_selection`,
 * `try_select_best_match`, `try_select_next_match`), stated over the
 * sequences of keys, contents and match scores of the tree's lines, and the
 * properties the source promises of them.
 */
module Selection {
  import opened Wrappers
  import opened TreeLines

  // ---------------------------------------------------------------------
  // Key search

  /** The first index whose key is `k`, if any. */
  function FirstIndexOf(ks: seq<string>, k: string): (r: Option<nat>)
    ensures r.Some? <==> k in ks
    ensures r.Some? ==> r.value < |ks| && ks[r.value] == k
    ensures r.Some? ==> forall j :: 0 <= j < r.value ==> ks[j] != k
  {
    if ks == [] then None
    else if ks[0] == k then Some(0)
    else match FirstIndexOf(ks[1..], k)
      case Some(i) => Some(i + 1)
      case None => None
  }

  /** When keys are unique, searching for the key of line `s` finds `s`:
      re-selecting the current key leaves the selection where it was. */
  lemma FirstIndexOfDistinct(ks: seq<string>, s: nat)
    requires s < |ks|
    requires forall i, j :: 0 <= i < j < |ks| ==> ks[i] != ks[j]
    ensures FirstIndexOf(ks, ks[s]) == Some(s)
  {
  }

  // ---------------------------------------------------------------------
  // Cyclic movement

  /** The line count and the step must survive the source's casts: the
      count as an `i32`, `count + dy` as an `i32` and then as a `usize`. */
  predicate StepDefined(n: nat, dy: int)
    ensures StepDefined(n, dy) ==> n > 0 && 0 <= n + dy
  {
    0 < n < 0x8000_0000 && -0x8000_0000 <= dy < 0x8000_0000 && 0 <= n + dy < 0x8000_0000
  }

  /** One step of `move_selection`. */
  function Step(s: nat, n: nat, dy: int): (t: nat)
    requires StepDefined(n, dy)
    ensures t < n
  {
    (s + (n + dy)) % n
  }

  /** Where `k` steps from `s` lead. */
  function Iter(s: nat, n: nat, dy: int, k: nat): (t: nat)
    requires StepDefined(n, dy)
    ensures k > 0 ==> t < n
  {
    if k == 0 then s else Step(Iter(s, n, dy, k - 1), n, dy)
  }

  /** The first step count in k..|cs| that lands on a selectable line. */
  function FirstSelectableStep(cs: seq<LineType>, s: nat, dy: int, k: nat): (r: Option<nat>)
    requires StepDefined(|cs|, dy) && 1 <= k
    ensures r.Some? ==> k <= r.value <= |cs|
    ensures r.Some? ==> !cs[Iter(s, |cs|, dy, r.value)].Pruning?
    ensures r.Some? ==> forall j :: k <= j < r.value ==> cs[Iter(s, |cs|, dy, j)].Pruning?
    ensures r.None? ==> forall j :: k <= j <= |cs| ==> cs[Iter(s, |cs|, dy, j)].Pruning?
    decreases |cs| + 1 - k
  {
    if k > |cs| then None
    else if !cs[Iter(s, |cs|, dy, k)].Pruning? then Some(k)
    else FirstSelectableStep(cs, s, dy, k + 1)
  }

  lemma MulAtLeast(m: int, n: int)
    requires m >= 1 && n > 0
    ensures m * n >= n
  {
  }

  /** Euclidean division is unique: quotient and remainder are determined. */
  lemma DivModUnique(y: int, n: int, q: int, r: int)
    requires n > 0 && 0 <= r < n && y == q * n + r
    ensures y % n == r && y / n == q
  {
    var q', r' := y / n, y % n;
    assert y == q' * n + r';
    if q > q' {
      MulAtLeast(q - q', n);
    } else if q < q' {
      MulAtLeast(q' - q, n);
    }
  }

  lemma ModAddMultiple(x: int, q: int, n: int)
    requires n > 0
    ensures (x + q * n) % n == x % n
  {
    var q', r' := x / n, x % n;
    assert x + q * n == (q' + q) * n + r';
    DivModUnique(x + q * n, n, q' + q, r');
  }

  lemma ModOfSum(a: int, b: int, n: int)
    requires n > 0
    ensures (a % n + b) % n == (a + b) % n
  {
    var q := a / n;
    assert a == q * n + a % n;
    assert a % n + b == (a + b) + (-q) * n;
    ModAddMultiple(a + b, -q, n);
  }

  /** `k` steps advance the selection by `k * dy` modulo the line count. */
  lemma {:induction false} IterClosedForm(s: nat, n: nat, dy: int, k: nat)
    requires StepDefined(n, dy) && k >= 1
    ensures Iter(s, n, dy, k) == (s + k * dy) % n
  {
    if k == 1 {
      ModAddMultiple(s + dy, 1, n);
    } else {
      IterClosedForm(s, n, dy, k - 1);
      var a := s + (k - 1) * dy;
      ModOfSum(a, n + dy, n);
      assert a + (n + dy) == (s + k * dy) + 1 * n;
      ModAddMultiple(s + k * dy, 1, n);
    }
  }

  /** The orbit of the move repeats every `n` steps. */
  lemma Periodic(s: nat, n: nat, dy: int, k: nat)
    requires StepDefined(n, dy) && k >= 1
    ensures Iter(s, n, dy, k + n) == Iter(s, n, dy, k)
  {
    IterClosedForm(s, n, dy, k);
    IterClosedForm(s, n, dy, k + n);
    assert s + (k + n) * dy == (s + k * dy) + dy * n;
    ModAddMultiple(s + k * dy, dy, n);
  }

  /** A selectable line reached after any number of steps is also reached
      within the first `n`: the precondition of `move_selection`'s model is
      exactly "the loop's orbit reaches a selectable line". */
  lemma {:induction false} OrbitLands(cs: seq<LineType>, s: nat, dy: int, k: nat)
    requires StepDefined(|cs|, dy) && k >= 1
    requires !cs[Iter(s, |cs|, dy, k)].Pruning?
    ensures FirstSelectableStep(cs, s, dy, 1).Some?
    decreases k
  {
    var n := |cs|;
    if k > n {
      Periodic(s, n, dy, k - n);
      OrbitLands(cs, s, dy, k - n);
    }
  }

  /** Moving by +1, `k` steps from line `s` lead to line `(s + k) mod n`. */
  lemma IterForward(s: nat, n: nat, k: nat)
    requires StepDefined(n, 1) && s < n
    ensures Iter(s, n, 1, k) == (s + k) % n
  {
    if k > 0 {
      IterClosedForm(s, n, 1, k);
    }
  }

  /** The number of steps of +1 or -1 from `s` that reaches line `t`. */
  lemma StepsTo(s: nat, n: nat, dy: int, t: nat) returns (k: nat)
    requires StepDefined(n, dy) && (dy == 1 || dy == -1) && t < n
    ensures 1 <= k <= n && Iter(s, n, dy, k) == t
  {
    DivModUnique(t, n, 0, t);
    if dy == 1 {
      var a := t - s - 1;
      k := a % n + 1;
      IterClosedForm(s, n, dy, k);
      assert s + k * dy == a % n + (s + 1);
      ModOfSum(a, s + 1, n);
    } else {
      var a := s - t - 1;
      k := a % n + 1;
      IterClosedForm(s, n, dy, k);
      assert a == (a / n) * n + a % n;
      assert s + k * dy == t + (a / n) * n;
      ModAddMultiple(t, a / n, n);
    }
  }

  /** With steps of +1 or -1, a tree holding a selectable line always lets
      `move_selection` land: its loop terminates. */
  lemma MoveTerminates(cs: seq<LineType>, s: nat, dy: int, t: nat)
    requires StepDefined(|cs|, dy) && (dy == 1 || dy == -1)
    requires t < |cs| && !cs[t].Pruning?
    ensures FirstSelectableStep(cs, s, dy, 1).Some?
  {
    var k := StepsTo(s, |cs|, dy, t);
  }

  /** With no Pruning lines, moving by +1 takes exactly one step, from `s`
      to `(s + 1) mod n`. */
  lemma MoveForwardNoPruning(cs: seq<LineType>, s: nat)
    requires StepDefined(|cs|, 1) && s < |cs|
    requires forall i :: 0 <= i < |cs| ==> !cs[i].Pruning?
    ensures FirstSelectableStep(cs, s, 1, 1) == Some(1)
    ensures Iter(s, |cs|, 1, 1) == (s + 1) % |cs|
  {
    IterForward(s, |cs|, 1);
  }

  // ---------------------------------------------------------------------
  // Pattern-driven selection

  /** The score a pattern gives a line: only named lines are tested. */
  function MatchScore(name: Option<string>, pattern: string -> Option<int>): (r: Option<int>)
    ensures name.None? ==> r.None?
    ensures name.Some? ==> r == pattern(name.value)
  {
    match name
    case Some(n) => pattern(n)
    case None => None
  }

  /** The best score and the selection after scanning the scores `ss` in
      order, starting from selection `sel` and best score 0, keeping a new
      line only on a strict improvement. */
  function BestScan(ss: seq<Option<int>>, sel: nat): (r: (int, nat))
    ensures r.0 >= 0
    ensures r.0 == 0 ==> r.1 == sel
    ensures r.0 == 0 ==> forall i :: 0 <= i < |ss| && ss[i].Some? ==> ss[i].value <= 0
    ensures r.0 > 0 ==> r.1 < |ss| && ss[r.1] == Some(r.0)
    ensures r.0 > 0 ==> forall i :: 0 <= i < |ss| && ss[i].Some? ==> ss[i].value <= r.0
    ensures r.0 > 0 ==> forall i :: 0 <= i < r.1 && ss[i].Some? ==> ss[i].value < r.0
  {
    if ss == [] then (0, sel)
    else
      var (best, s) := BestScan(ss[..|ss| - 1], sel);
      match ss[|ss| - 1]
      case Some(score) => if score > best then (score, |ss| - 1) else (best, s)
      case None => (best, s)
  }

  /** The scan reports a match exactly when some line scores above 0. */
  lemma BestScanFound(ss: seq<Option<int>>, sel: nat)
    ensures BestScan(ss, sel).0 > 0 <==> exists i :: 0 <= i < |ss| && ss[i].Some? && ss[i].value > 0
  {
    var r := BestScan(ss, sel);
    if r.0 > 0 {
      assert ss[r.1].Some? && ss[r.1].value > 0;
    }
  }

  /** The line tested at offset `di` when scanning after line `s`. */
  function ScanIndex(s: nat, n: nat, di: nat): (i: nat)
    requires n > 0
    ensures i < n
  {
    (s + di + 1) % n
  }

  /** The example of names ["root", "apple", "app", "snap"] searched for
      "app": "apple" and "app" match, "app" with the higher score, and it is
      selected; on a tie the earlier line wins. */
  lemma BestScanExample()
    ensures BestScan([None, Some(3), Some(5), None], 0) == (5, 2)
    ensures BestScan([None, Some(5), Some(5), None], 0) == (5, 1)
  {
  }

  /** The first offset `di >= d` whose line `(s + di + 1) mod n` matches:
      `try_select_next_match` tests the lines after `s` in cyclic order. */
  function NextMatchFrom(ss: seq<Option<int>>, s: nat, d: nat): (r: Option<nat>)
    requires d <= |ss|
    ensures r.Some? ==> d <= r.value < |ss| && ss[ScanIndex(s, |ss|, r.value)].Some?
    ensures r.Some? ==> forall di :: d <= di < r.value ==> ss[ScanIndex(s, |ss|, di)].None?
    ensures r.None? ==> forall di :: d <= di < |ss| ==> ss[ScanIndex(s, |ss|, di)].None?
    decreases |ss| - d
  {
    if d == |ss| then None
    else if ss[ScanIndex(s, |ss|, d)].Some? then Some(d)
    else NextMatchFrom(ss, s, d + 1)
  }

  /** The offset at which line `i` is tested when scanning after `s`. */
  lemma OffsetOf(s: nat, n: nat, i: nat) returns (di: nat)
    requires i < n
    ensures di < n && ScanIndex(s, n, di) == i
  {
    di := (i - s - 1) % n;
    ModOfSum(i - s - 1, s + 1, n);
    DivModUnique(i, n, 0, i);
    assert s + di + 1 == di + (s + 1);
  }

  /** The cyclic scan finds nothing exactly when no named line matches. */
  lemma NextMatchNone(ss: seq<Option<int>>, s: nat)
    ensures NextMatchFrom(ss, s, 0).None? <==> forall i :: 0 <= i < |ss| ==> ss[i].None?
  {
    if NextMatchFrom(ss, s, 0).None? {
      forall i | 0 <= i < |ss|
        ensures ss[i].None?
      {
        var di := OffsetOf(s, |ss|, i);
        assert ss[ScanIndex(s, |ss|, di)].None?;
      }
    }
  }

  /** The current line is tested last: when it is the only match, the scan
      takes the full cycle and comes back to it. */
  lemma NextMatchCurrentLast(ss: seq<Option<int>>, s: nat)
    requires s < |ss| && ss[s].Some?
    requires forall i :: 0 <= i < |ss| && i != s ==> ss[i].None?
    ensures NextMatchFrom(ss, s, 0) == Some(|ss| - 1)
    ensures ScanIndex(s, |ss|, |ss| - 1) == s
  {
    var n := |ss|;
    DivModUnique(s + (n - 1) + 1, n, 1, s);
    NextMatchNone(ss, s);
    var r := NextMatchFrom(ss, s, 0).value;
    if r < n - 1 {
      if s + r + 1 < n {
        DivModUnique(s + r + 1, n, 0, s + r + 1);
      } else {
        DivModUnique(s + r + 1, n, 1, s + r + 1 - n);
      }
    }
  }

  /** The example of names ["root", "foo", "bar", "food"] searched with a
      pattern matching "foo" and "food": from line 0 the scan lands on
      line 1, then on line 3, then wraps to line 1. */
  lemma NextMatchExample()
    ensures var ss := [None, Some(1), None, Some(1)];
      NextMatchFrom(ss, 0, 0) == Some(0) && ScanIndex(0, 4, 0) == 1
      && NextMatchFrom(ss, 1, 0) == Some(1) && ScanIndex(1, 4, 1) == 3
      && NextMatchFrom(ss, 3, 0) == Some(1) && ScanIndex(3, 4, 1) == 1
  {
  }
}
