/**
 The greedy banknote breakdown of the cash machine (CxEletronico.c:17-26).

 `notas[0]` holds the denominations 100, 50, 20, 10, 5, 2 and `notas[1]` the
 number of notes of each; the loop runs over the first five denominations
 only, so the 2 note is never handed out. Reading the amount and printing
 the result are left to the caller.
 */
module CashMachine {
  import opened CArith

  /** `notas[0]`. */
  const NOTES: seq<int> := [100, 50, 20, 10, 5, 2]
  /** The loop bound `i<5`. */
  const LOOP_BOUND: int := 5

  /** Value of the notes counted in `counts[..n]`. */
  function Paid(counts: seq<int>, n: nat): int
    requires n <= |counts| && n <= |NOTES|
  {
    if n == 0 then 0 else Paid(counts, n - 1) + counts[n - 1] * NOTES[n - 1]
  }

  /** Setting a count that was zero adds that many notes to the value paid. */
  lemma {:induction false} PaidUpdate(counts: seq<int>, n: nat, i: int, q: int)
    requires n <= |counts| && n <= |NOTES| && 0 <= i < |counts| && counts[i] == 0
    ensures Paid(counts[i := q], n) == Paid(counts, n) + (if i < n then q * NOTES[i] else 0)
  {
    if n > 0 {
      PaidUpdate(counts, n - 1, i, q);
    }
  }

  /** The greedy reference for an amount >= 0: what is left after taking
      as many notes as fit of each of the first n denominations in turn,
      largest first. */
  function Left(value: int, n: nat): int
    requires n <= |NOTES|
  {
    if n == 0 then value else Left(value, n - 1) % NOTES[n - 1]
  }

  /** An amount below the denomination takes no note of it and is left whole. */
  lemma SmallDivMod(a: int, b: int)
    requires 0 <= a < b
    ensures a / b == 0 && a % b == a
  {
  }

  /** After the denominations before n, the amount left is below the last of
      them, and never negative. */
  lemma LeftBounds(value: int, n: nat)
    requires value >= 0 && 0 < n <= |NOTES|
    ensures 0 <= Left(value, n) < NOTES[n - 1]
  {
  }

  /** The greedy counts of 50, 20, 10 and 5 are at most 1, 2, 1 and 1, and
      the amount left over is in 0..4. */
  lemma GreedyBounds(value: int)
    requires value >= 0
    ensures Left(value, 1) / NOTES[1] <= 1 && Left(value, 2) / NOTES[2] <= 2
    ensures Left(value, 3) / NOTES[3] <= 1 && Left(value, 4) / NOTES[4] <= 1
    ensures 0 <= Left(value, LOOP_BOUND) < 5
  {
    LeftBounds(value, 1);
    LeftBounds(value, 2);
    LeftBounds(value, 3);
    LeftBounds(value, 4);
    LeftBounds(value, 5);
  }

  /** One pass of the loop (CxEletronico.c:20-25) over denomination i, whose
      count is still zero: when the amount covers the note, take as many
      notes as fit and keep the remainder. The amount paid plus what is left
      is unchanged; for an amount >= 0 this is a greedy step, and a
      negative amount is left alone. */
  method TakeNotes(counts: seq<int>, rest: int, i: int) returns (counts': seq<int>, rest': int)
    requires |counts| == |NOTES| && 0 <= i < LOOP_BOUND && counts[i] == 0
    ensures |counts'| == |NOTES|
    ensures Paid(counts', |NOTES|) + rest' == Paid(counts, |NOTES|) + rest
    ensures forall j :: 0 <= j < |counts| && j != i ==> counts'[j] == counts[j]
    ensures rest >= 0 ==> counts'[i] == rest / NOTES[i] && rest' == rest % NOTES[i] && rest' >= 0
    ensures rest < 0 ==> counts' == counts && rest' == rest
  {
    counts', rest' := counts, rest;
    if rest >= NOTES[i] {
      var q := TruncDiv(rest, NOTES[i]);
      PaidUpdate(counts, |NOTES|, i, q);
      counts' := counts[i := q];
      rest' := TruncMod(rest, NOTES[i]);
    } else if rest >= 0 {
      SmallDivMod(rest, NOTES[i]);
    }
  }

  /** The loop of `main`: for each of the first five denominations, largest
      first, take as many notes as fit and keep the remainder. `counts` is
      `notas[1]`; `rest` is the final `varValor`, the amount reported as not
      payable. For an amount >= 0 each count is the greedy one. */
  method Breakdown(value: int) returns (counts: seq<int>, rest: int)
    ensures |counts| == |NOTES|
    ensures Paid(counts, |NOTES|) + rest == value
    ensures forall j :: 0 <= j < |counts| ==> counts[j] >= 0
    ensures counts[5] == 0
    ensures value >= 0 ==> 0 <= rest < 5
    ensures value >= 0 ==> counts[0] == value / 100
    ensures counts[1] <= 1 && counts[2] <= 2 && counts[3] <= 1 && counts[4] <= 1
    ensures value >= 0 ==> forall k :: 0 <= k < LOOP_BOUND ==> counts[k] == Left(value, k) / NOTES[k]
    ensures value >= 0 ==> rest == Left(value, LOOP_BOUND)
    ensures value < 0 ==> rest == value && forall j :: 0 <= j < |counts| ==> counts[j] == 0
  {
    counts := [0, 0, 0, 0, 0, 0];
    rest := value;
    var i := 0;
    while i < LOOP_BOUND
      invariant 0 <= i <= LOOP_BOUND && |counts| == |NOTES|
      invariant Paid(counts, |NOTES|) + rest == value
      invariant forall j :: i <= j < |counts| ==> counts[j] == 0
      invariant value >= 0 ==> rest == Left(value, i) && rest >= 0
      invariant value >= 0 ==> forall k :: 0 <= k < i ==> counts[k] == Left(value, k) / NOTES[k]
      invariant value < 0 ==> rest == value && forall j :: 0 <= j < |counts| ==> counts[j] == 0
    {
      counts, rest := TakeNotes(counts, rest, i);
      i := i + 1;
    }
    if value >= 0 {
      GreedyBounds(value);
      forall k | 0 <= k < LOOP_BOUND
        ensures counts[k] >= 0
      {
        LeftBounds(value, k + 1);
      }
    }
  }
}
