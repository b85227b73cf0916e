/** Bi-phase (Manchester) waveforms as run lengths between edges, in half-bit units. The carrier is off
    before and after a transmission. */
module Biphase {

  /** The lengths of the runs of equal level in `levels`, the first one continuing a run of `run` half-bits at level
      `cur`; a last run of carrier ends with an edge too, a last run of silence does not. */
  function Runs(levels: seq<bool>, cur: bool, run: nat): seq<nat>
    decreases |levels|
  {
    if levels == [] then if cur then [run] else []
    else if levels[0] == cur then Runs(levels[1..], cur, run + 1)
    else [run] + Runs(levels[1..], levels[0], 1)
  }

  /** A coded bit string: in each bit cell the carrier changes in the middle. With `rising` a one is off-then-on
      (RC-5), otherwise on-then-off (RC-6). */
  function Cells(bits: seq<bool>, rising: bool): seq<bool> {
    if bits == [] then [] else [bits[0] != rising, bits[0] == rising] + Cells(bits[1..], rising)
  }

  /** The same widths bit by bit, starting at the edge in the middle of bit `prev`: two short ones
      if the next bit is the same, one long one if it differs. */
  function BitRuns(prev: bool, bits: seq<bool>, rising: bool): seq<nat>
    decreases |bits|
  {
    if bits == [] then if prev == rising then [1] else []
    else if bits[0] == prev then [1, 1] + BitRuns(bits[0], bits[1..], rising)
    else [2] + BitRuns(bits[0], bits[1..], rising)
  }

  lemma RunsSame(levels: seq<bool>, cur: bool, run: nat)
    ensures Runs([cur] + levels, cur, run) == Runs(levels, cur, run + 1)
  {
    assert ([cur] + levels)[1..] == levels;
  }

  lemma RunsChange(levels: seq<bool>, cur: bool, run: nat)
    ensures Runs([!cur] + levels, cur, run) == [run] + Runs(levels, !cur, 1)
  {
    assert ([!cur] + levels)[1..] == levels;
  }

  /** Edge by edge and bit by bit describe the same waveform. */
  lemma {:induction false} BitRunsAreRuns(prev: bool, bits: seq<bool>, rising: bool)
    ensures Runs(Cells(bits, rising), prev == rising, 1) == BitRuns(prev, bits, rising)
    decreases |bits|
  {
    hide Runs;
    if bits == [] {
      RunsEnd(prev == rising, 1);
    } else {
      var cur, rest := prev == rising, Cells(bits[1..], rising);
      BitRunsAreRuns(bits[0], bits[1..], rising);
      if bits[0] == prev {
        assert Cells(bits, rising) == [!cur] + ([cur] + rest);
        RunsChange([cur] + rest, cur, 1);
        RunsChange(rest, !cur, 1);
        assert [1] + ([1] + Runs(rest, cur, 1)) == [1, 1] + Runs(rest, cur, 1);
      } else {
        assert Cells(bits, rising) == [cur] + ([!cur] + rest);
        RunsSame([!cur] + rest, cur, 1);
        RunsChange(rest, cur, 2);
      }
    }
  }

  lemma RunsEnd(cur: bool, run: nat)
    ensures Runs([], cur, run) == if cur then [run] else []
  {
  }

  lemma {:induction false} BitRunsLength(prev: bool, bits: seq<bool>, rising: bool)
    ensures |bits| <= |BitRuns(prev, bits, rising)| <= 2 * |bits| + 1
    decreases |bits|
  {
    if bits == [] {
    } else {
      BitRunsLength(bits[0], bits[1..], rising);
    }
  }

  /** The widths between the edges of a transmission: its runs without the silence before it. */
  function EdgeRuns(levels: seq<bool>): seq<nat> {
    var all := Runs(levels, false, 0);
    if all == [] then [] else all[1..]
  }

  function Repeat(level: bool, n: nat): (s: seq<bool>)
    ensures |s| == n && forall i :: 0 <= i < n ==> s[i] == level
  {
    seq(n, _ => level)
  }

  lemma {:induction false} RunsContinue(level: bool, n: nat, levels: seq<bool>, run: nat)
    ensures Runs(Repeat(level, n) + levels, level, run) == Runs(levels, level, run + n)
    decreases n
  {
    if n == 0 {
      assert Repeat(level, 0) + levels == levels;
    } else {
      assert Repeat(level, n) + levels == [level] + (Repeat(level, n - 1) + levels);
      RunsSame(Repeat(level, n - 1) + levels, level, run);
      RunsContinue(level, n - 1, levels, run + 1);
    }
  }

  lemma RunsTurn(level: bool, n: nat, levels: seq<bool>, run: nat)
    requires n > 0
    ensures Runs(Repeat(level, n) + levels, !level, run) == [run] + Runs(levels, level, n)
  {
    assert Repeat(level, n) + levels == [level] + (Repeat(level, n - 1) + levels);
    RunsChange(Repeat(level, n - 1) + levels, !level, run);
    RunsContinue(level, n - 1, levels, 1);
  }

  /** A longer start makes only the first run longer. */
  function Longer(runs: seq<nat>): seq<nat> {
    if runs == [] then [] else [runs[0] + 1] + runs[1..]
  }

  lemma {:induction false} RunsLonger(levels: seq<bool>, cur: bool, run: nat)
    ensures Runs(levels, cur, run + 1) == Longer(Runs(levels, cur, run))
    decreases |levels|
  {
    if levels == [] {
    } else if levels[0] == cur {
      RunsLonger(levels[1..], cur, run + 1);
    }
  }
}
