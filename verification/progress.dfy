/**
 * `progress_bar`: for each step 1..total it renders a 20-cell bar and a
 * percentage and sends the text as an edit of the status message. A failed
 * edit is swallowed and the loop goes on; the pause between steps is not
 * modelled.
 */
module Progress {
  import opened Wrappers
  import opened Strings

  const BarLength: nat := 20
  const FullCell: char := '\U{2588}'
  const EmptyCell: char := '-'

  lemma MulMonotone(x: int, y: int, t: int)
    requires x <= y && t >= 0
    ensures x * t <= y * t
  {
  }

  lemma DivBelow(n: int, d: int, k: int)
    requires 0 <= n < k * d && d > 0
    ensures n / d < k
  {
    var q := n / d;
    assert q * d <= n;
    if k <= q {
      MulMonotone(k, q, d);
    }
  }

  lemma DivAtLeast(n: int, d: int, k: int)
    requires 0 <= k * d <= n && d > 0
    ensures k <= n / d
  {
    var q := n / d;
    assert n < (q + 1) * d;
    if q + 1 <= k {
      MulMonotone(q + 1, k, d);
    }
  }

  lemma DivMonotone(a: int, b: int, d: int)
    requires 0 <= a <= b && d > 0
    ensures a / d <= b / d
  {
    var qa, qb := a / d, b / d;
    assert qa * d <= a;
    assert b < (qb + 1) * d;
    if qb + 1 <= qa {
      MulMonotone(qb + 1, qa, d);
    }
  }

  /** Scaling `step / total` by `k` and taking the floor stays within 0..k and reaches k only at the last step. */
  lemma ScaledFloor(k: nat, step: int, total: int)
    requires k > 0 && 1 <= step <= total
    ensures 0 <= k * step / total <= k
    ensures k * step / total == k <==> step == total
  {
    MulMonotone(step, total, k);
    DivBelow(k * step, total, k + 1);
    if step < total {
      MulMonotone(step, total - 1, k);
      DivBelow(k * step, total, k);
    } else {
      DivAtLeast(k * step, total, k);
    }
  }

  /** Filled cells at `step` of `total`: the floor of 20 * step / total. */
  function Filled(step: int, total: int): (f: nat)
    requires 1 <= step <= total
    ensures f <= BarLength
    ensures f == BarLength <==> step == total
  {
    ScaledFloor(BarLength, step, total);
    BarLength * step / total
  }

  /** The percentage shown at `step` of `total`: the floor of 100 * step / total. */
  function Percent(step: int, total: int): (p: nat)
    requires 1 <= step <= total
    ensures p <= 100
    ensures p == 100 <==> step == total
  {
    ScaledFloor(100, step, total);
    100 * step / total
  }

  /** The bar: `filled` full cells, then empty cells up to 20. */
  function Bar(filled: nat): (bar: string)
    requires filled <= BarLength
    ensures |bar| == BarLength
    ensures forall i :: 0 <= i < |bar| ==> (bar[i] == FullCell <==> i < filled)
    ensures forall i :: 0 <= i < |bar| ==> bar[i] == FullCell || bar[i] == EmptyCell
  {
    seq(filled, _ => FullCell) + seq(BarLength - filled, _ => EmptyCell)
  }

  /** The status text of one step: `{action}: [{bar}] {percent}%`. */
  function RenderStep(step: int, total: int, action: string): string
    requires 1 <= step <= total
  {
    action + ": [" + Bar(Filled(step, total)) + "] " + NatToDecimal(Percent(step, total)) + "%"
  }

  /** The texts `progress_bar` sends, one per step, in step order. */
  function Updates(total: int, action: string): (texts: seq<string>)
    ensures |texts| == if total > 0 then total else 0
  {
    if total <= 0 then []
    else seq(total, i requires 0 <= i < total => RenderStep(i + 1, total, action))
  }

  /** Number of full cells in a bar. */
  function CountFull(bar: string): (n: nat)
    ensures n <= |bar|
  {
    if bar == [] then 0 else CountFull(bar[..|bar| - 1]) + (if bar[|bar| - 1] == FullCell then 1 else 0)
  }

  predicate IsBar(bar: string) {
    forall i :: 0 <= i < |bar| ==> bar[i] == FullCell || bar[i] == EmptyCell
  }

  /**
   * Reads a status text back: the number of full cells of its bar and the
   * percentage it shows, or None when `text` is not a status text for `action`.
   */
  function ParseStatus(text: string, action: string): Option<(nat, nat)> {
    var head := action + ": [";
    if !StartsWith(text, head) || |text| < |head| + BarLength + 3 then None
    else
      var bar := text[|head|..|head| + BarLength];
      var tail := text[|head| + BarLength..];
      var digits := tail[2..|tail| - 1];
      if tail[..2] != "] " || tail[|tail| - 1] != '%' || !IsBar(bar) || digits == [] || !AllDigits(digits) then None
      else Some((CountFull(bar), DecimalValue(digits)))
  }

  lemma {:induction false} CountFullOfBar(filled: nat, k: nat)
    requires filled <= BarLength && k <= BarLength
    ensures CountFull(Bar(filled)[..k]) == if k <= filled then k else filled
  {
    if k > 0 {
      var bar := Bar(filled);
      assert bar[..k][..k - 1] == bar[..k - 1];
      CountFullOfBar(filled, k - 1);
    }
  }

  /** Every status text reads back as the bar and percentage of its step. */
  lemma ParseRenderStep(step: int, total: int, action: string)
    requires 1 <= step <= total
    ensures ParseStatus(RenderStep(step, total, action), action) == Some((Filled(step, total), Percent(step, total)))
  {
    var text := RenderStep(step, total, action);
    var head := action + ": [";
    var bar := Bar(Filled(step, total));
    var digits := NatToDecimal(Percent(step, total));
    assert text == head + bar + "] " + digits + "%";
    assert text[..|head|] == head;
    assert text[|head|..|head| + BarLength] == bar;
    var tail := text[|head| + BarLength..];
    assert tail == "] " + digits + "%";
    assert tail[2..|tail| - 1] == digits;
    CountFullOfBar(Filled(step, total), BarLength);
    assert bar[..BarLength] == bar;
    DecimalRoundTrip(Percent(step, total));
  }

  /** The bar never shrinks and the percentage never drops from one step to a later one. */
  lemma StepsMonotone(s1: int, s2: int, total: int)
    requires 1 <= s1 <= s2 <= total
    ensures Filled(s1, total) <= Filled(s2, total)
    ensures Percent(s1, total) <= Percent(s2, total)
  {
    DivMonotone(BarLength * s1, BarLength * s2, total);
    DivMonotone(100 * s1, 100 * s2, total);
  }

  /** The last text shows a full bar and 100%. */
  lemma FinalUpdate(total: int, action: string)
    requires total >= 1
    ensures Updates(total, action)[total - 1] == action + ": [" + seq(BarLength, _ => FullCell) + "] 100%"
  {
    assert Updates(total, action)[total - 1] == RenderStep(total, total, action);
    assert Filled(total, total) == BarLength && Percent(total, total) == 100;
    assert NatToDecimal(100) == NatToDecimal(10) + "0";
    assert NatToDecimal(10) == NatToDecimal(1) + "0";
    assert Bar(BarLength) == seq(BarLength, _ => FullCell);
  }

  /** Step 5 of the 8 steps of a clean job shows 12 full cells and 62%. */
  lemma CleaningStepFive()
    ensures Filled(5, 8) == 12 && Percent(5, 8) == 62
    ensures RenderStep(5, 8, "Cleaning") == "Cleaning: [" + seq(12, _ => FullCell) + seq(8, _ => EmptyCell) + "] 62%"
  {
    assert NatToDecimal(62) == NatToDecimal(6) + "2";
  }

  /** The text the status message holds after `texts` were sent: the last one whose edit went through. */
  function Shown(initial: string, texts: seq<string>, editFails: int -> bool): (shown: string)
    ensures shown == initial || shown in texts
  {
    if texts == [] then initial
    else if !editFails(|texts|) then texts[|texts| - 1]
    else Shown(initial, texts[..|texts| - 1], editFails)
  }

  /**
   * `progress_bar(message, total, action)`. `editFails(step)` says whether the
   * edit of that step raises; `initial` is the message's text before the call.
   * Returns the texts sent and the text the message shows afterwards.
   */
  method ProgressBar(initial: string, total: int, action: string, editFails: int -> bool)
    returns (sent: seq<string>, shown: string)
    ensures sent == Updates(total, action)
    ensures shown == Shown(initial, sent, editFails)
  {
    ghost var all := Updates(total, action);
    sent, shown := [], initial;
    var step := 1;
    while step <= total
      invariant 1 <= step <= |all| + 1
      invariant sent == all[..step - 1]
      invariant shown == Shown(initial, sent, editFails)
    {
      var text := RenderStep(step, total, action);
      assert all[..step] == sent + [text];
      var before := sent;
      sent := sent + [text];
      assert sent[..|sent| - 1] == before;
      if !editFails(step) {
        shown := text;
      }
      step := step + 1;
    }
    assert all[..step - 1] == all;
  }
}
