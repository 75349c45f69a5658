/**
 * The quality step-down of scripts/compress-aggressive.mjs: encode at
 * quality 80 and, while the output is over 400 KiB and the quality is above
 * 60, try again five points lower.  The encoder is a parameter: the output
 * size it produces at each quality.
 */
module QualitySearch {

  const InitialQuality: nat := 80
  const MinQuality: nat := 60
  const QualityStep: nat := 5
  const TargetSize: nat := 400 * 1024

  /** The qualities the search can visit: 80, 75, 70, 65, 60. */
  predicate OnLadder(q: nat) {
    MinQuality <= q <= InitialQuality && (InitialQuality - q) % QualityStep == 0
  }

  /** Reference definition: where the search starting at `q` settles. */
  function Settle(size: nat -> nat, q: nat): nat
    requires OnLadder(q)
    decreases q
  {
    if size(q) > TargetSize && q > MinQuality then Settle(size, q - QualityStep) else q
  }

  /** The settled quality is on the ladder; it meets the target unless the
      ladder ran out at 60; and every higher quality tried missed it. */
  lemma {:induction false} SettleIsFirstUnderTarget(size: nat -> nat, q: nat)
    requires OnLadder(q)
    ensures OnLadder(Settle(size, q)) && Settle(size, q) <= q
    ensures size(Settle(size, q)) <= TargetSize || Settle(size, q) == MinQuality
    ensures forall p: nat :: OnLadder(p) && Settle(size, q) < p <= q ==> size(p) > TargetSize
    decreases q
  {
    if size(q) > TargetSize && q > MinQuality {
      SettleIsFirstUnderTarget(size, q - QualityStep);
    }
  }

  /** The search stops at the first quality whose output meets the target. */
  lemma FirstTryThatFits(size: nat -> nat)
    requires size(InitialQuality) <= TargetSize
    ensures Settle(size, InitialQuality) == InitialQuality
  {
  }

  /** The do-while loop: `bytes` is the buffer encoded at the returned
      quality, which is the one written and reported, and the encoder runs at
      most five times. */
  method ChooseQuality(size: nat -> nat) returns (quality: nat, bytes: nat, encodings: nat)
    ensures quality == Settle(size, InitialQuality) && OnLadder(quality)
    ensures bytes == size(quality)
    ensures bytes <= TargetSize || quality == MinQuality
    ensures encodings == (InitialQuality - quality) / QualityStep + 1 && encodings <= 5
  {
    quality := InitialQuality;
    bytes := 0;
    encodings := 0;
    var running := true;
    while running
      invariant OnLadder(quality)
      invariant running ==> Settle(size, quality) == Settle(size, InitialQuality)
      invariant !running ==> quality == Settle(size, InitialQuality) && bytes == size(quality)
      invariant encodings == (InitialQuality - quality) / QualityStep + (if running then 0 else 1)
      decreases quality, running
    {
      bytes := size(quality);
      encodings := encodings + 1;
      if bytes > TargetSize && quality > MinQuality {
        quality := quality - QualityStep;
        running := quality >= MinQuality;
      } else {
        running := false;
      }
    }
    SettleIsFirstUnderTarget(size, InitialQuality);
  }
}
