/** Which frames the read loop of `extract_codes` submits for recognition. */
module FrameSampling {

  /**
   * The frames whose ordinal `i` satisfies `i % interval == 0`, in reading
   * order. Dafny's `%` and Python's agree on when the remainder is zero, for
   * a negative divisor too.
   */
  function Sampled<T>(frames: seq<T>, interval: int): seq<T>
    requires interval != 0
    decreases |frames|
  {
    if frames == [] then []
    else
      var last := |frames| - 1;
      Sampled(frames[..last], interval) + if last % interval == 0 then [frames[last]] else []
  }

  /** ⌈n / k⌉ */
  function CeilDiv(n: nat, k: nat): nat
    requires k > 0
  {
    (n + k - 1) / k
  }

  /** A multiple of a positive `k` strictly between `-k` and `k` is zero. */
  lemma {:induction false} MultipleNearZero(k: int, x: int)
    requires k > 0 && -k < k * x < k
    ensures x == 0
  {
  }

  /** Within the window `(c - 1) * k < n <= c * k`, only `c * k` is divisible by `k`. */
  lemma {:induction false} DivisibleInWindow(n: int, k: int, c: int)
    requires k > 0 && c * k - k < n <= c * k
    ensures n % k == 0 <==> n == c * k
  {
    var q, r := n / k, n % k;
    assert n == k * q + r && 0 <= r < k;
    if r == 0 {
      assert k * (q - c) == n - c * k;
      MultipleNearZero(k, q - c);
    }
    if n == c * k {
      assert k * (c - q) == r;
      MultipleNearZero(k, c - q);
    }
  }

  /** `c` is ⌈n / k⌉ exactly when `(c - 1) * k < n <= c * k`. */
  lemma {:induction false} CeilDivBounds(n: nat, k: nat, c: nat)
    requires k > 0
    requires c * k - k < n <= c * k
    ensures CeilDiv(n, k) == c
  {
    var q, r := (n + k - 1) / k, (n + k - 1) % k;
    assert n + k - 1 == k * q + r && 0 <= r < k;
    assert k * (q - c) == n + k - 1 - r - c * k;
    MultipleNearZero(k, q - c);
  }

  /** With a positive interval `k`, `c` frames sampled from `n` satisfy `(c - 1) * k < n <= c * k`. */
  lemma {:induction false} SampledLength<T>(frames: seq<T>, k: int)
    requires k > 0
    ensures |Sampled(frames, k)| * k - k < |frames| <= |Sampled(frames, k)| * k
    decreases |frames|
  {
    if frames != [] {
      var n := |frames| - 1;
      var c := |Sampled(frames[..n], k)|;
      SampledLength(frames[..n], k);
      DivisibleInWindow(n, k, c);
      if n % k == 0 {
        assert (c + 1) * k - k == c * k;
      }
    }
  }

  /**
   * With a positive interval `k`, the sampled frames are those at ordinals
   * 0, k, 2k, ... below the number of frames read: ⌈n / k⌉ of them.
   */
  lemma {:induction false} SampledAtMultiples<T>(frames: seq<T>, k: int)
    requires k > 0
    ensures |Sampled(frames, k)| * k - k < |frames| <= |Sampled(frames, k)| * k
    ensures forall j :: 0 <= j < |Sampled(frames, k)| ==>
      j * k < |frames| && Sampled(frames, k)[j] == frames[j * k]
    decreases |frames|
  {
    SampledLength(frames, k);
    if frames != [] {
      var n := |frames| - 1;
      var prefix := frames[..n];
      var picked := Sampled(prefix, k);
      SampledAtMultiples(prefix, k);
      var c := |picked|;
      forall j | 0 <= j < c
        ensures j * k < |frames| && picked[j] == frames[j * k]
      {
        assert prefix[j * k] == frames[j * k];
      }
      if n % k == 0 {
        DivisibleInWindow(n, k, c);
        assert Sampled(frames, k) == picked + [frames[n]];
        assert c * k == n;
      } else {
        assert Sampled(frames, k) == picked;
      }
    }
  }

  /** Closed form of `SampledAtMultiples`'s count. */
  lemma {:induction false} SampledCount<T>(frames: seq<T>, k: int)
    requires k > 0
    ensures |Sampled(frames, k)| == CeilDiv(|frames|, k)
  {
    SampledAtMultiples(frames, k);
    CeilDivBounds(|frames|, k, |Sampled(frames, k)|);
  }

  /** Remainders by `k` and by `-k` coincide. */
  lemma {:induction false} ModNegatedDivisor(i: int, k: int)
    requires k > 0
    ensures i % -k == i % k
  {
    var q, r := i / -k, i % -k;
    var q', r' := i / k, i % k;
    assert i == -k * q + r && 0 <= r < k;
    assert i == k * q' + r' && 0 <= r' < k;
    assert k * (q' + q) == r - r';
    MultipleNearZero(k, q' + q);
  }

  /**
   * A negative interval (from a negative reported frame rate) samples like
   * its absolute value.
   */
  lemma {:induction false} SampledIgnoresSign<T>(frames: seq<T>, k: int)
    requires k > 0
    ensures Sampled(frames, -k) == Sampled(frames, k)
    decreases |frames|
  {
    if frames != [] {
      var last := |frames| - 1;
      SampledIgnoresSign(frames[..last], k);
      ModNegatedDivisor(last, k);
    }
  }

  /**
   * Some sampled frame has property `p` exactly when some frame at ordinal
   * 0, k, 2k, ... does.
   */
  lemma {:induction false} SomeSampledFrame<T>(frames: seq<T>, k: int, p: T -> bool)
    requires k > 0
    ensures (exists j :: 0 <= j < |Sampled(frames, k)| && p(Sampled(frames, k)[j])) <==>
            (exists j :: 0 <= j < CeilDiv(|frames|, k) && j * k < |frames| && p(frames[j * k]))
  {
    var picked := Sampled(frames, k);
    SampledAtMultiples(frames, k);
    SampledCount(frames, k);
    if exists j :: 0 <= j < |picked| && p(picked[j]) {
      var j :| 0 <= j < |picked| && p(picked[j]);
      assert j * k < |frames| && picked[j] == frames[j * k];
    }
    if exists j :: 0 <= j < CeilDiv(|frames|, k) && j * k < |frames| && p(frames[j * k]) {
      var j :| 0 <= j < CeilDiv(|frames|, k) && j * k < |frames| && p(frames[j * k]);
      assert picked[j] == frames[j * k];
    }
  }
}
