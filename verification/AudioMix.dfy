/** The non-linear mix of 16-bit audio samples (AVSDK/avmixer/generalaudiomixer.cpp, lines 15-37 and 79-99). */
module AudioMix {
  const MIN_SAMPLE := -32768
  const MAX_SAMPLE := 32767

  predicate IsSample(x: int) {
    MIN_SAMPLE <= x <= MAX_SAMPLE
  }

  /** One more sample mixed in: samples of the same sign are added less the product of their magnitudes over 2^15. The
      shift rounds down, and the products it is applied to are not negative. */
  function MixStep(tmp: int, x: int): int {
    if tmp < 0 && x < 0 then tmp + x + tmp * x / 32768
    else if tmp >= 0 && x >= 0 then tmp + x - tmp * x / 32768
    else tmp + x
  }

  /** The mix of the first n samples. */
  function Mix(samples: seq<int>, n: nat): int
    requires n <= |samples|
  {
    if n == 0 then 0 else if n == 1 then samples[0] else MixStep(Mix(samples, n - 1), samples[n - 1])
  }

  lemma ProductBelow(a: nat, b: nat)
    requires a <= 32768
    ensures 0 <= a * b <= 32768 * b
  {
    var d: nat := 32768 - a;
    assert d * b == 32768 * b - a * b;
  }

  /** With a and b at most 2^15, a * b / 2^15 rounded down is at most either, and takes a + b to at most 2^15. */
  lemma ProductPart(a: nat, b: nat)
    requires a <= 32768 && b <= 32768
    ensures 0 <= a * b <= 0x4000_0000
    ensures a * b / 32768 <= b && a * b / 32768 <= a
    ensures a + b - a * b / 32768 <= 32768
  {
    ProductBelow(a, b);
    ProductBelow(b, a);
    var d: nat := 32768 - a;
    ProductBelow(d, 32768 - b);
    ProductBelow(32768 - b, d);
    assert d * (32768 - b) == 32768 * 32768 - 32768 * a - 32768 * b + a * b;
    assert b * a == a * b;
  }

  /** The running mix stays within 16 bits but for the one value 32768, its products within 31 bits, and a sample of the
      same sign never lowers the magnitude below that of either. */
  lemma MixStepBound(tmp: int, x: int)
    requires MIN_SAMPLE <= tmp <= 32768 && IsSample(x)
    ensures MIN_SAMPLE <= MixStep(tmp, x) <= 32768
    ensures (tmp < 0 && x < 0) || (tmp >= 0 && x >= 0) ==> 0 <= tmp * x <= 0x4000_0000
    ensures tmp >= 0 && x >= 0 ==> MixStep(tmp, x) >= tmp && MixStep(tmp, x) >= x
    ensures tmp < 0 && x < 0 ==> MixStep(tmp, x) <= tmp && MixStep(tmp, x) <= x
    ensures (tmp < 0) != (x < 0) ==> MixStep(tmp, x) == tmp + x
  {
    if tmp >= 0 && x >= 0 {
      ProductPart(tmp, x);
    } else if tmp < 0 && x < 0 {
      ProductPart(-tmp, -x);
      assert tmp * x == (-tmp) * (-x);
    }
  }

  ghost predicate AllSamples(samples: seq<int>) {
    forall k :: 0 <= k < |samples| ==> IsSample(samples[k])
  }

  lemma {:induction false} MixBound(samples: seq<int>, n: nat)
    requires AllSamples(samples) && n <= |samples|
    ensures MIN_SAMPLE <= Mix(samples, n) <= 32768
  {
    if n > 1 {
      MixBound(samples, n - 1);
      MixStepBound(Mix(samples, n - 1), samples[n - 1]);
    }
  }

  /** Samples that are all positive or zero mix to at least the greatest; samples that are all negative to at most the
      least. */
  lemma {:induction false} MixDominates(samples: seq<int>, n: nat, k: nat)
    requires AllSamples(samples) && k < n <= |samples|
    ensures (forall j :: 0 <= j < n ==> samples[j] >= 0) ==> Mix(samples, n) >= samples[k]
    ensures (forall j :: 0 <= j < n ==> samples[j] < 0) ==> Mix(samples, n) <= samples[k]
  {
    if n > 1 {
      MixBound(samples, n - 1);
      MixStepBound(Mix(samples, n - 1), samples[n - 1]);
      MixDominates(samples, n - 1, if k < n - 1 then k else 0);
    }
  }

  /** What the clamp makes of a mix: it changes 32768 only. */
  function Clamp(tmp: int): int {
    if tmp > MAX_SAMPLE then MAX_SAMPLE else if tmp < MIN_SAMPLE then MIN_SAMPLE else tmp
  }

  /** Mixes the first numData samples. */
  method MixerData(mixerData: array<int>, numData: nat) returns (r: int)
    requires numData <= mixerData.Length && AllSamples(mixerData[..numData])
    ensures IsSample(r) && r == Clamp(Mix(mixerData[..numData], numData))
    ensures r != Mix(mixerData[..numData], numData) <==> Mix(mixerData[..numData], numData) == 32768
  {
    ghost var samples := mixerData[..numData];
    if numData < 1 {
      return 0;
    }
    var tmp := mixerData[0];
    for i := 1 to numData
      invariant tmp == Mix(samples, i) && MIN_SAMPLE <= tmp <= 32768
    {
      MixStepBound(tmp, samples[i]);
      var s := (if tmp < 0 then 1 else 0) + (if mixerData[i] < 0 then 1 else 0);
      if s == 2 {
        tmp := tmp + mixerData[i] + tmp * mixerData[i] / 32768;
      } else if s == 0 {
        tmp := tmp + mixerData[i] - tmp * mixerData[i] / 32768;
      } else {
        tmp := tmp + mixerData[i];
      }
    }
    if tmp > 32767 {
      tmp := 32767;
    }
    if tmp < -32768 {
      tmp := -32768;
    }
    r := tmp;
  }

  /** A stream takes part if it is enabled and has data left. */
  datatype AudioData = AudioData(enabled: bool, hasData: bool, data: seq<int>)

  /** The samples at position i of the streams that take part. */
  function SamplesAt(streams: seq<AudioData>, n: nat, i: nat): (s: seq<int>)
    requires n <= |streams| && forall j :: 0 <= j < n && streams[j].enabled && streams[j].hasData ==> i < |streams[j].data|
    ensures |s| <= n
  {
    if n == 0 then [] else
    if streams[n - 1].enabled && streams[n - 1].hasData then SamplesAt(streams, n - 1, i) + [streams[n - 1].data[i]] else SamplesAt(streams, n - 1, i)
  }

  ghost predicate IsInput(streams: seq<AudioData>, len: nat) {
    forall j :: 0 <= j < |streams| ==> AllSamples(streams[j].data) && (streams[j].enabled && streams[j].hasData ==> len <= |streams[j].data|)
  }

  lemma {:induction false} SamplesAreSamples(streams: seq<AudioData>, n: nat, i: nat, len: nat)
    requires n <= |streams| && IsInput(streams, len) && i < len
    ensures AllSamples(SamplesAt(streams, n, i))
  {
    if n > 0 {
      SamplesAreSamples(streams, n - 1, i, len);
      var x := streams[n - 1];
      if x.enabled && x.hasData {
        assert IsSample(x.data[i]);
      }
    }
  }

  /** Collects the samples at position i in the buffer. */
  method Collect(streams: seq<AudioData>, i: nat, len: nat, mixerData: array<int>) returns (cData: nat)
    requires IsInput(streams, len) && i < len && |streams| <= mixerData.Length
    modifies mixerData
    ensures cData <= mixerData.Length && mixerData[..cData] == SamplesAt(streams, |streams|, i)
  {
    cData := 0;
    for j := 0 to |streams|
      invariant cData <= j && mixerData[..cData] == SamplesAt(streams, j, i)
    {
      if streams[j].enabled && streams[j].hasData {
        mixerData[cData] := streams[j].data[i];
        cData := cData + 1;
      }
    }
  }

  /** The output sample at position i. */
  ghost predicate MixedAt(streams: seq<AudioData>, len: nat, output: seq<int>, i: nat)
    requires IsInput(streams, len) && i < len && i < |output|
  {
    var samples := SamplesAt(streams, |streams|, i);
    output[i] == Clamp(Mix(samples, |samples|)) && IsSample(output[i])
  }

  /** Mixes up to 32 streams sample by sample. */
  method MixSamples(streams: seq<AudioData>, output: array<int>, len: nat)
    requires IsInput(streams, len) && len <= output.Length && |streams| <= 32
    modifies output
    ensures forall i: nat {:trigger MixedAt(streams, len, output[..], i)} :: i < len ==> MixedAt(streams, len, output[..], i)
  {
    var mixerData := new int[32];
    for i := 0 to len
      invariant forall k: nat {:trigger MixedAt(streams, len, output[..], k)} :: k < i ==> MixedAt(streams, len, output[..], k)
    {
      var cData := Collect(streams, i, len, mixerData);
      SamplesAreSamples(streams, |streams|, i, len);
      var r := MixerData(mixerData, cData);
      ghost var before := output[..];
      output[i] := r;
      forall k: nat | k < i + 1
        ensures MixedAt(streams, len, output[..], k)
      {
        assert k < i ==> MixedAt(streams, len, before, k) && output[k] == before[k];
      }
    }
  }
}
