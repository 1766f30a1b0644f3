/**
  Channel interleaving of the audio worklet
  (web/portal/public/game/index.audio.worklet.js, write_output and write_input).
 */
module AudioChannels {
  type Sample = real

  /** Every channel carries n samples. */
  ghost predicate Even(channels: seq<seq<Sample>>, n: nat) {
    forall ch | 0 <= ch < |channels| :: |channels[ch]| == n
  }

  /** The place of a channel's sample in the flat buffer. */
  function Flat(sample: int, channels: int, ch: int): int {
    sample * channels + ch
  }

  lemma ProductBound(sample: nat, n: nat, channels: nat, ch: nat)
    requires sample < n && ch < channels
    ensures 0 <= Flat(sample, channels, ch) < n * channels
  {
    assert (sample + 1) * channels <= n * channels;
  }

  lemma QuotientIs(i: nat, channels: nat, sample: nat)
    requires sample * channels <= i < (sample + 1) * channels
    ensures i / channels == sample
  {
    var q := i / channels;
    assert q * channels <= i < (q + 1) * channels;
    assert q < sample ==> (q + 1) * channels <= sample * channels;
    assert q > sample ==> (sample + 1) * channels <= q * channels;
  }

  /** Where a flat index comes from. */
  lemma FlatIndexSplits(sample: nat, channels: nat, ch: nat)
    requires ch < channels
    ensures Flat(sample, channels, ch) / channels == sample
    ensures Flat(sample, channels, ch) % channels == ch
  {
    QuotientIs(Flat(sample, channels, ch), channels, sample);
  }

  lemma SplitInRange(i: nat, channels: nat, n: nat)
    requires channels > 0 && i < n * channels
    ensures 0 <= i / channels < n && 0 <= i % channels < channels
    ensures i == Flat(i / channels, channels, i % channels)
  {
  }

  predicate InGrid(sample: int, ch: int, n: nat, channels: nat) {
    0 <= sample < n && 0 <= ch < channels
  }

  /** sample * channels + ch maps the (sample, channel) pairs one to one onto the flat buffer. */
  lemma FlatIndexIsBijection(channels: nat, n: nat)
    ensures forall s, c | InGrid(s, c, n, channels) :: 0 <= Flat(s, channels, c) < n * channels
    ensures forall s, c, s', c' | InGrid(s, c, n, channels) && InGrid(s', c', n, channels) ::
        Flat(s, channels, c) == Flat(s', channels, c') ==> s == s' && c == c'
    ensures forall i: nat {:trigger i / channels} | i < n * channels && channels > 0 ::
      InGrid(i / channels, i % channels, n, channels) && i == Flat(i / channels, channels, i % channels)
  {
    forall s, c | InGrid(s, c, n, channels)
      ensures 0 <= Flat(s, channels, c) < n * channels && Flat(s, channels, c) / channels == s
          && Flat(s, channels, c) % channels == c
    {
      ProductBound(s, n, channels, c);
      FlatIndexSplits(s, channels, c);
    }
    forall i: nat {:trigger i / channels} | i < n * channels && channels > 0
      ensures InGrid(i / channels, i % channels, n, channels) && i == Flat(i / channels, channels, i % channels)
    {
      SplitInRange(i, channels, n);
    }
  }

  /** The flat buffer of some channels: sample after sample, channel after channel. */
  ghost predicate IsInterleaved(flat: seq<Sample>, channels: seq<seq<Sample>>, n: nat) {
    && |flat| == n * |channels| && Even(channels, n)
    && forall sample, ch | 0 <= sample < n && 0 <= ch < |channels| ::
        At(flat, |channels|, sample, ch) == channels[ch][sample]
  }

  function At(flat: seq<Sample>, channels: nat, sample: nat, ch: nat): Sample
    requires ch < channels
  {
    if 0 <= Flat(sample, channels, ch) < |flat| then flat[Flat(sample, channels, ch)] else 0.0
  }

  /** One flat buffer per set of channels, and one set of channels per flat buffer. */
  lemma InterleavingIsUnique(flat: seq<Sample>, flat': seq<Sample>, channels: seq<seq<Sample>>,
                             channels': seq<seq<Sample>>, n: nat)
    requires IsInterleaved(flat, channels, n) && IsInterleaved(flat', channels', n) && |channels| == |channels'|
    ensures flat == flat' <==> channels == channels'
  {
    if channels == channels' {
      forall i | 0 <= i < |flat| ensures flat[i] == flat'[i] {
        SplitInRange(i, |channels|, n);
        assert At(flat, |channels|, i / |channels|, i % |channels|)
            == At(flat', |channels|, i / |channels|, i % |channels|);
      }
    }
    if flat == flat' {
      forall ch | 0 <= ch < |channels| ensures channels[ch] == channels'[ch] {
        forall sample | 0 <= sample < n ensures channels[ch][sample] == channels'[ch][sample] {
          assert At(flat, |channels|, sample, ch) == At(flat', |channels|, sample, ch);
        }
      }
    }
  }

  ghost function Values(channels: seq<array<Sample>>): seq<seq<Sample>>
    reads channels
  {
    seq(|channels|, ch requires 0 <= ch < |channels| reads channels => channels[ch][..])
  }

  ghost predicate EvenArrays(channels: seq<array<Sample>>, n: nat) {
    forall ch | 0 <= ch < |channels| :: channels[ch].Length == n
  }

  ghost predicate Separate(channels: seq<array<Sample>>) {
    forall i, j | 0 <= i < j < |channels| :: channels[i] != channels[j]
  }

  /** write_input: the channels are written into the flat buffer. */
  method WriteInput(dest: array<Sample>, source: seq<seq<Sample>>, ghost n: nat)
    requires Even(source, n) && dest.Length == n * |source|
    modifies dest
    ensures IsInterleaved(dest[..], source, n)
  {
    var channels := |source|;
    for ch := 0 to channels
      invariant forall c, s | 0 <= c < ch && 0 <= s < n :: At(dest[..], channels, s, c) == source[c][s]
    {
      for sample := 0 to |source[ch]|
        invariant forall c, s | 0 <= c < ch && 0 <= s < n :: At(dest[..], channels, s, c) == source[c][s]
        invariant forall s | 0 <= s < sample :: At(dest[..], channels, s, ch) == source[ch][s]
      {
        ProductBound(sample, n, channels, ch);
        ghost var before := dest[..];
        dest[Flat(sample, channels, ch)] := source[ch][sample];
        forall c, s | 0 <= c < channels && 0 <= s < n && (c != ch || s != sample)
          ensures At(dest[..], channels, s, c) == At(before, channels, s, c)
        {
          FlatIndexSplits(sample, channels, ch);
          FlatIndexSplits(s, channels, c);
        }
      }
    }
  }

  /** write_output: the flat buffer is dealt out to the channels. */
  method WriteOutput(dest: seq<array<Sample>>, source: seq<Sample>, ghost n: nat)
    requires EvenArrays(dest, n) && Separate(dest) && |source| == n * |dest|
    modifies dest
    ensures IsInterleaved(source, Values(dest), n)
  {
    var channels := |dest|;
    for ch := 0 to channels
      invariant forall c, s | 0 <= c < ch && 0 <= s < n :: dest[c][s] == At(source, channels, s, c)
    {
      for sample := 0 to dest[ch].Length
        invariant forall c, s | 0 <= c < ch && 0 <= s < n :: dest[c][s] == At(source, channels, s, c)
        invariant forall s | 0 <= s < sample :: dest[ch][s] == At(source, channels, s, ch)
      {
        ProductBound(sample, n, channels, ch);
        dest[ch][sample] := source[Flat(sample, channels, ch)];
      }
    }
  }

  /** Main result: writing channels in and dealing them out again restores every sample. */
  lemma InThenOutRestores(channels: seq<seq<Sample>>, flat: seq<Sample>, out: seq<seq<Sample>>, n: nat)
    requires IsInterleaved(flat, channels, n)
    requires IsInterleaved(flat, out, n) && |out| == |channels|
    ensures out == channels
  {
    InterleavingIsUnique(flat, flat, channels, out, n);
  }

  /** And the other way round. */
  lemma OutThenInRestores(flat: seq<Sample>, channels: seq<seq<Sample>>, again: seq<Sample>, n: nat)
    requires IsInterleaved(flat, channels, n) && IsInterleaved(again, channels, n)
    ensures again == flat
  {
    InterleavingIsUnique(flat, again, channels, channels, n);
  }
}
