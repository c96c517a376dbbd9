/** The byte logic of the Qt audio demo: an `AudioSource` that hands out a
    decoded 16-bit stereo PCM buffer in pieces (whole, or one channel
    copied to both sides) and an `AudioPlayer` whose slots keep a volume, a
    mute flag, a channel and a playback state.

    Decoding, the Qt output device and signal delivery are outside the
    model: a slot returns the new object together with the effects it
    causes, in order -- the signals it emits, the volume it hands to the
    output, a request to stop the output.
 */
module Audio {
  import opened Common

  type byte = x: int | 0 <= x < 256

  // ---------------------------------------------------------------------------
  // `struct` with format '<h'
  // ---------------------------------------------------------------------------

  /** `struct.unpack('<h', bytes([lo, hi]))`: a little-endian two's
      complement 16-bit integer. */
  function Unpack16(lo: byte, hi: byte): (v: int)
    ensures -32768 <= v < 32768
    ensures v % 65536 == lo as int + 256 * (hi as int)
  {
    var u := lo as int + 256 * (hi as int);
    if u >= 32768 then u - 65536 else u
  }

  /** `struct.pack('<h', v)`, for a value in range (the format raises
      otherwise, which no caller here can reach). */
  function Pack16(v: int): (r: seq<byte>)
    requires -32768 <= v < 32768
    ensures |r| == 2 && r[0] as int + 256 * (r[1] as int) == v % 65536
  {
    var u := v % 65536;
    [u % 256, u / 256]
  }

  /** Packing what was unpacked gives back the two bytes. */
  lemma {:induction false} PackUnpack(lo: byte, hi: byte)
    ensures Pack16(Unpack16(lo, hi)) == [lo, hi]
  {
    var r := Pack16(Unpack16(lo, hi));
    var u: int := lo as int + 256 * (hi as int);
    assert u % 65536 == u;
    assert r[0] as int + 256 * (r[1] as int) == u;
  }

  /** Unpacking what was packed gives back the value. */
  lemma {:induction false} UnpackPack(v: int)
    requires -32768 <= v < 32768
    ensures Unpack16(Pack16(v)[0], Pack16(v)[1]) == v
  {
  }

  // ---------------------------------------------------------------------------
  // `_getChannelData`
  // ---------------------------------------------------------------------------

  /** `data[o::4]`: every fourth byte from offset `o`. */
  function Stride(data: seq<byte>, o: nat): (r: seq<byte>)
    requires o < 4
    ensures |r| == (|data| + 3 - o) / 4
  {
    seq((|data| + 3 - o) / 4, i requires 0 <= i < (|data| + 3 - o) / 4 => data[o + 4 * i])
  }

  /** A `bytearray(n)` after `b[::2] = evens` and `b[1::2] = odds`. */
  function Interleave(evens: seq<byte>, odds: seq<byte>, n: nat): (r: seq<byte>)
    requires |evens| == (n + 1) / 2 && |odds| == n / 2
    ensures |r| == n
  {
    seq(n, i requires 0 <= i < n => if i % 2 == 0 then evens[i / 2] else odds[i / 2])
  }

  /** `struct.unpack('<' + 'h' * (len(b) // 2), b)` on an even number of
      bytes. */
  function Shorts(b: seq<byte>): (r: seq<int>)
    requires |b| % 2 == 0
    ensures |r| == |b| / 2
    ensures forall k :: 0 <= k < |r| ==> -32768 <= r[k] < 32768
  {
    seq(|b| / 2, k requires 0 <= k < |b| / 2 => Unpack16(b[2 * k], b[2 * k + 1]))
  }

  /** `list(chain(*zip(xs, xs)))`: every value twice in a row. */
  function Doubled(xs: seq<int>): (r: seq<int>)
    ensures |r| == 2 * |xs|
  {
    seq(2 * |xs|, j requires 0 <= j < 2 * |xs| => xs[j / 2])
  }

  predicate InRange(vs: seq<int>) {
    forall i :: 0 <= i < |vs| ==> -32768 <= vs[i] < 32768
  }

  /** `struct.pack('<' + 'h' * len(vs), *vs)` */
  function PackAll(vs: seq<int>): (r: seq<byte>)
    requires InRange(vs)
    ensures |r| == 2 * |vs|
    decreases |vs|
  {
    if vs == [] then [] else Pack16(vs[0]) + PackAll(vs[1..])
  }

  /** Byte `r` of packed value `j` is byte `2 * j + r` of the packing. */
  lemma {:induction false} PackAllAt(vs: seq<int>, j: nat, r: nat)
    requires InRange(vs) && j < |vs| && r < 2
    ensures PackAll(vs)[2 * j + r] == Pack16(vs[j])[r]
    decreases |vs|
  {
    if j > 0 {
      assert vs[1..][j - 1] == vs[j];
      PackAllAt(vs[1..], j - 1, r);
    }
  }

  /** `bytearray(n)`: `n` zero bytes. */
  function Zeros(n: nat): (r: seq<byte>)
    ensures |r| == n && forall i :: 0 <= i < n ==> r[i] == 0
  {
    seq(n, i => 0)
  }

  /** How many of the indices below `n` the slice `[start::2]` selects. */
  function SliceLen(n: nat, start: nat): nat
    requires start < 2
  {
    (n + 1 - start) / 2
  }

  /** `b[start::2] = v` on a bytearray, as CPython's bytearray subscript
      assignment does it: an empty `v` deletes the selected bytes, a
      non-empty one must be exactly as long as the slice (ValueError
      otherwise) and replaces the selected bytes in order. */
  function AssignStep2(b: seq<byte>, start: nat, v: seq<byte>): (r: Result<seq<byte>>)
    requires start < 2
    ensures r.Err? <==> v != [] && |v| != SliceLen(|b|, start)
    ensures r.Err? ==> r.fault == ValueError
    ensures r.Ok? && v != [] ==>
      |r.value| == |b| && forall i :: 0 <= i < |b| ==> r.value[i] == if i % 2 == start then v[i / 2] else b[i]
    ensures r.Ok? && v == [] ==>
      |r.value| == |b| - SliceLen(|b|, start) && forall k :: 0 <= k < |r.value| ==> r.value[k] == b[2 * k + 1 - start]
  {
    var n := SliceLen(|b|, start);
    if v == [] then Ok(seq(|b| - n, k requires 0 <= k < |b| - n => b[2 * k + 1 - start]))
    else if |v| != n then Err(ValueError)
    else Ok(seq(|b|, i requires 0 <= i < |b| => if i % 2 == start then v[i / 2] else b[i]))
  }

  /** With both halves of the right length, the two slice assignments into
      a zeroed buffer interleave them, empty halves included. */
  lemma {:induction false} FillInterleave(evens: seq<byte>, odds: seq<byte>, n: nat)
    requires |evens| == (n + 1) / 2 && |odds| == n / 2
    ensures var b1 := AssignStep2(Zeros(n), 0, evens);
      && b1.Ok? && |b1.value| == n
      && AssignStep2(b1.value, 1, odds) == Ok(Interleave(evens, odds, n))
  {
    FirstAssign(evens, n);
    SecondAssign(evens, Zeros(n / 2), odds, n);
  }

  /** Helper: `b[::2] = evens` on `bytearray(n)` fills the even bytes. */
  lemma {:induction false} FirstAssign(evens: seq<byte>, n: nat)
    requires |evens| == (n + 1) / 2
    ensures AssignStep2(Zeros(n), 0, evens) == Ok(Interleave(evens, Zeros(n / 2), n))
  {
    var want := Interleave(evens, Zeros(n / 2), n);
    if evens == [] {
      assert n == 0;
    } else {
      var got := AssignStep2(Zeros(n), 0, evens).value;
      forall i | 0 <= i < n
        ensures got[i] == want[i]
      {
      }
      assert got == want;
    }
  }

  /** Helper: `b[1::2] = odds` replaces the odd bytes, or deletes none of a
      buffer too short to have any. */
  lemma {:induction false} SecondAssign(evens: seq<byte>, zs: seq<byte>, odds: seq<byte>, n: nat)
    requires |evens| == (n + 1) / 2 && |zs| == n / 2 && |odds| == n / 2
    ensures AssignStep2(Interleave(evens, zs, n), 1, odds) == Ok(Interleave(evens, odds, n))
  {
    var b := Interleave(evens, zs, n);
    var want := Interleave(evens, odds, n);
    var got := AssignStep2(b, 1, odds).value;
    if odds == [] {
      assert n <= 1 && |got| == n;
      forall i | 0 <= i < n
        ensures got[i] == want[i]
      {
        assert i == 0 && got[0] == b[0];
      }
    } else {
      forall i | 0 <= i < n
        ensures got[i] == want[i]
      {
      }
    }
    assert got == want;
  }

  /** `_getChannelData(data, channel)`: channel 0 is the left sample of each
      4-byte stereo frame, channel 1 the right one. The two slice
      assignments into the half-length buffer raise ValueError when a
      non-empty stride does not fit (an empty one deletes bytes instead),
      and the unpack raises `struct.error` on an odd buffer length. */
  function ChannelData(data: seq<byte>, channel: nat): (r: Result<seq<byte>>)
    requires channel == 0 || channel == 1
    ensures r.Ok? ==> |r.value| % 4 == 0 && |r.value| <= 2 * |data|
    ensures r.Err? ==> r.fault == ValueError || r.fault == StructError
  {
    var b1 :- AssignStep2(Zeros(|data| / 2), 0, Stride(data, 2 * channel));
    var b :- AssignStep2(b1, 1, Stride(data, 2 * channel + 1));
    assert |b| <= |b1| <= |data| / 2;
    Repack(b)
  }

  /** The unpack, double and pack of `_getChannelData`: `struct.error` on
      an odd buffer, otherwise each 2-byte sample written twice. */
  function Repack(b: seq<byte>): (r: Result<seq<byte>>)
    ensures r.Err? <==> |b| % 2 != 0
    ensures r.Err? ==> r.fault == StructError
    ensures r.Ok? ==> |r.value| == 2 * |b|
  {
    if |b| % 2 != 0 then Err(StructError)
    else
      var shorts := Shorts(b);
      assert |shorts| * 2 == |b|;
      Ok(PackAll(Doubled(shorts)))
  }

  /** Which lengths `_getChannelData` accepts: whole frames, and for the
      right channel also one stray byte at the end, or a lone 2-byte piece
      (both of its strides are empty, so the assignments delete the whole
      buffer). Every other length raises, ValueError except for a
      right-channel read three bytes past a frame boundary. */
  lemma {:induction false} ChannelDataDefined(data: seq<byte>, channel: nat)
    requires channel == 0 || channel == 1
    ensures ChannelData(data, channel).Ok? <==>
      |data| % 4 == 0 || (channel == 1 && (|data| % 4 == 1 || |data| == 2))
    ensures ChannelData(data, channel).Err? ==>
      ChannelData(data, channel).fault == if channel == 1 && |data| % 4 == 3 then StructError else ValueError
    ensures channel == 1 && |data| == 2 ==> ChannelData(data, channel) == Ok([])
  {
    if channel == 0 {
      LeftDefined(data);
    } else {
      RightDefined(data);
    }
  }

  /** Helper: `ChannelDataDefined` for the left channel. */
  lemma {:induction false} LeftDefined(data: seq<byte>)
    ensures ChannelData(data, 0).Ok? <==> |data| % 4 == 0
    ensures ChannelData(data, 0).Err? ==> ChannelData(data, 0).fault == ValueError
  {
    var m, rem := |data| / 4, |data| % 4;
    assert |data| == 4 * m + rem;
    var evens, odds := Stride(data, 0), Stride(data, 1);
    if rem == 0 {
      assert |data| / 2 == 2 * m && |evens| == m && |odds| == m;
    } else if rem == 1 {
      assert |data| / 2 == 2 * m && |evens| == m + 1;
    } else {
      assert |data| / 2 == 2 * m + 1 && |evens| == m + 1 && |odds| == m + 1;
    }
  }

  /** Helper: `ChannelDataDefined` for the right channel. */
  lemma {:induction false} RightDefined(data: seq<byte>)
    ensures ChannelData(data, 1).Ok? <==> |data| % 4 == 0 || |data| % 4 == 1 || |data| == 2
    ensures ChannelData(data, 1).Err? ==>
      ChannelData(data, 1).fault == if |data| % 4 == 3 then StructError else ValueError
    ensures |data| == 2 ==> ChannelData(data, 1) == Ok([])
  {
    var m, rem := |data| / 4, |data| % 4;
    assert |data| == 4 * m + rem;
    var evens, odds := Stride(data, 2), Stride(data, 3);
    if rem == 0 || rem == 1 {
      assert |data| / 2 == 2 * m && |evens| == m && |odds| == m;
    } else if rem == 2 {
      assert |data| / 2 == 2 * m + 1 && |evens| == m && |odds| == m;
      if m == 0 {
        var b1 := AssignStep2(Zeros(1), 0, evens).value;
        assert |b1| == 0;
        assert AssignStep2(b1, 1, odds) == Ok([]);
        assert Shorts([]) == [] && Doubled([]) == [] && PackAll([]) == [];
      }
    } else {
      assert |data| / 2 == 2 * m + 1 && |evens| == m + 1 && |odds| == m;
    }
  }

  lemma {:induction false} StrideAt(data: seq<byte>, o: nat, i: nat)
    requires o < 4 && i < |Stride(data, o)|
    ensures o + 4 * i < |data| && Stride(data, o)[i] == data[o + 4 * i]
  {
  }

  lemma {:induction false} InterleaveAt(evens: seq<byte>, odds: seq<byte>, n: nat, k: nat, r: nat)
    requires |evens| == (n + 1) / 2 && |odds| == n / 2 && r < 2 && 2 * k + r < n
    ensures Interleave(evens, odds, n)[2 * k + r] == if r == 0 then evens[k] else odds[k]
  {
    assert (2 * k + r) / 2 == k && (2 * k + r) % 2 == r;
  }

  lemma {:induction false} ShortsAt(b: seq<byte>, k: nat)
    requires |b| % 2 == 0 && k < |b| / 2
    ensures 2 * k + 1 < |b| && Shorts(b)[k] == Unpack16(b[2 * k], b[2 * k + 1])
  {
  }

  lemma {:induction false} DoubledAt(xs: seq<int>, k: nat, q: nat)
    requires k < |xs| && q < 2
    ensures Doubled(xs)[2 * k + q] == xs[k]
  {
  }

  /** A length made of whole frames, plus for the right channel one stray
      byte: both strides then hold one byte per whole frame. */
  predicate WholeFrames(data: seq<byte>, channel: nat) {
    |data| % 4 == 0 || (channel == 1 && |data| % 4 == 1)
  }

  /** Helper: the stride lengths on whole frames. */
  lemma {:induction false} StrideLengths(data: seq<byte>, channel: nat)
    requires (channel == 0 || channel == 1) && WholeFrames(data, channel)
    ensures |Stride(data, 2 * channel)| == |data| / 4 && |Stride(data, 2 * channel + 1)| == |data| / 4
    ensures |data| / 2 == 2 * (|data| / 4)
  {
    var m := |data| / 4;
    assert |data| == 4 * m + |data| % 4;
  }

  /** The bytes `_getChannelData` builds on whole frames: the interleaved
      strides, unpacked, each value doubled, packed again. */
  function Extracted(data: seq<byte>, channel: nat): (r: seq<byte>)
    requires (channel == 0 || channel == 1) && WholeFrames(data, channel)
    ensures |r| == 4 * (|data| / 4)
  {
    StrideLengths(data, channel);
    var m := |data| / 4;
    PackAll(Doubled(Shorts(Interleave(Stride(data, 2 * channel), Stride(data, 2 * channel + 1), 2 * m))))
  }

  /** On whole frames, `_getChannelData` returns the `Extracted` bytes. */
  lemma {:induction false} ChannelDataIs(data: seq<byte>, channel: nat)
    requires channel == 0 || channel == 1
    requires WholeFrames(data, channel)
    ensures ChannelData(data, channel) == Ok(Extracted(data, channel))
  {
    StrideLengths(data, channel);
    var m := |data| / 4;
    FillInterleave(Stride(data, 2 * channel), Stride(data, 2 * channel + 1), 2 * m);
  }

  /** A packed value that was unpacked from two bytes packs back to them. */
  lemma {:induction false} PackedByte(d: seq<int>, b: seq<byte>, j: nat, k: nat, r: nat)
    requires InRange(d) && j < |d| && 2 * k + 1 < |b| && r < 2
    requires d[j] == Unpack16(b[2 * k], b[2 * k + 1])
    ensures PackAll(d)[2 * j + r] == b[2 * k + r]
  {
    PackAllAt(d, j, r);
    PackUnpack(b[2 * k], b[2 * k + 1]);
    if r == 0 {
      assert Pack16(d[j])[0] == b[2 * k];
    } else {
      assert Pack16(d[j])[1] == b[2 * k + 1];
    }
  }

  /** Unpacking, doubling and packing again: byte `r` of sample `q` of
      output frame `k` is byte `r` of the `k`-th sample of the buffer. */
  lemma {:induction false} RepackByte(b: seq<byte>, k: nat, q: nat, r: nat)
    requires |b| % 2 == 0 && 2 * k + 1 < |b| && q < 2 && r < 2
    ensures PackAll(Doubled(Shorts(b)))[4 * k + 2 * q + r] == b[2 * k + r]
  {
    var shorts := Shorts(b);
    var d := Doubled(shorts);
    DoubledAt(shorts, k, q);
    ShortsAt(b, k);
    PackedByte(d, b, 2 * k + q, k, r);
    assert 2 * (2 * k + q) + r == 4 * k + 2 * q + r;
  }

  /** Byte `r` of sample `k` of the buffer is byte `r` of the channel's
      sample in input frame `k`. */
  lemma {:induction false} BufferByte(data: seq<byte>, channel: nat, m: nat, k: nat, r: nat)
    requires channel == 0 || channel == 1
    requires |Stride(data, 2 * channel)| == m && |Stride(data, 2 * channel + 1)| == m
    requires k < m && r < 2
    ensures Interleave(Stride(data, 2 * channel), Stride(data, 2 * channel + 1), 2 * m)[2 * k + r]
      == data[4 * k + 2 * channel + r]
  {
    InterleaveAt(Stride(data, 2 * channel), Stride(data, 2 * channel + 1), 2 * m, k, r);
    if r == 0 {
      StrideAt(data, 2 * channel, k);
    } else {
      StrideAt(data, 2 * channel + 1, k);
    }
  }

  /** Byte `r` of sample `q` of output frame `k` is byte `r` of the
      channel's sample in input frame `k`. */
  lemma {:induction false} ChannelByte(data: seq<byte>, channel: nat, k: nat, q: nat, r: nat)
    requires channel == 0 || channel == 1
    requires WholeFrames(data, channel)
    requires k < |data| / 4 && q < 2 && r < 2
    ensures |Extracted(data, channel)| == 4 * (|data| / 4)
    ensures Extracted(data, channel)[4 * k + 2 * q + r] == data[4 * k + 2 * channel + r]
  {
    StrideLengths(data, channel);
    var m := |data| / 4;
    var b := Interleave(Stride(data, 2 * channel), Stride(data, 2 * channel + 1), 2 * m);
    RepackByte(b, k, q, r);
    BufferByte(data, channel, m, k, r);
  }

  /** Byte `i` of a buffer of `m` frames is byte `2 * q + r` of frame `k`. */
  lemma {:induction false} Split4(i: nat, m: nat) returns (k: nat, q: nat, r: nat)
    requires i < 4 * m
    ensures k < m && q < 2 && r < 2 && i == 4 * k + 2 * q + r
  {
    k := i / 4;
    var rest := i % 4;
    assert i == 4 * k + rest;
    if rest == 0 { q, r := 0, 0; }
    else if rest == 1 { q, r := 0, 1; }
    else if rest == 2 { q, r := 1, 0; }
    else { q, r := 1, 1; }
  }

  /** Frame `k` of a 16-bit stereo buffer: four bytes, left sample first. */
  function Frame(s: seq<byte>, k: nat): seq<byte>
    requires 4 * k + 4 <= |s|
  {
    s[4 * k..4 * k + 4]
  }

  /** The two bytes of channel `channel` in frame `k`. */
  function Sample(s: seq<byte>, k: nat, channel: nat): seq<byte>
    requires channel < 2 && 4 * k + 4 <= |s|
  {
    s[4 * k + 2 * channel..4 * k + 2 * channel + 2]
  }

  /** Output frame `k` is input frame `k`'s sample, twice. */
  lemma {:induction false} FrameAt(data: seq<byte>, channel: nat, k: nat)
    requires channel == 0 || channel == 1
    requires WholeFrames(data, channel)
    requires k < |data| / 4
    ensures |Extracted(data, channel)| == 4 * (|data| / 4)
    ensures Frame(Extracted(data, channel), k) == Sample(data, k, channel) + Sample(data, k, channel)
  {
    var m := |data| / 4;
    ChannelByte(data, channel, k, 0, 0);
    var out := Extracted(data, channel);
    assert |out| == 4 * m && 4 * k + 4 <= |out| && 4 * k + 4 <= |data|;
    ChannelByte(data, channel, k, 0, 1);
    ChannelByte(data, channel, k, 1, 0);
    ChannelByte(data, channel, k, 1, 1);
    assert out[4 * k] == data[4 * k + 2 * channel];
    assert out[4 * k + 1] == data[4 * k + 2 * channel + 1];
    assert out[4 * k + 2] == data[4 * k + 2 * channel];
    assert out[4 * k + 3] == data[4 * k + 2 * channel + 1];
    FrameOfBytes(out, data, k, channel);
  }

  /** A frame whose two samples both copy the channel's input sample is
      that sample twice. */
  lemma {:induction false} FrameOfBytes(out: seq<byte>, data: seq<byte>, k: nat, channel: nat)
    requires channel < 2 && 4 * k + 4 <= |out| && 4 * k + 4 <= |data|
    requires out[4 * k] == data[4 * k + 2 * channel] && out[4 * k + 1] == data[4 * k + 2 * channel + 1]
    requires out[4 * k + 2] == data[4 * k + 2 * channel] && out[4 * k + 3] == data[4 * k + 2 * channel + 1]
    ensures Frame(out, k) == Sample(data, k, channel) + Sample(data, k, channel)
  {
    var x := Sample(data, k, channel);
    assert out[4 * k] == x[0] && out[4 * k + 1] == x[1];
    assert out[4 * k + 2] == x[0] && out[4 * k + 3] == x[1];
    assert Frame(out, k) == [x[0], x[1], x[0], x[1]];
  }

  /** Every whole frame of the input becomes the channel's sample written
      twice, and the output holds nothing else. */
  lemma {:induction false} ChannelFrames(data: seq<byte>, channel: nat)
    requires channel == 0 || channel == 1
    requires ChannelData(data, channel).Ok?
    ensures |ChannelData(data, channel).value| == 4 * (|data| / 4)
    ensures forall k :: 0 <= k < |data| / 4 ==>
      Frame(ChannelData(data, channel).value, k) == Sample(data, k, channel) + Sample(data, k, channel)
  {
    ChannelDataDefined(data, channel);
    if WholeFrames(data, channel) {
      ChannelDataIs(data, channel);
      forall k | 0 <= k < |data| / 4
        ensures Frame(Extracted(data, channel), k) == Sample(data, k, channel) + Sample(data, k, channel)
      {
        FrameAt(data, channel, k);
      }
    }
  }

  /** Two buffers of `m` frames that agree frame by frame are equal. */
  lemma {:induction false} FramesEqual(a: seq<byte>, b: seq<byte>, m: nat)
    requires |a| == 4 * m && |b| == 4 * m
    requires forall k :: 0 <= k < m ==> Frame(a, k) == Frame(b, k)
    ensures a == b
  {
    forall i | 0 <= i < |a|
      ensures a[i] == b[i]
    {
      var k, q, r := Split4(i, m);
      assert Frame(a, k)[2 * q + r] == Frame(b, k)[2 * q + r];
    }
  }

  /** A sample of a frame that is one sample twice is that sample. */
  lemma {:induction false} SampleOfDoubled(s: seq<byte>, k: nat, channel: nat, x: seq<byte>)
    requires channel < 2 && 4 * k + 4 <= |s| && |x| == 2
    requires Frame(s, k) == x + x
    ensures Sample(s, k, channel) == x
  {
    var f := Frame(s, k);
    assert f[2 * channel] == s[4 * k + 2 * channel] && f[2 * channel + 1] == s[4 * k + 2 * channel + 1];
    if channel == 0 {
      assert f[0] == x[0] && f[1] == x[1];
    } else {
      assert f[2] == x[0] && f[3] == x[1];
    }
    assert Sample(s, k, channel) == [x[0], x[1]];
  }

  /** The output of a whole-frame read has equal left and right samples,
      so either channel of it is the output again. */
  lemma {:induction false} ChannelIdempotent(data: seq<byte>, channel: nat, again: nat)
    requires channel == 0 || channel == 1
    requires again == 0 || again == 1
    requires ChannelData(data, channel).Ok?
    ensures ChannelData(ChannelData(data, channel).value, again) == ChannelData(data, channel)
  {
    ChannelDataDefined(data, channel);
    ChannelFrames(data, channel);
    var m := |data| / 4;
    var out := ChannelData(data, channel).value;
    assert |out| == 4 * m && |out| % 4 == 0 && |out| / 4 == m;
    ChannelDataDefined(out, again);
    ChannelFrames(out, again);
    var out2 := ChannelData(out, again).value;
    forall k | 0 <= k < m
      ensures Frame(out2, k) == Frame(out, k)
    {
      SampleOfDoubled(out, k, again, Sample(data, k, channel));
    }
    FramesEqual(out2, out, m);
  }

  // ---------------------------------------------------------------------------
  // `AudioSource`
  // ---------------------------------------------------------------------------

  /** The decoded buffer, the read position and the channel selector
      (0 both, 1 left, 2 right; `setChannel` stores any value). */
  datatype Source = Source(data: seq<byte>, ptr: nat, channel: int)

  predicate Valid(s: Source) {
    s.ptr <= |s.data|
  }

  /** What `readData` leaves: the source, the value it returns (the bytes,
      `None` for a channel it has no branch for, or what the channel
      extraction raised -- after the pointer has moved), and whether it
      emitted `noDataLeft`. */
  datatype Read = Read(source: Source, value: Result<Option<seq<byte>>>, noDataLeft: bool)

  /** `readData(size)`: at the end of the buffer, signal and return nothing;
      otherwise take up to `size` bytes from the position, move past them,
      and hand them out as the channel asks. */
  function ReadData(s: Source, size: nat): (r: Read)
    requires Valid(s)
    ensures Valid(r.source)
    ensures r.source == s.(ptr := r.source.ptr)
    ensures s.ptr <= r.source.ptr <= s.ptr + size
    ensures r.noDataLeft <==> s.ptr == |s.data|
    ensures r.noDataLeft ==> r.source == s && r.value == Ok(Some([]))
    ensures !r.noDataLeft ==> r.source.ptr == if s.ptr + size < |s.data| then s.ptr + size else |s.data|
    ensures !r.noDataLeft && s.channel == 0 ==> r.value == Ok(Some(s.data[s.ptr..r.source.ptr]))
    ensures !r.noDataLeft && (s.channel == 1 || s.channel == 2) ==>
      var got := ChannelData(s.data[s.ptr..r.source.ptr], s.channel - 1);
      && (r.value.Ok? <==> got.Ok?)
      && (r.value.Ok? ==> r.value.value == Some(got.value))
    ensures !r.noDataLeft && !(0 <= s.channel <= 2) ==> r.value == Ok(None)
  {
    if s.ptr == |s.data| then Read(s, Ok(Some([])), true)
    else
      var start := s.ptr;
      var end := if s.ptr + size < |s.data| then s.ptr + size else |s.data|;
      var t := s.(ptr := end);
      var piece := s.data[start..end];
      if s.channel == 0 then Read(t, Ok(Some(piece)), false)
      else if s.channel == 1 || s.channel == 2 then Read(t, Pick(piece, s.channel - 1), false)
      else Read(t, Ok(None), false)
  }

  /** `getLeft(piece)` or `getRight(piece)` as `readData` returns it. */
  function Pick(piece: seq<byte>, channel: nat): (r: Result<Option<seq<byte>>>)
    requires channel == 0 || channel == 1
    ensures r.Ok? <==> ChannelData(piece, channel).Ok?
    ensures r.Ok? ==> r.value == Some(ChannelData(piece, channel).value)
  {
    var out :- ChannelData(piece, channel);
    Ok(Some(out))
  }

  /** A right-channel read of a 2-byte piece returns no bytes: both
      strides are empty, so the slice assignments delete the buffer. */
  lemma {:induction false} RightPairRead(a: byte, b: byte)
    ensures ReadData(Source([a, b], 0, 2), 2) == Read(Source([a, b], 2, 2), Ok(Some([])), false)
  {
    var data: seq<byte> := [a, b];
    assert data[0..2] == data;
    ChannelDataDefined(data, 1);
  }

  /** `reset()` */
  function Reset(s: Source): (r: Source)
    ensures r.ptr == 0 && r == s.(ptr := 0)
    ensures Valid(r)
  {
    s.(ptr := 0)
  }

  /** `setChannel(channel)` */
  function SetSourceChannel(s: Source, channel: int): (r: Source)
    ensures r.channel == channel && r == s.(channel := channel)
  {
    s.(channel := channel)
  }

  /** Stereo reads of `size` bytes from the position until the empty read. */
  function Drain(s: Source, size: nat): (r: seq<byte>)
    requires Valid(s) && s.channel == 0 && size > 0
    decreases |s.data| - s.ptr
  {
    var rd := ReadData(s, size);
    if rd.noDataLeft then [] else rd.value.value.value + Drain(rd.source, size)
  }

  /** Stereo reads concatenate to the rest of the buffer. */
  lemma {:induction false} DrainIsRest(s: Source, size: nat)
    requires Valid(s) && s.channel == 0 && size > 0
    ensures Drain(s, size) == s.data[s.ptr..]
    decreases |s.data| - s.ptr
  {
    var rd := ReadData(s, size);
    if !rd.noDataLeft {
      DrainIsRest(rd.source, size);
      assert s.data[s.ptr..] == s.data[s.ptr..rd.source.ptr] + s.data[rd.source.ptr..];
    }
  }

  /** After `reset`, stereo reads give the whole buffer again. */
  lemma {:induction false} ReplayAfterReset(s: Source, size: nat)
    requires Valid(s) && s.channel == 0 && size > 0
    ensures Drain(Reset(s), size) == s.data
  {
    DrainIsRest(Reset(s), size);
    assert s.data[0..] == s.data;
  }

  /** Stereo reads of any sizes, in turn, concatenate to the bytes between
      where they start and where they leave the position. */
  function Reads(s: Source, sizes: seq<nat>): (r: (Source, seq<byte>))
    requires Valid(s) && s.channel == 0
    ensures Valid(r.0) && r.0 == s.(ptr := r.0.ptr) && s.ptr <= r.0.ptr
    ensures r.1 == s.data[s.ptr..r.0.ptr]
    decreases |sizes|
  {
    if sizes == [] then (s, [])
    else
      var rd := ReadData(s, sizes[0]);
      var rest := Reads(rd.source, sizes[1..]);
      assert s.data[s.ptr..rest.0.ptr] == s.data[s.ptr..rd.source.ptr] + s.data[rd.source.ptr..rest.0.ptr];
      (rest.0, rd.value.value.value + rest.1)
  }

  // ---------------------------------------------------------------------------
  // `AudioPlayer`
  // ---------------------------------------------------------------------------

  /** `AudioPlayer.State`: 0, 1, 2. */
  datatype State = Stopped | Playing | Paused

  /** The `QAudio.State` values the slot tells apart. */
  datatype DeviceState = Active | Suspended | DeviceStopped | Idle

  const Stereo: int := 0
  const Mono: int := 3

  datatype Signal =
    | ChannelChanged(channel: int)
    | MutedChanged(muted: bool)
    | StateChanged(state: State)
    | VolumeChanged(volume: int)

  /** What a slot does besides updating the player. */
  datatype Effect =
    | Emit(signal: Signal)
    | OutputVolume(level: real)  // `self.output.setVolume(level)`
    | StopOutput                 // `self.output.stop()`

  datatype Player = Player(source: Source, muted: bool, volume: int, state: State, noDataLeft: bool)

  /** The player's own invariant: the volume is a percentage and the source
      position lies in the buffer. */
  predicate PlayerValid(p: Player) {
    0 <= p.volume <= 100 && Valid(p.source)
  }

  /** The player after `__init__` and `open`: position 0, stereo, volume
      100, not muted, stopped. */
  function NewPlayer(data: seq<byte>): (r: Player)
    ensures PlayerValid(r) && r.state == Stopped && !r.muted && r.volume == 100
    ensures r.source == Source(data, 0, Stereo)
  {
    Player(Source(data, 0, Stereo), false, 100, Stopped, false)
  }

  /** `setChannel(channel)`: Mono plays the stereo buffer as it is; the
      signal carries the channel asked for. */
  function SetChannel(p: Player, channel: int): (r: (Player, seq<Effect>))
    ensures r.0 == p.(source := p.source.(channel := r.0.source.channel))
    ensures r.0.source.channel == if channel == Mono then Stereo else channel
    ensures r.1 == [Emit(ChannelChanged(channel))]
  {
    (p.(source := SetSourceChannel(p.source, if channel == Mono then Stereo else channel)),
     [Emit(ChannelChanged(channel))])
  }

  /** `setVolume(volume)`: store the volume clamped to [0, 100], hand a
      hundredth of it to the output, and unmute if muted. */
  function SetVolume(p: Player, volume: int): (r: (Player, seq<Effect>))
    ensures r.0 == p.(volume := r.0.volume, muted := false)
    ensures 0 <= r.0.volume <= 100
    ensures 0 <= volume <= 100 ==> r.0.volume == volume
    ensures volume < 0 ==> r.0.volume == 0
    ensures volume > 100 ==> r.0.volume == 100
    ensures r.1 == [OutputVolume(r.0.volume as real / 100.0), Emit(VolumeChanged(r.0.volume))]
                   + (if p.muted then [Emit(MutedChanged(false))] else [])
  {
    var v := if volume < 0 then 0 else if volume > 100 then 100 else volume;
    (p.(volume := v, muted := false),
     [OutputVolume(v as real / 100.0), Emit(VolumeChanged(v))] + (if p.muted then [Emit(MutedChanged(false))] else []))
  }

  /** `setMuted(muted)` as written: unmuting hands the output the stored
      percentage itself, not a hundredth of it. */
  function SetMutedAsWritten(p: Player, muted: bool): (r: (Player, seq<Effect>))
    ensures r.0 == p.(muted := muted)
    ensures r.1 == [OutputVolume(if muted then 0.0 else p.volume as real), Emit(MutedChanged(muted))]
  {
    (p.(muted := muted), [OutputVolume(if muted then 0.0 else p.volume as real), Emit(MutedChanged(muted))])
  }

  /** `setMuted(muted)` with the output level on the same scale as
      `setVolume`'s: silence, or a hundredth of the stored volume. */
  function SetMuted(p: Player, muted: bool): (r: (Player, seq<Effect>))
    ensures r.0 == p.(muted := muted)
    ensures r.1 == [OutputVolume(if muted then 0.0 else p.volume as real / 100.0), Emit(MutedChanged(muted))]
  {
    (p.(muted := muted), [OutputVolume(if muted then 0.0 else p.volume as real / 100.0), Emit(MutedChanged(muted))])
  }

  /** The output level is always on the 0-to-1 scale the output takes. */
  predicate Level(e: Effect) {
    e.OutputVolume? ==> 0.0 <= e.level <= 1.0
  }

  /** As written, unmuting after `setVolume(50)` sets the output to 50
      where `setVolume` itself set 0.5. */
  lemma {:induction false} UnmuteLevelAsWritten(data: seq<byte>)
    ensures var p1 := SetVolume(NewPlayer(data), 50);
      var p2 := SetMutedAsWritten(p1.0, true);
      var p3 := SetMutedAsWritten(p2.0, false);
      && p1.1[0] == OutputVolume(0.5)
      && p3.1[0] == OutputVolume(50.0)
      && !Level(p3.1[0])
  {
  }

  /** Muting and unmuting restores the level `setVolume` set, and every
      level handed to the output is on the output's scale. */
  lemma {:induction false} UnmuteRestoresLevel(p: Player, volume: int)
    requires PlayerValid(p)
    ensures var p1 := SetVolume(p, volume);
      var p3 := SetMuted(SetMuted(p1.0, true).0, false);
      && p3.0 == p1.0
      && p3.1[0] == p1.1[0]
      && Level(p1.1[0]) && Level(SetMuted(p1.0, true).1[0]) && Level(p3.1[0])
  {
  }

  /** Mute changes only the flag, and the volume that comes back after
      unmuting is the one stored before. */
  lemma {:induction false} MuteKeepsVolume(p: Player, muted: bool)
    ensures SetMuted(p, muted).0.volume == p.volume
    ensures SetMuted(SetMuted(p, true).0, false).0 == p.(muted := false)
  {
  }

  /** Setting the same volume twice: the second call changes nothing and
      emits no `mutedChanged`. */
  lemma {:induction false} SetVolumeIdempotent(p: Player, volume: int)
    ensures var p1 := SetVolume(p, volume).0;
      && SetVolume(p1, volume).0 == p1
      && |SetVolume(p1, volume).1| == 2
  {
  }

  /** `onStateChanged(state)`: Active, Suspended and Stopped map to
      Playing, Paused and Stopped; the state and the signal change only when
      the mapped state differs, and entering Stopped rewinds the source.
      Idle asks the output to stop once the source has run dry. */
  function OnStateChanged(p: Player, d: DeviceState): (r: (Player, seq<Effect>))
    ensures d != Idle ==>
      var target := match d case Active => Playing case Suspended => Paused case _ => Stopped;
      && (p.state == target ==> r == (p, []))
      && (p.state != target ==> r.0.state == target && r.1 == [Emit(StateChanged(target))])
      && (p.state != target && target != Stopped ==> r.0 == p.(state := target))
      && (p.state != target && target == Stopped ==> r.0 == p.(state := Stopped, source := Reset(p.source)))
    ensures d == Idle ==> r.0 == p && r.1 == (if p.noDataLeft then [StopOutput] else [])
  {
    match d
    case Active =>
      if p.state != Playing then (p.(state := Playing), [Emit(StateChanged(Playing))]) else (p, [])
    case Suspended =>
      if p.state != Paused then (p.(state := Paused), [Emit(StateChanged(Paused))]) else (p, [])
    case DeviceStopped =>
      if p.state != Stopped then (p.(state := Stopped, source := Reset(p.source)), [Emit(StateChanged(Stopped))])
      else (p, [])
    case Idle =>
      (p, if p.noDataLeft then [StopOutput] else [])
  }

  /** The same device state reported twice emits once. */
  lemma {:induction false} StateChangeOnce(p: Player, d: DeviceState)
    ensures var p1 := OnStateChanged(p, d).0;
      d != Idle ==> OnStateChanged(p1, d) == (p1, [])
  {
  }

  /** The source's pull: `readData` through the player, whose
      `onNoDataLeft` slot remembers that the source ran dry. */
  function Pull(p: Player, size: nat): (r: (Player, Read))
    requires PlayerValid(p)
    ensures PlayerValid(r.0)
    ensures r.0 == p.(source := r.1.source, noDataLeft := p.noDataLeft || r.1.noDataLeft)
  {
    var rd := ReadData(p.source, size);
    (p.(source := rd.source, noDataLeft := p.noDataLeft || rd.noDataLeft), rd)
  }

  /** Every slot keeps the player's invariant. */
  lemma {:induction false} SlotsKeepValid(p: Player, channel: int, volume: int, muted: bool, d: DeviceState, size: nat)
    requires PlayerValid(p)
    ensures PlayerValid(SetChannel(p, channel).0)
    ensures PlayerValid(SetVolume(p, volume).0)
    ensures PlayerValid(SetMuted(p, muted).0)
    ensures PlayerValid(OnStateChanged(p, d).0)
    ensures PlayerValid(Pull(p, size).0)
  {
  }

  /** Mono and Stereo read the same bytes. */
  lemma {:induction false} MonoIsStereo(p: Player, size: nat)
    requires PlayerValid(p)
    ensures ReadData(SetChannel(p, Mono).0.source, size) == ReadData(SetChannel(p, Stereo).0.source, size)
  {
  }

  /** Once the source has run dry the flag stays set: nothing but a new
      player clears it, not even the rewind on Stopped. */
  lemma {:induction false} NoDataLeftSticky(p: Player, d: DeviceState, size: nat)
    requires PlayerValid(p) && p.noDataLeft
    ensures OnStateChanged(p, d).0.noDataLeft
    ensures Pull(p, size).0.noDataLeft
  {
  }
}
