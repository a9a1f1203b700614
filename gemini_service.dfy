/**
 * The audio side of the generation service: turning the base64 payload of the
 * speech-synthesis reply into an audio buffer, and the way both remote calls
 * map their failures to fixed user-facing messages.
 *
 * The payload is raw PCM: signed 16-bit little-endian samples, interleaved by
 * channel. The remote calls themselves, and the browser's `atob`, are inputs.
 */
module GeminiService {
  import opened Wrappers

  /** An element of a `Uint8Array`. */
  type byte = b: int | 0 <= b < 256

  /** An element of an `Int16Array`. */
  type int16 = s: int | -32768 <= s < 32768

  /** Sample rate requested from the speech endpoint and passed to the decoder. */
  const SampleRate: nat := 24000

  /** The speech endpoint returns mono audio. */
  const NumChannels: nat := 1

  /** The only error the audio call lets its caller see. */
  const AudioFailure: string := "Failed to generate audio from text."

  /** The only error the description call lets its caller see. */
  const DescriptionFailure: string := "Failed to generate music description from Gemini."

  // ---------------------------------------------------------------------------
  // decode: binary string -> bytes
  // ---------------------------------------------------------------------------

  /** Storing a number into a `Uint8Array` keeps it modulo 256. */
  function ToUint8(code: int): (b: byte)
    ensures 0 <= code < 256 ==> b == code
    ensures (b - code) % 256 == 0
  {
    code % 256
  }

  /** A string every code unit of which fits in a byte, as `atob` always returns. */
  predicate IsBinaryString(s: string)
  {
    forall i :: 0 <= i < |s| ==> s[i] as int < 256
  }

  /** The bytes `decode` stores for a binary string: byte `i` is code unit `i`, kept modulo 256. */
  function BinaryToBytes(binary: string): (bytes: seq<byte>)
    ensures |bytes| == |binary|
    ensures forall i :: 0 <= i < |binary| && binary[i] as int < 256 ==> bytes[i] == binary[i] as int
  {
    seq(|binary|, i requires 0 <= i < |binary| => ToUint8(binary[i] as int))
  }

  /** The binary string whose code units are the given bytes (the inverse reading). */
  function BytesToBinary(bytes: seq<byte>): (s: string)
    ensures IsBinaryString(s)
  {
    seq(|bytes|, i requires 0 <= i < |bytes| => bytes[i] as char)
  }

  /** For the strings `atob` returns, decoding loses nothing: the byte count is the string length and byte `i` is code unit `i`. */
  lemma BinaryToBytesExact(binary: string)
    requires IsBinaryString(binary)
    ensures |BinaryToBytes(binary)| == |binary|
    ensures forall i :: 0 <= i < |binary| ==> BinaryToBytes(binary)[i] == binary[i] as int
    ensures BytesToBinary(BinaryToBytes(binary)) == binary
  {
    var bytes := BinaryToBytes(binary);
    forall i | 0 <= i < |binary|
      ensures bytes[i] == binary[i] as int && BytesToBinary(bytes)[i] == binary[i]
    {
      assert bytes[i] == ToUint8(binary[i] as int);
      assert (bytes[i] as char) as int == binary[i] as int;
    }
  }

  /** Every byte sequence is what `decode` returns for some binary string. */
  lemma BytesToBinaryRoundTrip(bytes: seq<byte>)
    ensures BinaryToBytes(BytesToBinary(bytes)) == bytes
  {
    var s := BytesToBinary(bytes);
    forall i | 0 <= i < |bytes| ensures BinaryToBytes(s)[i] == bytes[i] {
      assert s[i] as int == bytes[i];
    }
  }

  /** A string outside the binary range does not survive the byte copy. */
  lemma BinaryToBytesLossy(s: string)
    requires !IsBinaryString(s)
    ensures BytesToBinary(BinaryToBytes(s)) != s
  {
    var i :| 0 <= i < |s| && s[i] as int >= 256;
    assert BytesToBinary(BinaryToBytes(s))[i] as int < 256;
  }

  /** `decode` after `atob`: allocates one byte per code unit and copies them in order. */
  method Decode(binary: string) returns (bytes: array<byte>)
    ensures bytes.Length == |binary|
    ensures bytes[..] == BinaryToBytes(binary)
  {
    var len := |binary|;
    bytes := new byte[len];
    for i := 0 to len
      invariant forall j :: 0 <= j < i ==> bytes[j] == ToUint8(binary[j] as int)
    {
      bytes[i] := ToUint8(binary[i] as int);
    }
  }

  // ---------------------------------------------------------------------------
  // Int16Array view: byte pairs -> signed 16-bit samples
  // ---------------------------------------------------------------------------

  /** The signed 16-bit value stored little-endian in `lo`, `hi`. */
  function Int16LE(lo: byte, hi: byte): (s: int16)
    ensures (s - (lo + 256 * hi)) % 65536 == 0
    ensures s < 0 <==> hi >= 128
  {
    var u := lo + 256 * hi;
    if u < 32768 then u else u - 65536
  }

  /** The two's-complement little-endian bytes of a 16-bit sample. */
  function Int16Bytes(s: int16): (pair: (byte, byte))
  {
    var u := if s < 0 then s + 65536 else s;
    (u % 256, u / 256)
  }

  /** Reading back the bytes of a sample gives the sample. */
  lemma Int16RoundTrip(s: int16)
    ensures Int16LE(Int16Bytes(s).0, Int16Bytes(s).1) == s
  {
  }

  /** Every byte pair is the encoding of exactly the sample read from it. */
  lemma Int16BytesRoundTrip(lo: byte, hi: byte)
    ensures Int16Bytes(Int16LE(lo, hi)) == (lo, hi)
  {
  }

  /** The `Int16Array` over an even-length byte buffer: sample `k` is bytes `2k`, `2k+1`. */
  function Samples(bytes: seq<byte>): (samples: seq<int16>)
    requires |bytes| % 2 == 0
    ensures |samples| == |bytes| / 2
  {
    seq(|bytes| / 2, k requires 0 <= k < |bytes| / 2 => Int16LE(bytes[2 * k], bytes[2 * k + 1]))
  }

  /** The PCM byte encoding of a sample sequence: the inverse of the `Int16Array` view. */
  function EncodeSamples(samples: seq<int16>): (bytes: seq<byte>)
    ensures |bytes| == 2 * |samples|
    ensures forall k :: 0 <= k < |samples| ==>
      (bytes[2 * k], bytes[2 * k + 1]) == Int16Bytes(samples[k])
  {
    if samples == [] then []
    else
      var pair := Int16Bytes(samples[0]);
      [pair.0, pair.1] + EncodeSamples(samples[1..])
  }

  /** Viewing encoded samples as `Int16Array` gives back the samples. */
  lemma SamplesOfEncoded(samples: seq<int16>)
    ensures Samples(EncodeSamples(samples)) == samples
  {
    var bytes := EncodeSamples(samples);
    var view := Samples(bytes);
    assert |view| == |samples|;
    forall k | 0 <= k < |samples| ensures view[k] == samples[k] {
      var pair := Int16Bytes(samples[k]);
      assert (bytes[2 * k], bytes[2 * k + 1]) == pair;
      assert view[k] == Int16LE(pair.0, pair.1);
      Int16RoundTrip(samples[k]);
    }
  }

  /** Every even-length buffer is the encoding of its `Int16Array` view. */
  lemma EncodedOfSamples(bytes: seq<byte>)
    requires |bytes| % 2 == 0
    ensures EncodeSamples(Samples(bytes)) == bytes
  {
    var samples := Samples(bytes);
    var back := EncodeSamples(samples);
    forall j | 0 <= j < |bytes| ensures back[j] == bytes[j] {
      var k := j / 2;
      Int16BytesRoundTrip(bytes[2 * k], bytes[2 * k + 1]);
      assert (back[2 * k], back[2 * k + 1]) == (bytes[2 * k], bytes[2 * k + 1]);
    }
  }

  // ---------------------------------------------------------------------------
  // decodeAudioData: samples -> per-channel normalised floats
  // ---------------------------------------------------------------------------

  /** Scaling of a sample into a float amplitude; exact, since 32768 is a power of two. */
  function Normalize(s: int16): (r: real)
    ensures -1.0 <= r < 1.0
    ensures r * 32768.0 == s as real
    ensures s == -32768 <==> r == -1.0
  {
    s as real / 32768.0
  }

  /** The largest sample maps just below one. */
  lemma NormalizeMax()
    ensures Normalize(32767) == 32767.0 / 32768.0
    ensures forall s: int16 :: Normalize(s) <= Normalize(32767)
  {
  }

  /** Frame `i` of channel `c` sits at interleaved index `i * n + c`, inside the sample buffer. */
  lemma FrameIndexInBounds(len: nat, n: nat, i: nat, c: nat)
    requires 0 < n && c < n && i < len / n
    ensures i * n + c < len
  {
    assert i + 1 <= len / n;
    calc {
      i * n + c;
    <  i * n + n;
    == (i + 1) * n;
    <= (len / n) * n;
    <= len;
    }
  }

  /** Channel `c` of `n` interleaved channels, each sample scaled by 1/32768. */
  function Channel(samples: seq<int16>, n: nat, c: nat): (ch: seq<real>)
    requires 0 < n && c < n
    ensures |ch| == |samples| / n
  {
    seq(|samples| / n, i requires 0 <= i < |samples| / n =>
      FrameIndexInBounds(|samples|, n, i, c);
      Normalize(samples[i * n + c]))
  }

  /** A decoded audio buffer: `length` frames per channel at `sampleRate` frames per second. */
  datatype AudioBuffer = AudioBuffer(sampleRate: nat, length: nat, channels: seq<seq<real>>)
  {
    /** Duration in seconds, as `AudioBuffer.duration` reports it. */
    function Duration(): real
      requires sampleRate > 0
    {
      length as real / sampleRate as real
    }
  }

  /** Why the decoder throws. */
  datatype DecodeError =
    | RangeError    // the `Int16Array` view of an odd number of bytes
    | NotSupported  // `createBuffer` with no channels, no frames or a zero sample rate

  /**
   * What `decodeAudioData` produces from a byte buffer. The frame count is the
   * sample count divided by the channel count, rounded down: a fractional count
   * is truncated by `createBuffer`, and the loop's one extra iteration writes
   * past the end of the channel array, which a typed array ignores.
   */
  function DecodePcm(bytes: seq<byte>, sampleRate: nat, numChannels: nat): (r: Result<AudioBuffer, DecodeError>)
    ensures |bytes| % 2 == 1 ==> r == Failure(RangeError)
    ensures r.Success? ==>
      && r.value.sampleRate == sampleRate
      && |r.value.channels| == numChannels
      && r.value.length * numChannels <= |bytes| / 2
      && forall c :: 0 <= c < numChannels ==> |r.value.channels[c]| == r.value.length
  {
    if |bytes| % 2 != 0 then Failure(RangeError)
    else
      var samples := Samples(bytes);
      if numChannels == 0 || |samples| / numChannels == 0 || sampleRate == 0 then Failure(NotSupported)
      else
        Success(AudioBuffer(sampleRate, |samples| / numChannels,
          seq(numChannels, c requires 0 <= c < numChannels => Channel(samples, numChannels, c))))
  }

  /** When the decoder fails, and with which error. */
  lemma DecodePcmErrors(bytes: seq<byte>, sampleRate: nat, numChannels: nat)
    ensures DecodePcm(bytes, sampleRate, numChannels) == Failure(RangeError) <==> |bytes| % 2 == 1
    ensures DecodePcm(bytes, sampleRate, numChannels) == Failure(NotSupported) <==>
      |bytes| % 2 == 0 && (numChannels == 0 || |bytes| / 2 < numChannels || sampleRate == 0)
  {
    if |bytes| % 2 == 0 && numChannels > 0 {
      assert |Samples(bytes)| == |bytes| / 2;
      DivIsZero(|bytes| / 2, numChannels);
    }
  }

  /** Integer division by a positive number is zero exactly below that number. */
  lemma DivIsZero(a: nat, n: nat)
    requires n > 0
    ensures a / n == 0 <==> a < n
  {
    var q, r := a / n, a % n;
    assert a == n * q + r && 0 <= r < n;
    if q == 0 {
      assert a == r;
    } else {
      assert q >= 1;
      assert n * q >= n by { assert n * q == n * (q - 1) + n; }
    }
  }

  /** A successful decode is a well-formed buffer: the frames times the channels cover every complete frame, and every amplitude lies in [-1, 1). */
  lemma DecodePcmShape(bytes: seq<byte>, sampleRate: nat, numChannels: nat)
    requires DecodePcm(bytes, sampleRate, numChannels).Success?
    ensures var b := DecodePcm(bytes, sampleRate, numChannels).value;
      && b.sampleRate == sampleRate && b.sampleRate > 0
      && |b.channels| == numChannels
      && b.length == (|bytes| / 2) / numChannels && b.length > 0
      && b.length * numChannels <= |bytes| / 2 < (b.length + 1) * numChannels
      && ((|bytes| / 2) % numChannels == 0 ==> b.length * numChannels == |bytes| / 2)
      && b.Duration() > 0.0
      && (forall c :: 0 <= c < numChannels ==> |b.channels[c]| == b.length)
      && (forall c, i :: 0 <= c < numChannels && 0 <= i < b.length ==> -1.0 <= b.channels[c][i] < 1.0)
  {
  }

  /** Channel `c`, frame `i` is interleaved sample `i * numChannels + c`, scaled. */
  lemma DecodePcmAt(bytes: seq<byte>, sampleRate: nat, numChannels: nat, c: nat, i: nat)
    requires DecodePcm(bytes, sampleRate, numChannels).Success?
    requires c < numChannels && i < DecodePcm(bytes, sampleRate, numChannels).value.length
    ensures i * numChannels + c < |bytes| / 2
    ensures DecodePcm(bytes, sampleRate, numChannels).value.channels[c][i]
         == Normalize(Int16LE(bytes[2 * (i * numChannels + c)], bytes[2 * (i * numChannels + c) + 1]))
  {
    FrameIndexInBounds(|bytes| / 2, numChannels, i, c);
  }

  /** No sample of a complete frame is lost or moved: interleaved sample `j` is channel `j % n`, frame `j / n`. */
  lemma DecodePcmKeepsEverySample(bytes: seq<byte>, sampleRate: nat, numChannels: nat, j: nat)
    requires DecodePcm(bytes, sampleRate, numChannels).Success?
    requires j < DecodePcm(bytes, sampleRate, numChannels).value.length * numChannels
    ensures var b := DecodePcm(bytes, sampleRate, numChannels).value;
      j / numChannels < b.length &&
      b.channels[j % numChannels][j / numChannels] * 32768.0 == Samples(bytes)[j] as real
  {
    var b := DecodePcm(bytes, sampleRate, numChannels).value;
    var n := numChannels;
    var i, c := j / n, j % n;
    FrameOf(j, n, b.length);
    DecodePcmAt(bytes, sampleRate, n, c, i);
    assert i * n + c == j;
    assert Samples(bytes)[j] == Int16LE(bytes[2 * j], bytes[2 * j + 1]);
  }

  /** Interleaved index `j` below `len * n` is frame `j / n < len`, channel `j % n`. */
  lemma FrameOf(j: nat, n: nat, len: nat)
    requires j < len * n
    ensures 0 < n && j / n < len && j % n < n
    ensures j == (j / n) * n + j % n
  {
    if 0 < n && len <= j / n {
      MulMonotonic(len, j / n, n);
    }
  }

  /** Multiplying by a natural number keeps the order. */
  lemma MulMonotonic(a: nat, b: nat, n: nat)
    requires a <= b
    ensures a * n <= b * n
  {
  }

  /** Mono audio keeps the sample order: the one channel is the scaled `Int16Array`. */
  lemma DecodePcmMono(bytes: seq<byte>, sampleRate: nat)
    requires DecodePcm(bytes, sampleRate, 1).Success?
    ensures var b := DecodePcm(bytes, sampleRate, 1).value;
      && b.length == |bytes| / 2
      && |b.channels| == 1
      && |b.channels[0]| == |Samples(bytes)|
      && forall k :: 0 <= k < |b.channels[0]| ==> b.channels[0][k] == Normalize(Samples(bytes)[k])
  {
  }

  /** Bytes for the int16 samples 0, 16384, -16384 and 32767 decode to 0, 0.5, -0.5 and 32767/32768 at 24000 Hz. */
  lemma DecodePcmExample()
    ensures var r := DecodePcm([0, 0, 0, 64, 0, 192, 255, 127], SampleRate, NumChannels);
      && r.Success?
      && r.value.length == 4
      && r.value.channels == [[0.0, 0.5, -0.5, 32767.0 / 32768.0]]
      && r.value.Duration() == 4.0 / 24000.0
  {
    var bytes: seq<byte> := [0, 0, 0, 64, 0, 192, 255, 127];
    var samples := Samples(bytes);
    assert samples == [0, 16384, -16384, 32767];
    assert Channel(samples, 1, 0) == [0.0, 0.5, -0.5, 32767.0 / 32768.0];
  }

  /** One pass of the outer loop of `decodeAudioData`: a channel array of one slot per frame, filled with the scaled samples of channel `c`. */
  method FillChannel(dataInt16: seq<int16>, numChannels: nat, c: nat) returns (channelData: array<real>)
    requires 0 < numChannels && c < numChannels
    ensures channelData[..] == Channel(dataInt16, numChannels, c)
  {
    var frameCount := |dataInt16| / numChannels;
    channelData := new real[frameCount];
    for i := 0 to frameCount
      invariant forall k :: 0 <= k < i ==> channelData[k] == Channel(dataInt16, numChannels, c)[k]
    {
      FrameIndexInBounds(|dataInt16|, numChannels, i, c);
      channelData[i] := dataInt16[i * numChannels + c] as real / 32768.0;
    }
  }

  /** `decodeAudioData`: views the bytes as int16, sizes the buffer, then fills each channel array frame by frame. */
  method DecodeAudioData(data: array<byte>, sampleRate: nat, numChannels: nat)
    returns (r: Result<AudioBuffer, DecodeError>)
    ensures r == DecodePcm(data[..], sampleRate, numChannels)
  {
    if data.Length % 2 != 0 {
      return Failure(RangeError);
    }
    var dataInt16 := Samples(data[..]);
    var frameCount := if numChannels == 0 then 0 else |dataInt16| / numChannels;
    if numChannels == 0 || frameCount == 0 || sampleRate == 0 {
      return Failure(NotSupported);
    }
    var channels: seq<seq<real>> := [];
    for channel := 0 to numChannels
      invariant |channels| == channel
      invariant forall c :: 0 <= c < channel ==> channels[c] == Channel(dataInt16, numChannels, c)
    {
      var channelData := FillChannel(dataInt16, numChannels, channel);
      channels := channels + [channelData[..]];
    }
    assert channels == seq(numChannels, c requires 0 <= c < numChannels => Channel(dataInt16, numChannels, c));
    r := Success(AudioBuffer(sampleRate, frameCount, channels));
  }

  // ---------------------------------------------------------------------------
  // The two remote calls: error mapping
  // ---------------------------------------------------------------------------

  /**
   * `generateMusicDescription` over the outcome of the text-generation call:
   * the reply text is returned as is; any failure becomes the fixed message.
   */
  function GenerateMusicDescription(reply: Result<string, string>): (r: Result<string, string>)
    ensures r.Success? <==> reply.Success?
    ensures reply.Success? ==> r.value == reply.value
    ensures r.Failure? ==> r.error == DescriptionFailure
  {
    match reply
    case Success(text) => Success(text)
    case Failure(_) => Failure(DescriptionFailure)
  }

  /**
   * `generateAudioFromText` over the outcome of the speech call (`reply`: the
   * service error, or the inline audio payload if the reply has one) and the
   * browser's `atob` (`None` when it throws). The payload is decoded as mono
   * PCM at 24000 Hz; every failure on the way becomes the fixed message.
   */
  function GenerateAudioFromText(reply: Result<Option<string>, string>, atob: string -> Option<string>)
    : (r: Result<AudioBuffer, string>)
    ensures r.Failure? ==> r.error == AudioFailure
    ensures r.Success? ==> r.value.sampleRate == SampleRate && |r.value.channels| == NumChannels
  {
    match reply
    case Failure(_) => Failure(AudioFailure)
    case Success(payload) =>
      if payload.None? || payload.value == "" then Failure(AudioFailure)  // no audio data received
      else match atob(payload.value)
        case None => Failure(AudioFailure)
        case Some(binary) =>
          match DecodePcm(BinaryToBytes(binary), SampleRate, NumChannels)
          case Failure(_) => Failure(AudioFailure)
          case Success(buffer) => Success(buffer)
  }

  /** A service failure, a reply without audio and an empty payload all surface as the fixed audio message. */
  lemma AudioErrorsAreMasked(reply: Result<Option<string>, string>, atob: string -> Option<string>)
    ensures reply.Failure? || reply == Success(None) || reply == Success(Some("")) ==>
      GenerateAudioFromText(reply, atob) == Failure(AudioFailure)
  {
  }

  /**
   * The audio call succeeds exactly when the payload is present and non-empty,
   * `atob` accepts it and it decodes to a positive even number of bytes; the
   * buffer is then the mono decoding of those bytes, one frame per byte pair.
   */
  lemma AudioSuccess(reply: Result<Option<string>, string>, atob: string -> Option<string>)
    ensures var r := GenerateAudioFromText(reply, atob);
      r.Success? <==>
        && reply.Success? && reply.value.Some? && reply.value.value != ""
        && atob(reply.value.value).Some?
        && |atob(reply.value.value).value| % 2 == 0
        && |atob(reply.value.value).value| >= 2
    ensures var r := GenerateAudioFromText(reply, atob);
      r.Success? ==>
        var bytes := BinaryToBytes(atob(reply.value.value).value);
        && r.value == DecodePcm(bytes, SampleRate, NumChannels).value
        && r.value.sampleRate == 24000
        && r.value.length == |bytes| / 2
        && r.value.Duration() == (|bytes| / 2) as real / 24000.0
  {
    if reply.Success? && reply.value.Some? && reply.value.value != "" && atob(reply.value.value).Some? {
      var bytes := BinaryToBytes(atob(reply.value.value).value);
      DecodePcmErrors(bytes, SampleRate, NumChannels);
    }
  }

  /** An odd byte count behind the payload makes the audio call fail with the fixed message. */
  lemma OddByteCountFails(payload: string, atob: string -> Option<string>)
    requires payload != "" && atob(payload).Some? && |atob(payload).value| % 2 == 1
    ensures GenerateAudioFromText(Success(Some(payload)), atob) == Failure(AudioFailure)
  {
  }
}
