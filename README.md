# AI music app: audio decoding, error mapping and playback transport

This project is a Dafny model of the core of a small browser app. The app
turns a musical idea and lyrics into a spoken-word performance, then plays
it back. The model has two parts.

- **`GeminiService`** (`gemini_service.dfy`) covers the audio side of the generation service.
  - `decode` copies the binary string that `atob` returns into a `Uint8Array`. Each byte is the character's code unit, stored modulo 256.
  - `decodeAudioData` reads those bytes as signed 16-bit little-endian samples. A buffer with an odd byte count makes the `Int16Array` view throw `RangeError`. `createBuffer` throws `NotSupported` when there are no channels, no frames or a zero sample rate (its implementation-defined rate limits are left out).
  - `decodeAudioData` then de-interleaves the samples into one array per channel and scales every sample by 1/32768.
  - The two remote calls map every failure to a fixed message. Their outcomes are inputs to the model, and so is the browser's `atob`.
  - The array-filling loops are methods proved equal to the pure functions `BinaryToBytes` and `DecodePcm`. The properties of the decoder are lemmas about those functions:
    - byte/sample round-trips;
    - frame-count and index-bound relations;
    - amplitude bounds;
    - the exact error cases.
- **`MusicPlayer`** (`music_player.dfy`) covers the player component.
  - The class `Transport` holds the component's state and refs:
    - `isPlaying`, `progress` and `duration`;
    - the start-clock and paused-offset refs;
    - whether an audio context or source node exists.
  - Flags stand for the running source node and the pending animation frame.
  - The audio clock reading `currentTime` is the argument `now`.
  - A ghost log of played stretches shows that the paused offset is always the sum of the stretches played since the last reset. It stays so however many play/pause cycles happen.
  - `formatTime` is modelled with JavaScript's `Math.floor`, its truncating `%`, `Number.prototype.toString` and `padStart`. For a non-negative time it is proved to print `m:ss` with seconds 00–59, and the string reads back as the whole seconds of the time. A negative time prints with minus signs (for instance `-1:-5` for -5 seconds), which is not of that form.

`wrappers.dfy` holds the `Option` and `Result` datatypes.

## Model

| member | source | states |
|---|---|---|
| GeminiService.ToUint8 | services/geminiService.ts:19 | storing a char code into a `Uint8Array` keeps it when below 256 and is congruent to it modulo 256 otherwise |
| GeminiService.BinaryToBytes | services/geminiService.ts:16-20 | the copy has one byte per code unit, and every code unit below 256 is stored unchanged |
| GeminiService.BytesToBinary | services/geminiService.ts:15-19 | every byte sequence corresponds to a binary string, i.e. one whose every code unit is below 256 |
| GeminiService.BinaryToBytesExact | services/geminiService.ts:15-21 | for a binary string (what `atob` returns) the byte array has one byte per character, byte `i` is the code of character `i`, and reading the bytes back as characters gives the string |
| GeminiService.BytesToBinaryRoundTrip | services/geminiService.ts:16-21 | every byte sequence is what the copy produces from some binary string |
| GeminiService.BinaryToBytesLossy | services/geminiService.ts:19 | a string with a code unit of 256 or more does not survive the byte copy |
| GeminiService.Decode | services/geminiService.ts:14-22 | the loop allocates `len` bytes and stores code unit `i` (mod 256) at index `i`, for every `i` |
| GeminiService.Int16LE | services/geminiService.ts:31 | the sample read from a byte pair is congruent to `lo + 256 * hi` modulo 65536 and is negative exactly when the high byte has its top bit set (two's complement) |
| GeminiService.Samples | services/geminiService.ts:31 | the `Int16Array` view of an even-length buffer has half as many samples as bytes; its contents are pinned by the round-trip lemmas below |
| GeminiService.Int16RoundTrip | services/geminiService.ts:31 | the little-endian two's-complement bytes of a sample read back as that sample |
| GeminiService.Int16BytesRoundTrip | services/geminiService.ts:31 | every byte pair is the encoding of the sample read from it |
| GeminiService.EncodeSamples | services/geminiService.ts:31 | encoding `n` samples gives `2n` bytes with sample `k` in bytes `2k`, `2k+1` |
| GeminiService.SamplesOfEncoded | services/geminiService.ts:31 | the `Int16Array` view of encoded samples is those samples |
| GeminiService.EncodedOfSamples | services/geminiService.ts:31 | an even-length buffer is the encoding of its `Int16Array` view, so the view loses nothing |
| GeminiService.Normalize | services/geminiService.ts:38 | every scaled sample lies in [-1, 1), scaling back by 32768 gives the sample exactly, and -1 is reached exactly by -32768 |
| GeminiService.NormalizeMax | services/geminiService.ts:38 | 32767 maps to 32767/32768, the largest amplitude |
| GeminiService.FrameIndexInBounds | services/geminiService.ts:35-38 | for every channel `c < n` and frame `i < len / n` the interleaved index `i * n + c` is inside the sample buffer |
| GeminiService.Channel | services/geminiService.ts:32-39 | a channel array has one entry per whole frame, `samples / n` |
| GeminiService.DecodePcm | services/geminiService.ts:31-41 | an odd byte count fails with `RangeError`; a decoded buffer has the requested sample rate and channel count, every channel has one entry per frame, and the frames of all channels fit inside the samples |
| GeminiService.DecodePcmErrors | services/geminiService.ts:31-33 | decoding fails with `RangeError` exactly for an odd byte count, and with `NotSupported` exactly for an even count with no channels, fewer samples than channels, or a zero sample rate (the only `createBuffer` limits modelled) |
| GeminiService.DecodePcmShape | services/geminiService.ts:31-41 | a decoded buffer has the requested sample rate and channel count, the frame count is the sample count divided by the channel count (exact when it divides), it is positive, the duration is positive, every channel has one entry per frame and every amplitude lies in [-1, 1) |
| GeminiService.DecodePcmAt | services/geminiService.ts:35-39 | channel `c`, frame `i` is the int16 read from bytes `2(i*n+c)` and `2(i*n+c)+1`, scaled by 1/32768, and that index is in bounds |
| GeminiService.DecodePcmKeepsEverySample | services/geminiService.ts:35-39 | every sample of a complete frame appears, unscaled back exactly, at channel `j % n`, frame `j / n` |
| GeminiService.DecodePcmMono | services/geminiService.ts:109 | at the single call site's one channel the frame count is `byteLength / 2` and the channel is the scaled `Int16Array` in order |
| GeminiService.DecodePcmExample | services/geminiService.ts:31-41 | the bytes of int16 samples 0, 16384, -16384, 32767 decode at 24000 Hz to 0, 0.5, -0.5, 32767/32768 with 4 frames and duration 4/24000 |
| GeminiService.FillChannel | services/geminiService.ts:36-39 | the inner loop fills channel `c` so that it equals the scaled de-interleaved channel |
| GeminiService.DecodeAudioData | services/geminiService.ts:25-42 | the method throws or returns exactly what the decoding function specifies, including both error cases |
| GeminiService.GenerateMusicDescription | services/geminiService.ts:72-81 | the call succeeds exactly when the service does, returns its text unchanged, and otherwise fails with the fixed description message |
| GeminiService.GenerateAudioFromText | services/geminiService.ts:84-117 | every failure the caller sees is the fixed audio message, never an inner error; a success is a mono 24000 Hz buffer |
| GeminiService.AudioErrorsAreMasked | services/geminiService.ts:99-102 | a service failure, a reply without audio and an empty payload all surface as the fixed audio message |
| GeminiService.AudioSuccess | services/geminiService.ts:104-116 | the audio call succeeds exactly when the payload is present and non-empty, `atob` accepts it and it yields a positive even number of bytes; the buffer is then the mono 24000 Hz decoding with one frame per byte pair |
| GeminiService.OddByteCountFails | services/geminiService.ts:31 | an odd byte count behind the payload makes the audio call fail with the fixed audio message |
| MusicPlayer.Trunc | components/MusicPlayer.tsx:91 | rounding toward zero: the floor for non-negative numbers, and within one of the number on its side of zero |
| MusicPlayer.JsRem | components/MusicPlayer.tsx:58 | JavaScript's `%` by a positive divisor differs from the dividend by a whole multiple of the divisor (the quotient rounded toward zero); it lies in [0, d) for a non-negative dividend, is the dividend itself below `d`, and lies in (-d, 0] for a negative dividend |
| MusicPlayer.NatToString | components/MusicPlayer.tsx:91-92 | the decimal string of a number is a non-empty run of digits, one digit long exactly below 10, and with no leading zero from 10 on |
| MusicPlayer.NatToStringValue | components/MusicPlayer.tsx:91-92 | the decimal string of `n` denotes `n` |
| MusicPlayer.IntToString | components/MusicPlayer.tsx:91-92 | the decimal string of an integer is non-empty, starts with a minus sign exactly for a negative number, is otherwise digits, and the digits denote the number's absolute value |
| MusicPlayer.PadStart | components/MusicPlayer.tsx:91 | `padStart` returns a string of at least the width unchanged, and otherwise copies of the fill character followed by the string, exactly the width long |
| MusicPlayer.MinutesSeconds | components/MusicPlayer.tsx:90-91 | for a non-negative time, the minutes are non-negative, the seconds lie in 0..59, and `minutes * 60 + seconds` is the floor of the time |
| MusicPlayer.SecondsField | components/MusicPlayer.tsx:91 | the padded seconds field is two digits, the first in 0..5, and denotes the seconds |
| MusicPlayer.ParseColonSplit | components/MusicPlayer.tsx:92 | a digit string, a colon and two digits below 60 read back as minutes times 60 plus seconds |
| MusicPlayer.ClockString | components/MusicPlayer.tsx:92 | the `m:ss` string of minutes and seconds has the colon third from the end, two second digits in 00..59, no leading zero in the minutes, and reads back as `m * 60 + s` |
| MusicPlayer.FormatTime | components/MusicPlayer.tsx:89-93 | the printed time is at least four characters and starts with a minus sign exactly for a negative time |
| MusicPlayer.FormatTimeClock | components/MusicPlayer.tsx:89-93 | for every non-negative time `formatTime` prints `m:ss` with minutes without a leading zero and seconds 00..59, and the string denotes exactly the whole seconds of the time |
| MusicPlayer.FormatTimeExamples | components/MusicPlayer.tsx:89-93 | 125.4 prints as "2:05", 0 as "0:00" and -5 as "-1:-5" |
| MusicPlayer.TotalPlayedNonNegative | components/MusicPlayer.tsx:76 | stretches that each end no earlier than they start add up to a non-negative paused offset |
| MusicPlayer.TotalPlayedConcat | components/MusicPlayer.tsx:76 | the offset accumulated over two runs of play/pause cycles is the sum of the two, so accumulation does not drift |
| MusicPlayer.AppendSpan | components/MusicPlayer.tsx:76 | one more pause adds exactly the stretch since the last start to the accumulated offset and keeps every stretch forward |
| MusicPlayer.Elapsed | components/MusicPlayer.tsx:43 | the progress computed by the frame loop is the paused offset at the instant of the start and never below it afterwards |
| MusicPlayer.Transport.constructor | components/MusicPlayer.tsx:10-26 | a fresh player is stopped at zero with its audio clock at zero; with a buffer it takes the buffer's duration and creates the audio context |
| MusicPlayer.Transport.Cleanup | components/MusicPlayer.tsx:29-38 | the effect cleanup stops any source, cancels the frame loop, and resets to not playing, progress 0 and paused offset 0, changing nothing else |
| MusicPlayer.Transport.ChangeTrack | components/MusicPlayer.tsx:20-39 | a track change runs the cleanup, then takes the new buffer's duration and creates the audio context once |
| MusicPlayer.Transport.Play | components/MusicPlayer.tsx:50-70 | without a context or buffer nothing changes; otherwise a source starts at `pauseTime % duration`, which lies in [0, duration) and equals the paused offset while that is within the track; the start clock becomes `now`, the player is playing and a frame is scheduled, so the progress at that instant is the paused offset |
| MusicPlayer.Transport.Pause | components/MusicPlayer.tsx:72-79 | without a source or context nothing changes; otherwise the source stops, `now - startTime` is added to the paused offset, playing becomes false and the frame loop is cancelled; the paused offset stays the sum of all stretches played |
| MusicPlayer.Transport.TogglePlayPause | components/MusicPlayer.tsx:81-87 | pauses exactly when playing and plays otherwise, with the effects of each; the log of played stretches grows only on a pause |
| MusicPlayer.Transport.Ended | components/MusicPlayer.tsx:60-66 | when the compared progress is at least `duration - 0.1` (near the end or past it) the player resets to stopped at zero; otherwise only the source is no longer running |
| MusicPlayer.Transport.UpdateProgress | components/MusicPlayer.tsx:41-47 | while playing with a context, progress becomes `now - startTime + pauseTime` (never below the paused offset) and the next frame is scheduled; otherwise the loop ends and nothing else changes |
| MusicPlayer.TwoPlayPauseCycles | components/MusicPlayer.tsx:72-87 | four clicks on a freshly mounted player leave the paused offset equal to the two stretches played, with no drift |
| MusicPlayer.NaturalEndCapturedProgress | components/MusicPlayer.tsx:60-66 | with the handler comparing the captured progress (zero), a track longer than 0.1 s that plays to its end is not reset: the player still counts as playing and the next click adds at least the whole track to the paused offset |
| MusicPlayer.NaturalEndLiveProgress | components/MusicPlayer.tsx:60-66 | with the handler comparing the progress at the end of the buffer, the player resets to stopped and the next click plays from offset zero |

## Left out

- The remote text and speech calls (services/geminiService.ts:45-70, 86-97) are not modelled. Neither are their prompts, model and voice names, or the API-key check (services/geminiService.ts:4-10). Each call's outcome is a `Result` argument, and console logging is dropped.
- `atob` is a parameter of type `string -> Option<string>`, where `None` means it throws. The base64 alphabet is not modelled.
- The `outputAudioContext` singleton is not modelled (services/geminiService.ts:104-106). Its sample rate only appears as the constant `SampleRate` passed to the decoder.
- `createBuffer`'s upper limit on the channel count is implementation-defined and is not modelled. A fractional frame count is modelled as truncated.
- GeminiService.DecodePcmErrors: `createBuffer` also throws `NotSupportedError` for a sample rate outside the range the implementation supports, which is at least 8000 to 96000 Hz and varies by browser. Only a zero rate is modelled as failing, so the model decodes, for instance, two bytes at 1 Hz, which a browser rejects. The one call site passes 24000, inside every implementation's range.
- GeminiService.DecodeAudioData: `new Int16Array(data.buffer)` reads the whole underlying `ArrayBuffer`, not just the view `data`. The model reads the array's contents, which is the same only when the array owns a buffer of exactly its own length. That holds at the one call site, because `decode` allocates a fresh `Uint8Array` of exactly the decoded length; a view into a larger buffer is not modelled.
- `Int16Array` is modelled as little-endian, the byte order of every mainstream platform. Big-endian platforms are not modelled.
- GeminiService.Decode: the contract does not state that the array is freshly allocated.
- Web Audio objects are not modelled. This covers the source node's `buffer`, `connect`, `disconnect`, `stop` and `start`, as well as `requestAnimationFrame` and `cancelAnimationFrame`. They are reduced to a running-source flag, the recorded start offset and a scheduled-frame flag. Web Audio also fires `ended` after `stop()`, so a pause is followed by a call of `Ended`. That is not sequenced by the model; `Ended` may be called at any time.
- MusicPlayer.Transport.Ended: React closure capture is not modelled; the compared progress is a parameter. In the source it is always the `progress` of the render that created `play`. `progress` is only ever set to 0 (components/MusicPlayer.tsx:36, 63) and the frame loop never advances it (next line), so that value is always 0, so the natural-end reset fires only for tracks of 0.1 s or less (see Findings).
- MusicPlayer.Transport.UpdateProgress: reads the current `isPlaying`. The source's callback always reads a stale `false`. `togglePlayPause` calls `play` only while `isPlaying` is false (components/MusicPlayer.tsx:82-85), and the `updateProgress` that `play` schedules (components/MusicPlayer.tsx:69) comes from that same render. As written, the frame loop therefore never runs its body and `progress` stays 0. The model describes the intended loop.
- Duration 0 is not modelled. The code has no guard for it: `pauseTime % 0` is NaN and the progress bar divides by zero (components/MusicPlayer.tsx:117). A present buffer is required to have a positive duration, and the progress-bar rendering is not modelled.
- The audio clock is assumed never to go backwards: each transport method requires `now` to be at least the last reading.
- Times are real numbers, not IEEE doubles. `Number.prototype.toString` is modelled in plain decimal; the exponent form it uses for very large or very small numbers is left out.
- `App.tsx`, `components/Toast.tsx`, `components/Loader.tsx`, `components/PromptInput.tsx` and the rendering part of `components/MusicPlayer.tsx` are UI orchestration and timers, and are not part of this model.

## Findings

| source | as written | input that shows it | evidently intended | confidence | as-written member | corrected member |
|---|---|---|---|---|---|---|
| components/MusicPlayer.tsx:60-66 | the `ended` handler compares the `progress` captured when `play` was created, which is always 0 because the frame loop never advances it | a 5 s track played from the start until its buffer runs out | a track that plays to its end resets the player to stopped at zero | high (not executed) | MusicPlayer.NaturalEndCapturedProgress | MusicPlayer.NaturalEndLiveProgress |
