# Streaming text assembler of rkllama (`callback_impl`)

The RKLLM native engine calls `callback_impl` once per generated token. Each call
passes a run state: `RKLLM_RUN_NORMAL`, `RKLLM_RUN_WAITING`, `RKLLM_RUN_FINISH`,
`RKLLM_RUN_ERROR`, or some other value. In the normal state the call also passes a
fragment of raw bytes. The callback keeps three module globals:

- `global_status` holds the last state it was given.
- `split_byte_data` holds bytes that did not decode yet.
- `global_text` is the list of decoded text segments.

In a normal call the pending bytes are joined with the fragment and decoded as strict
UTF-8. On success the text is appended and the buffer is cleared. On failure the whole
join stays pending, so a code point cut across two fragments comes out whole on the
next call. An absent or empty fragment only retries the pending bytes.

The project has three modules:

- `Wrappers` (`wrappers.dfy`): the `Option` type.
- `Utf8` (`utf8.dfy`): the byte syntax of section 4 of RFC 3629, which Python's
  `bytes.decode('utf-8')` enforces. It has `Decode`, its inverse `Encode`, and the
  round trips between them. It also defines `Completable`: the byte strings that some
  further bytes can make valid, i.e. whole code points followed by at most one cut
  code point.
- `Callback` (`callback.dfy`): the callback itself. `Next` is one call as a function
  of the globals before it, and `Run` is a sequence of calls. The lemmas state byte
  conservation, the buffer invariant, append-only text, the split round trip, and the
  "stuck buffer" consequence. The class `Assembler` holds the three globals as fields;
  its method `Handle` is `callback_impl`, and is proved to perform `Next`.

Bytes are integers 0..255. Decoded text is a sequence of Unicode scalar values. A run
state the source does not recognise is `Unknown(code)`. The initial status is a
constructor parameter, because the globals' initial values are set in
`src/variables.py`, which is not part of this model. The buffer and the text start
empty.

The code does not tell a cut code point apart from invalid bytes
(`src/callback.py:51-53`): every decode failure goes to the pending buffer.
`StuckForever` states the result. Once the pending bytes cannot be completed to valid
UTF-8, every later fragment is only added to them, and no text is ever appended again.
`CorruptByteExample` shows this for the byte FF followed by "a". The Finish and Error
states only print (`src/callback.py:19-27`); they add nothing to `global_text`.

## Model

| member | source | states |
|---|---|---|
| Utf8.Decode | src/callback.py:47 | Decoding succeeds exactly when the bytes are valid UTF-8. A decoded text has at most as many code points as there are bytes, and it is non-empty when the bytes are non-empty. |
| Utf8.Encode | src/callback.py:47 | The partner of `Decode`: each code point encodes to 1 to 4 bytes. |
| Utf8.EncodeValid | src/callback.py:47 | Any sequence of scalar values encodes to valid UTF-8. |
| Utf8.EncodeScalar | src/callback.py:47 | One scalar value encodes to one well-formed sequence that decodes back to that scalar. |
| Utf8.UnitRoundTrip | src/callback.py:47 | Every well-formed 1- to 4-byte sequence is the encoding of the scalar it decodes to. |
| Utf8.RejectsIllFormed | src/callback.py:47 | Strict decoding rejects an overlong form, a surrogate, a code point above U+10FFFF, the byte FF and a cut code point. |
| Utf8.DecodeUnitThen | src/callback.py:47 | Bytes that start with a well-formed sequence decode to its code point followed by the decoding of the rest, and fail exactly when the rest fails. |
| Utf8.DecodeFirst | src/callback.py:47 | Valid non-empty bytes start with a well-formed sequence, the rest is valid, and the decoding is that code point followed by the rest's decoding. |
| Utf8.EncodeFirst | src/callback.py:47 | A text encodes to the encoding of its first code point followed by the encoding of the rest. |
| Utf8.DecodeEncode | src/callback.py:47 | Decoding the encoding of any text gives that text back. |
| Utf8.EncodeDecode | src/callback.py:47 | Encoding the decoding of valid bytes gives those bytes back. |
| Utf8.EncodeAppend | src/callback.py:47 | Encoding distributes over joining texts. |
| Utf8.DecodeAppend | src/callback.py:46-53 | Two valid byte strings joined decode to the two decoded texts joined. |
| Utf8.ValidSuffix | src/callback.py:46-53 | If a valid byte string starts with a valid prefix, the rest is valid too. |
| Utf8.LeadAppend | src/callback.py:47 | The well-formed sequence at the start of some bytes is still found there when more bytes follow. |
| Utf8.FinishUnit | src/callback.py:51-53 | The bytes it returns finish a cut code point into one well-formed sequence. |
| Utf8.Completion | src/callback.py:51-53 | A completable byte string becomes valid once the returned bytes are added. |
| Utf8.ExtensionCompletable | src/callback.py:51-53 | A byte string that some extension makes valid is completable. |
| Utf8.CompletableIff | src/callback.py:51-53 | Completable holds exactly when some further bytes make the string valid. |
| Utf8.Stuck | src/callback.py:51-53 | A byte string that cannot be completed stays invalid and uncompletable whatever is appended to it. |
| Callback.Next | src/callback.py:19-79 | One call sets the status to the incoming state, whatever the branch. Finish, Error, Waiting and unknown states leave the buffer and the text unchanged. The text only grows, by at most one segment. |
| Callback.NormalCases | src/callback.py:45-64 | A normal call with a non-empty fragment whose join with the buffer is valid appends that join's decoding and clears the buffer. If the join is invalid, the call makes the join the new buffer and leaves the text alone. With no fragment and an empty buffer only the status changes. With no fragment, a valid non-empty buffer is decoded, appended and cleared, and an invalid one stays. |
| Callback.JoinAppend | src/callback.py:48 | Appending a segment appends its text to the joined text. |
| Callback.AppendDecoded | src/callback.py:46-50 | Appending the decoding of valid bytes adds exactly those bytes to the byte stream: the encoded text followed by the pending bytes. |
| Callback.FragmentConserves | src/callback.py:46-53 | A normal call with a non-empty fragment adds exactly that fragment to the byte stream. |
| Callback.FlushConserves | src/callback.py:54-64 | A normal call with no fragment leaves the byte stream unchanged. |
| Callback.StepConserves | src/callback.py:19-79 | Every call adds to the byte stream exactly the fragment of a normal call, and nothing otherwise. |
| Callback.StepKeepsSettled | src/callback.py:47-64 | Starting from the invariant, one call keeps the buffer either empty or not valid UTF-8, and every segment non-empty. |
| Callback.RunConserves | src/callback.py:46-64 | Over any sequence of calls, the byte stream grows by exactly the normal fragments, joined in order. |
| Callback.RunFromEmpty | src/callback.py:46-64 | From empty globals, the UTF-8 encoding of all segments joined, followed by the buffer, equals all normal fragments received, joined in order. No byte is lost or duplicated. |
| Callback.RunKeepsSettled | src/callback.py:47-64 | The buffer invariant holds after any sequence of calls that starts from it. |
| Callback.RunAppendOnly | src/callback.py:19-79 | Over any sequence of calls the earlier text is kept and at most one segment is appended per call. The status is the state of the last call, so after a final Finish or Error the status is that state. |
| Callback.StuckStep | src/callback.py:51-64 | When the buffer cannot be completed, one call appends no text, adds the fragment to the buffer, and leaves it uncompletable. |
| Callback.StuckForever | src/callback.py:51-53 | Once the buffer cannot be completed, no later sequence of calls appends text. The buffer becomes the old one followed by every normal fragment received. |
| Callback.CorruptByteExample | src/callback.py:51-53 | After the fragments FF and "a" nothing has been appended, and both bytes are pending. |
| Callback.DeliverValid | src/callback.py:46-50 | On an empty buffer, a valid fragment is appended whole and the buffer stays empty. |
| Callback.SplitBetween | src/callback.py:46-50 | When the cut falls between code points, the first call appends the first half's decoding and leaves the buffer empty. After the second call the buffer is empty and the joined text has grown by the decoding of the whole string. |
| Callback.SplitInside | src/callback.py:46-53 | When the cut falls inside a code point, the first call puts the first half in the buffer and leaves the text unchanged. The second call appends exactly one segment, the whole string's decoding, and empties the buffer. |
| Callback.SplitRoundTrip | src/callback.py:45-53 | A valid UTF-8 string cut at any byte offset, even inside a code point, and delivered as two normal fragments on an empty buffer leaves the buffer empty. The joined text then grows by exactly that string. |
| Callback.SplitCodePointExample | src/callback.py:45-53 | The bytes C3 and A9 of "é", delivered in two calls, give the single segment "é" and an empty buffer. |
| Callback.Assembler.constructor | src/callback.py:17 | The globals start with an empty buffer, no text and the given status, and satisfy both invariants. |
| Callback.Assembler.Handle | src/callback.py:7-79 | `callback_impl` changes the three globals exactly as `Next` does. It sets the status to the incoming state and adds the normal fragment to the record of bytes received. It keeps byte conservation, and it keeps the buffer invariant when that invariant held before. |

## Left out

- Output to stdout: the `print` calls and `sys.stdout.flush` (`src/callback.py:21-22, 26-27, 49, 60, 67, 69`). The modelled observable is `global_text`.
- The ctypes plumbing: the pointer and `contents` checks and the `bytes(...)` coercion (`src/callback.py:35-43`). The fragment is an optional byte sequence, and absent and empty are treated alike, as the truthiness test at line 35 does.
- Next, Handle and the conservation lemmas assume that the `print` at `src/callback.py:49` and `src/callback.py:60` never raises. In the source, such a print runs after the segment is appended (line 48 or 59) and before the buffer is cleared (line 50 or 61). If it raises, for example BrokenPipeError or UnicodeEncodeError on a non-UTF-8 stdout, the catch-all handler at lines 66-67 swallows the exception. The segment then stays in `global_text`, but `split_byte_data` keeps its old bytes, and the next call decodes them a second time. Those bytes are then duplicated, and after the flush path the buffer can be valid and non-empty. RunFromEmpty's "no byte lost or duplicated" and the Settled invariant hold only when printing succeeds.
- The engine gives the fragment as a NUL-terminated C string, so in practice it never contains a 00 byte. The model allows any bytes.
- The numeric values of `LLMCallState`: `src/classes.py` is not part of this model. An unrecognised state is `Unknown(code)`.
- The globals' initial values: `src/variables.py` is not part of this model. The buffer and the text start empty, and the status is a parameter.
- Other threads reading `global_status` and `global_text`: concurrency is not modelled.
- `src/rkllm.py`: the foreign-function layer (parameter structs, sampling settings, `rkllm_init`, `run`, `abort`, `destroy`, `clear_kv_cache`, LoRA and prompt-cache loading, the EOS token append). It only calls into the native engine.
- Placeholder-token recognition, thinking-block markers, and Finish or Error segments in the text: this version of `callback_impl` has none of them.
