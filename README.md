# CharReader: a verified model of the markdown parser's look-ahead reader

The markdown parser reads its input through `CharReader`
(`src/lmarkdown/char_reader.rs`). `CharReader` wraps a byte source and keeps a
look-ahead buffer of bytes it has pulled from that source but not yet handed
out.

- `peek`, `peek_string` and `peek_char` look ahead without consuming.
- `Read::read` consumes. It takes from the look-ahead buffer first and then from
  the source.
- `read_exact`, `read_string` and `read_char` are built on `Read::read`.
- `read_until` consumes characters while a predicate holds.

The model has five modules:

- `Wrappers` (wrappers.dfy): `Option` and `Result`.
- `Bytes` (bytes.dfy): the `byte` type.
- `Utf8` (utf8.dfy): the UTF-8 grammar of section 4 of RFC 3629, written as a
  predicate, together with a decoder and an encoder. `String::from_utf8` is
  modelled by the decoder.
- `ReaderSpec` (reader_spec.dfy): the reader's behaviour as functions on its
  state. The state is the look-ahead buffer plus the bytes the source has not
  yielded yet. The module also holds the lemmas that say what those functions
  mean.
- `CharReaders` (char_reader.dfy): the class `CharReader`. Its fields are
  updated in place, as in the Rust code, and every method is proved against
  the `ReaderSpec` functions. The module also contains the `test_peek`
  scenario, proved to give exactly the outputs the Rust test asserts.

The class invariant `Valid()` states the consumption invariant: the look-ahead
buffer followed by the unread source is the input minus what consuming reads
have delivered.

The source is an in-memory slice (`&[u8]`), as in the test. It is kept as the
sequence of bytes it has not yet yielded. A read of `k` bytes yields
`min(k, remaining)` of them and shortens the sequence by that many.

The model follows what the code does, including where that differs from
what a reader of its names and comments might expect:

- The comment at line 19 says the early-copy branch returns the bytes when
  the look-ahead buffer already covers `buf`. It does not return (lines
  20-23). `peek` always goes on to pull up to `buf.len()` more bytes from the
  source, so the buffer grows ahead of demand.
- `peek` fails with end-of-input exactly when that pull yields nothing
  (lines 28-33). This holds even when the buffer already held enough bytes,
  and in particular for an empty `buf`.
- When some bytes were pulled but fewer than `buf.len()` are available,
  `peek` succeeds (line 36). The part of `buf` it could not fill keeps its
  old contents, which for `peek_string` are zeros (line 40).
- With bytes buffered, `read` copies the whole zero-filled inner buffer into
  `buf` (lines 89-93). The part of `buf` that the source could not fill is
  therefore zeroed, not left as it was.
- The test peeks `"is"` twice (lines 108 and 111).

## Model

| member | source | states |
|---|---|---|
| `Utf8.Decode` | src/lmarkdown/char_reader.rs:42-43 | `String::from_utf8` as a decoder: it yields the code points or `None`, and never more characters than bytes. What it accepts and returns is stated by the three lemmas below. |
| `Utf8.DecodeIffWellFormed` | src/lmarkdown/char_reader.rs:42-43 | The decoder behind `String::from_utf8` succeeds exactly on byte sequences that follow the RFC 3629 grammar. |
| `Utf8.DecodeEncode` | src/lmarkdown/char_reader.rs:42-43 | Decoding the UTF-8 bytes of any text gives that text back. |
| `Utf8.EncodeDecode` | src/lmarkdown/char_reader.rs:42-43 | The text decoded from any accepted byte sequence has exactly those bytes as its encoding. |
| `Utf8.EncodeWellFormed` | src/lmarkdown/char_reader.rs:42-43 | The encoding of any text is well-formed UTF-8. |
| `ReaderSpec.Zeros` | src/lmarkdown/char_reader.rs:40 | `vec![0; n]` (also at lines 53 and 89) has length `n` and holds only zeros. |
| `ReaderSpec.CursorRead` | src/lmarkdown/char_reader.rs:22 | A `Cursor` or slice read (also at lines 35, 79, 85 and 90) keeps the destination's length. Its body copies as many source bytes as fit to the front and leaves the rest. `CopyIsCursorRead` and `CopyFrontIsCursorRead` tie it to the copy the methods perform. |
| `ReaderSpec.CopyIsCursorRead` | src/lmarkdown/char_reader.rs:79 | Writing as much of the source as fits over `buf[lo..]` is exactly a cursor read into that slice. |
| `ReaderSpec.CopyFrontIsCursorRead` | src/lmarkdown/char_reader.rs:34-35 | Writing as much of the look-ahead buffer as fits over the front of `buf` is exactly a cursor read into `buf`. |
| `ReaderSpec.FromUtf8` | src/lmarkdown/char_reader.rs:55-56 | The conversion succeeds if and only if the bytes are well-formed UTF-8; otherwise it fails with the "String contains invalid utf-8" error. |
| `ReaderSpec.FromUtf8Bytes` | src/lmarkdown/char_reader.rs:55-56 | A successful conversion returns the one text whose bytes are the converted bytes. |
| `ReaderSpec.FromUtf8Encode` | src/lmarkdown/char_reader.rs:42-43 | Every text's own bytes convert back to that text. |
| `ReaderSpec.FromUtf8Ascii` | src/lmarkdown/char_reader.rs:42-49 | On bytes below 0x80, the text conversion and the byte-by-byte `as char` conversion give the same characters. |
| `ReaderSpec.ByteChar` | src/lmarkdown/char_reader.rs:49 | `b as char` is the character whose code point is the byte's value. |
| `ReaderSpec.Pulled` | src/lmarkdown/char_reader.rs:25-27 | `take(n).read_to_end` pulls at most `n` bytes and at most what the source holds, and it pulls one of the two. |
| `ReaderSpec.AfterPeek` | src/lmarkdown/char_reader.rs:25-27 | After a peek, the unconsumed input is unchanged. The look-ahead buffer keeps its old bytes as a prefix and grows by the pulled count, even when it already covered the request. |
| `ReaderSpec.PeekResult` | src/lmarkdown/char_reader.rs:28-36 | Peek fails with "Unexpected EOF when peeking" exactly when `buf` is empty or the source is exhausted, however much the look-ahead buffer holds. Otherwise it returns the positive pulled count. |
| `ReaderSpec.PeekFill` | src/lmarkdown/char_reader.rs:20-35 | What `peek` leaves in `buf`, of unchanged length. On success, or when the early copy ran, it is a cursor read of the grown look-ahead buffer; otherwise `buf` is untouched. `PeekShowsNext` and `PeekFillAtEnd` state what it holds. |
| `ReaderSpec.PeekFillAtEnd` | src/lmarkdown/char_reader.rs:20-33 | A failing peek leaves in `buf` the early copy from the look-ahead buffer if it covered `buf`, and leaves `buf` untouched otherwise. |
| `ReaderSpec.PeekShowsNext` | src/lmarkdown/char_reader.rs:34-35 | A successful peek puts the next unconsumed input bytes at the front of `buf`, as many as the grown buffer holds, and leaves the rest of `buf` as it was. |
| `ReaderSpec.PeekDoesNotConsume` | src/lmarkdown/char_reader.rs:34-35 | After a successful peek, a read of the same length delivers at least as many bytes as the peek showed, and they are the same bytes. |
| `ReaderSpec.ReadCount` | src/lmarkdown/char_reader.rs:77-97 | A read delivers the requested count or everything left, whichever is smaller, never more than `buf.len()`. |
| `ReaderSpec.Consume` | src/lmarkdown/char_reader.rs:82-86 | Consuming `k` bytes removes a prefix of length `k` from the unconsumed input. It leaves the source alone while the buffer suffices and empties the buffer otherwise. |
| `ReaderSpec.ConsumeTwice` | src/lmarkdown/char_reader.rs:82-86 | Consuming `a` bytes and then `b` bytes is the same as consuming `a + b` bytes. |
| `ReaderSpec.ReadFill` | src/lmarkdown/char_reader.rs:78-94 | What `read` leaves in `buf`, of unchanged length: the source's read when nothing is buffered, otherwise the buffered bytes followed by a zero-padded read of the source. `ReadDelivers` states what it holds. |
| `ReaderSpec.ReadFromInner` | src/lmarkdown/char_reader.rs:78-80 | With an empty look-ahead buffer, a read is a plain read from the source. |
| `ReaderSpec.ReadFromBuffer` | src/lmarkdown/char_reader.rs:82-94 | With bytes buffered, the count is the buffered count plus the source's count. What is left is the rest of the buffer and the rest of the source. The destination holds the buffered bytes, then a zero-padded read of the source. |
| `ReaderSpec.ReadBufferedFill` | src/lmarkdown/char_reader.rs:88-94 | Copying the split-off buffer into `buf` and then copying the whole zero-filled inner buffer after it gives the read's destination contents. |
| `ReaderSpec.ReadDelivers` | src/lmarkdown/char_reader.rs:77-97 | A read delivers the next unconsumed bytes. The rest of the destination is left as it was when nothing was buffered, and zeroed when something was. |
| `ReaderSpec.ReadExactStep` | src/lmarkdown/char_reader.rs:54 | In one round of `read_exact`, a read into the unfilled rest of the buffer extends the correct prefix by the bytes that read delivers. |
| `ReaderSpec.PeekString` | src/lmarkdown/char_reader.rs:39-44 | `peek_string(n)` fails with EOF exactly when the peek does. Otherwise it converts the zeroed `n`-byte buffer after the peek. |
| `ReaderSpec.PeekStringAvailable` | src/lmarkdown/char_reader.rs:39-44 | For `0 < n` no larger than the unconsumed input, and while the source is not exhausted, `peek_string(n)` converts exactly the next `n` bytes. (For `n = 0` the peek pulls nothing and fails; see `PeekResult`.) |
| `ReaderSpec.PeekChar` | src/lmarkdown/char_reader.rs:46-50 | `peek_char` succeeds if and only if the source is not exhausted, returns the next byte as a character, and otherwise fails with the peek EOF error. |
| `ReaderSpec.ReadString` | src/lmarkdown/char_reader.rs:52-57 | `read_string(n)` fails with "failed to fill whole buffer" when fewer than `n` bytes remain. Otherwise it converts exactly the next `n` bytes. |
| `ReaderSpec.ReadChar` | src/lmarkdown/char_reader.rs:59-63 | `read_char` succeeds if and only if input remains, and then returns the next byte as a character. Otherwise it fails with the fill EOF error. |
| `ReaderSpec.PeekStringThenReadString` | src/lmarkdown/char_reader.rs:39-57 | For `0 < n` no larger than the unconsumed input, and while the source is not exhausted, the `read_string(n)` after a `peek_string(n)` returns exactly what the peek returned. That result can fail only with the UTF-8 error. |
| `ReaderSpec.PeekStringPastEnd` | src/lmarkdown/char_reader.rs:36-57 | When `n` exceeds the unconsumed input but the source is not exhausted, `peek_string(n)` converts the rest of the input padded with zeros, and the `read_string(n)` after it fails with "failed to fill whole buffer". |
| `ReaderSpec.ReadUntil` | src/lmarkdown/char_reader.rs:65-73 | `read_until` on the unconsumed bytes: its result and how many bytes it consumes, never more than remain. `ReadUntilLongestPrefix` states what the result is. |
| `ReaderSpec.ReadUntilTakes` | src/lmarkdown/char_reader.rs:68-71 | A character `op` accepts is kept, and `read_until` goes on after it. |
| `ReaderSpec.ReadUntilStops` | src/lmarkdown/char_reader.rs:67-72 | A character `op` rejects ends `read_until`. It is consumed, and nothing more is kept. |
| `ReaderSpec.ReadUntilAfter` | src/lmarkdown/char_reader.rs:68-70 | After one round of the loop, the accepted character joins the characters taken, and the outcome of the whole call is unchanged. |
| `ReaderSpec.ReadUntilEnd` | src/lmarkdown/char_reader.rs:68-72 | When the loop stops at a rejected character, the call returns the characters taken and has consumed them and the terminator. |
| `ReaderSpec.ReadUntilLongestPrefix` | src/lmarkdown/char_reader.rs:65-73 | `read_until` succeeds if and only if some remaining character fails `op`. It then returns the longest prefix satisfying `op` and consumes that prefix plus the terminator. Otherwise it fails with EOF, having consumed everything. |
| `CharReaders.CopyInto` | src/lmarkdown/char_reader.rs:91-93 | The copy loop writes the source bytes into the destination from the given index and changes nothing else. |
| `CharReaders.CharReader.constructor` | src/lmarkdown/char_reader.rs:11-16 | A new reader has an empty look-ahead buffer, the whole input as its source, and nothing consumed. |
| `CharReaders.CharReader.TakeReadToEnd` | src/lmarkdown/char_reader.rs:25-27 | Moves the pulled bytes from the source to the end of the look-ahead buffer, preserving the invariant. |
| `CharReaders.CharReader.InnerRead` | src/lmarkdown/char_reader.rs:79 | A slice read copies as much of the source as fits into `buf[lo..]` and advances the source by that count. |
| `CharReaders.CharReader.Peek` | src/lmarkdown/char_reader.rs:18-37 | Peek preserves the invariant and consumes nothing. Its new state, its result and the new contents of `buf` are those of `AfterPeek`, `PeekResult` and `PeekFill`. |
| `CharReaders.CharReader.DrainBuffer` | src/lmarkdown/char_reader.rs:82-86 | `split_off` and the cursor read move the first `min(buffered, room)` bytes into `buf[lo..]` and keep the rest as the new look-ahead buffer. |
| `CharReaders.CharReader.FillFromInner` | src/lmarkdown/char_reader.rs:88-94 | Reads the source into a zeroed buffer as long as the rest of `buf` and copies all of it, padding included, after the buffered bytes. |
| `CharReaders.CharReader.ReadUnbuffered` | src/lmarkdown/char_reader.rs:78-80 | With nothing buffered, `read` is the source's read: `ReadCount` bytes are delivered and consumed, and the invariant is kept. |
| `CharReaders.CharReader.ReadBuffered` | src/lmarkdown/char_reader.rs:82-96 | With bytes buffered, `read` delivers and consumes `ReadCount` bytes, leaves `buf` as `ReadFill` says, and keeps the invariant. |
| `CharReaders.CharReader.Read` | src/lmarkdown/char_reader.rs:77-97 | `Read::read` keeps the invariant and consumes exactly the count it returns, which is `ReadCount`. The destination ends up as `ReadFill` says. |
| `CharReaders.CharReader.ReadMore` | src/lmarkdown/char_reader.rs:54 | One round of `read_exact` extends the filled prefix with the next input bytes. A round that delivers nothing happens only when the buffer is full or the input is exhausted. |
| `CharReaders.CharReader.ReadExact` | src/lmarkdown/char_reader.rs:54 | `read_exact` succeeds if and only if the input holds enough bytes, otherwise it fails with "failed to fill whole buffer". It consumes `ReadCount` bytes and leaves them at the front of `buf`. |
| `CharReaders.CharReader.PeekString` | src/lmarkdown/char_reader.rs:39-44 | `peek_string` consumes nothing, leaves the state `AfterPeek` gives, and returns `ReaderSpec.PeekString`. |
| `CharReaders.CharReader.PeekChar` | src/lmarkdown/char_reader.rs:46-50 | `peek_char` consumes nothing, leaves the state `AfterPeek` gives, and returns `ReaderSpec.PeekChar`. |
| `CharReaders.CharReader.ReadString` | src/lmarkdown/char_reader.rs:52-57 | `read_string` consumes what `read_exact` does and returns `ReaderSpec.ReadString`. |
| `CharReaders.CharReader.ReadChar` | src/lmarkdown/char_reader.rs:59-63 | `read_char` consumes one byte if there is one and returns `ReaderSpec.ReadChar`. |
| `CharReaders.CharReader.ReadUntil` | src/lmarkdown/char_reader.rs:65-73 | The loop returns what `ReaderSpec.ReadUntil` gives for the unconsumed input and consumes exactly the count it gives. |
| `CharReaders.TestInputLayout` | src/lmarkdown/char_reader.rs:102 | The words of the test input convert to the texts the test compares against. |
| `CharReaders.TestFirstWord` | src/lmarkdown/char_reader.rs:103-105 | On the test input, `peek_string(4)`, `read_string(4)` and `read_char` give "This", "This" and ' '. |
| `CharReaders.TestPeekTwice` | src/lmarkdown/char_reader.rs:107-108 | Next, `peek_string(3)` and `peek_string(2)` give "is " and "is", and the second peek pulls two more bytes. |
| `CharReaders.TestPeekThenRead` | src/lmarkdown/char_reader.rs:110-112 | Next, `peek_char`, `peek_string(2)` and `read_string(10)` give 'i', "is" and "is a piece". |
| `CharReaders.TestLastWord` | src/lmarkdown/char_reader.rs:114-117 | Next, `peek_char`, `read_char` and `read_string(7)` give ' ', ' ' and "of text", and the final `read_char` fails with EOF. |
| `CharReaders.TestSteps` | src/lmarkdown/char_reader.rs:103-117 | The whole sequence of calls on a reader over input with the test's layout gives the twelve outputs in order. |
| `CharReaders.TestPeek` | src/lmarkdown/char_reader.rs:100-119 | On "This is a piece of text", the test's calls return exactly the values the test asserts, and the last `read_char` is an error. |

## Left out

- `src/lib.rs` (site rendering over the filesystem, error wrapping) and `examples/lyrx/src/main.rs` (configuration and logging) are not part of this model.
- The source is an in-memory byte slice, not an arbitrary `Read`. A slice read cannot fail and yields `min(room, remaining)` bytes, so the model has no short reads, no interrupted reads and no I/O errors from the source.
- `io::Error` kinds are reduced to a single end-of-input error carrying its message (`Eof`). `ParseError::invalid` becomes `Invalid` with its message.
- `CharReaders.CharReader.Read`: returns a count rather than an `io::Result`, because a read from a slice never fails.
- `CharReaders.CharReader.ReadExact`: on failure it states only the delivered prefix of `buf`. Like the standard library, it promises nothing about the rest of `buf`.
- `CharReaders.CharReader.ReadUntil`: `op` is a total Dafny function `char -> bool`, not a Rust `fn` pointer. Its effects, if any, are not modelled.
- `usize` widths are not modelled; lengths are unbounded naturals. With an in-memory source, `u64`/`usize` overflow of `take(buf.len() as u64)` and of the read counts cannot arise.
- `CharReaders.TestPeek`: proves the values the test compares. The test function's own `Result` plumbing (`?`, `Ok(())`) is not modelled.
