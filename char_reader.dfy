/**
  `CharReader`: a look-ahead reader over a byte source, the base of the
  markdown parser. The source is an in-memory byte slice (`&[u8]`), kept as
  the sequence of bytes it has not yet yielded; reading from it shortens it.
  Every method is proved against the functions of ReaderSpec.
*/
module CharReaders {
  import opened Wrappers
  import opened Bytes
  import Utf8
  import opened ReaderSpec

  /**
    Copies `src` into `dst` from index `at` on: what a `Cursor` read or a
    slice read does to the part of the destination it fills.
  */
  method CopyInto(src: seq<byte>, dst: array<byte>, at: nat)
    requires at + |src| <= dst.Length
    modifies dst
    ensures dst[..] == old(dst[..at]) + src + old(dst[at + |src|..])
  {
    for i := 0 to |src|
      invariant forall j :: 0 <= j < dst.Length ==>
        dst[j] == if at <= j < at + i then src[j - at] else old(dst[j])
    {
      dst[at + i] := src[i];
    }
    assert dst[..] == old(dst[..at]) + src + old(dst[at + |src|..]) by {
      var want := old(dst[..at]) + src + old(dst[at + |src|..]);
      forall j | 0 <= j < dst.Length ensures dst[j] == want[j] {
        if j < at {
        } else if j < at + |src| {
          assert want[j] == src[j - at];
        } else {
          assert want[j] == old(dst[at + |src|..])[j - at - |src|];
        }
      }
    }
  }

  /** The outputs of the reader test, in order. */
  datatype Output = Text(text: string) | Char(c: char) | Failure(error: ParseError)

  class CharReader {
    /** The source: the bytes of the slice that it has not yet yielded. */
    var inner: seq<byte>
    /** Bytes pulled from the source by `peek` and not yet read. */
    var peekBuffer: seq<byte>

    /** The whole input the reader was created over. */
    ghost const input: seq<byte>
    /** How many bytes of `input` consuming reads have delivered. */
    ghost var consumed: nat

    /** The look-ahead buffer followed by the unread source is the unconsumed input. */
    ghost predicate Valid()
      reads this
    {
      consumed <= |input| && peekBuffer + inner == input[consumed..]
    }

    /** The reader as ReaderSpec describes it: the look-ahead buffer and the unread source. */
    function Abstract(): ReaderSpec.State
      reads this
    {
      ReaderSpec.State(peekBuffer, inner)
    }

    /** `CharReader::new`: nothing buffered, nothing consumed. */
    constructor (input: seq<byte>)
      ensures Valid() && this.input == input && consumed == 0
      ensures Abstract() == ReaderSpec.State([], input)
    {
      this.inner := input;
      this.peekBuffer := [];
      this.input := input;
      this.consumed := 0;
    }

    /**
      `(&mut inner).take(n).read_to_end(&mut peek_buffer)`: moves up to `n`
      bytes from the source to the end of the look-ahead buffer.
    */
    method TakeReadToEnd(n: nat) returns (read: nat)
      requires Valid()
      modifies this`inner, this`peekBuffer
      ensures Valid()
      ensures read == Pulled(old(Abstract()), n)
      ensures Abstract() == AfterPeek(old(Abstract()), n)
    {
      read := Min(n, |inner|);
      peekBuffer := peekBuffer + inner[..read];
      inner := inner[read..];
    }

    /** `<&[u8] as Read>::read` into the slice `buf[lo..]`. */
    method InnerRead(buf: array<byte>, lo: nat) returns (n: nat)
      requires lo <= buf.Length
      modifies this`inner, buf
      ensures n == Min(buf.Length - lo, |old(inner)|)
      ensures inner == old(inner)[n..]
      ensures buf[..] == old(buf[..lo]) + CursorRead(old(inner), old(buf[lo..]))
    {
      ghost var b := buf[..];
      n := Min(buf.Length - lo, |inner|);
      CopyInto(inner[..n], buf, lo);
      CopyIsCursorRead(b, lo, inner, n);
      inner := inner[n..];
    }

    /**
      `peek`: pulls up to `buf.Length` more bytes into the look-ahead buffer
      and copies the front of that buffer into `buf`. The early copy when
      the buffer already holds enough does not return; the pull happens in
      every case, and pulling nothing is end-of-input.
    */
    method Peek(buf: array<byte>) returns (r: Result<nat, ParseError>)
      requires Valid()
      modifies this, buf
      ensures Valid() && consumed == old(consumed)
      ensures Abstract() == AfterPeek(old(Abstract()), buf.Length)
      ensures r == PeekResult(old(Abstract()), buf.Length)
      ensures buf[..] == PeekFill(old(Abstract()), old(buf[..]))
    {
      ghost var s := Abstract();
      ghost var dst := buf[..];
      if |peekBuffer| >= buf.Length {
        CopyInto(peekBuffer[..buf.Length], buf, 0);
        CopyFrontIsCursorRead(dst, s.buffer, buf.Length);
      }
      ghost var before := buf[..];
      var read := TakeReadToEnd(buf.Length);
      if read == 0 {
        PeekFillAtEnd(s, dst);
        return Err(Eof(PeekEofMessage));
      }
      var m := Min(buf.Length, |peekBuffer|);
      CopyInto(peekBuffer[..m], buf, 0);
      CopyFrontIsCursorRead(before, peekBuffer, m);
      if |s.buffer| >= buf.Length {
        CursorReadCovers(peekBuffer, before, dst);
      }
      return Ok(read);
    }

    /**
      The first half of `Read::read` with a non-empty look-ahead buffer:
      splits off as much of the buffer as fits in `buf[lo..]` and copies it
      there; the rest of the buffer is kept.
    */
    method DrainBuffer(buf: array<byte>, lo: nat) returns (amount: nat)
      requires lo <= buf.Length
      modifies this`peekBuffer, buf
      ensures amount == Min(|old(peekBuffer)|, buf.Length - lo)
      ensures peekBuffer == old(peekBuffer)[amount..]
      ensures buf[..] == old(buf[..lo]) + old(peekBuffer)[..amount] + old(buf[lo + amount..])
    {
      amount := Min(|peekBuffer|, buf.Length - lo);
      var newPeekBuffer := peekBuffer[amount..];
      peekBuffer := peekBuffer[..amount];
      CopyInto(peekBuffer, buf, lo);
      peekBuffer := newPeekBuffer;
    }

    /**
      The second half of `Read::read` with a non-empty look-ahead buffer:
      reads the source into a zeroed buffer as long as the rest of `buf`, and
      copies all of that buffer, padding included, into `buf[at..]`.
    */
    method FillFromInner(buf: array<byte>, at: nat) returns (fromInner: nat)
      requires at <= buf.Length
      modifies this`inner, buf
      ensures fromInner == Min(buf.Length - at, |old(inner)|)
      ensures inner == old(inner)[fromInner..]
      ensures buf[..] == old(buf[..at]) + CursorRead(old(inner), Zeros(buf.Length - at))
    {
      // `checked_sub` cannot fail: `at` is at most the length of `buf`
      var amountFromInner := buf.Length - at;
      var innerBuffer := new byte[amountFromInner](_ => 0);
      assert innerBuffer[..] == Zeros(amountFromInner);
      fromInner := InnerRead(innerBuffer, 0);
      CopyInto(innerBuffer[..], buf, at);
    }

    /** `Read::read` into `buf[lo..]` with nothing buffered: a read from the source. */
    method ReadUnbuffered(buf: array<byte>, lo: nat) returns (n: nat)
      requires Valid() && lo <= buf.Length && peekBuffer == []
      modifies this, buf
      ensures Valid() && consumed == old(consumed) + n
      ensures n == ReadCount(old(Abstract()), buf.Length - lo)
      ensures Abstract() == Consume(old(Abstract()), n)
      ensures buf[..] == old(buf[..lo]) + ReadFill(old(Abstract()), old(buf[lo..]))
    {
      ghost var s := Abstract();
      ghost var b0 := buf[..];
      n := InnerRead(buf, lo);
      ReadFromInner(s, b0[lo..], n);
      ConsumeFrom(input, consumed, s, n);
      consumed := consumed + n;
    }

    /**
      `Read::read` into `buf[lo..]` with bytes buffered: the buffered bytes
      first, then the rest of the slice from a zero-filled read of the source.
    */
    method ReadBuffered(buf: array<byte>, lo: nat) returns (n: nat)
      requires Valid() && lo <= buf.Length && peekBuffer != []
      modifies this, buf
      ensures Valid() && consumed == old(consumed) + n
      ensures n == ReadCount(old(Abstract()), buf.Length - lo)
      ensures Abstract() == Consume(old(Abstract()), n)
      ensures buf[..] == old(buf[..lo]) + ReadFill(old(Abstract()), old(buf[lo..]))
    {
      ghost var s := Abstract();
      ghost var b0 := buf[..];
      var amountFromPeek := DrainBuffer(buf, lo);
      ghost var b1 := buf[..];
      var fromInner := FillFromInner(buf, lo + amountFromPeek);
      n := amountFromPeek + fromInner;
      ReadFromBuffer(s, b0[lo..], amountFromPeek, fromInner);
      ReadBufferedFill(s, b0, lo, amountFromPeek, b1, buf[..]);
      ConsumeFrom(input, consumed, s, n);
      consumed := consumed + n;
    }

    /**
      `Read::read` into the slice `buf[lo..]`: from the source alone when
      nothing is buffered; otherwise the buffered bytes first, then the rest
      of the slice from a zero-filled read of the source.
    */
    method Read(buf: array<byte>, lo: nat) returns (n: nat)
      requires Valid() && lo <= buf.Length
      modifies this, buf
      ensures Valid() && consumed == old(consumed) + n
      ensures n == ReadCount(old(Abstract()), buf.Length - lo)
      ensures Abstract() == Consume(old(Abstract()), n)
      ensures buf[..] == old(buf[..lo]) + ReadFill(old(Abstract()), old(buf[lo..]))
    {
      if peekBuffer == [] {
        n := ReadUnbuffered(buf, lo);
      } else {
        n := ReadBuffered(buf, lo);
      }
    }

    /**
      One round of `read_exact`: with the first `filled` bytes of `s`'s
      unconsumed input in `buf`, reads into the rest of `buf`.
    */
    method ReadMore(buf: array<byte>, filled: nat, ghost s: ReaderSpec.State) returns (k: nat)
      requires Valid() && filled <= buf.Length && filled <= |s.Unconsumed()|
      requires Abstract() == Consume(s, filled) && buf[..filled] == s.Unconsumed()[..filled]
      modifies this, buf
      ensures Valid() && consumed == old(consumed) + k
      ensures filled + k <= buf.Length && filled + k <= |s.Unconsumed()|
      ensures Abstract() == Consume(s, filled + k)
      ensures buf[..filled + k] == s.Unconsumed()[..filled + k]
      ensures k == 0 ==> filled == buf.Length || filled == |s.Unconsumed()|
    {
      ghost var before := buf[..];
      k := Read(buf, filled);
      ReadExactStep(s, filled, before, buf[..], k);
      ConsumeTwice(s, filled, k);
    }

    /**
      The standard `read_exact`: reads until `buf` is full, and fails with
      end-of-input when a read delivers nothing first. On failure all the
      remaining input has been consumed.
    */
    method ReadExact(buf: array<byte>) returns (r: Result<(), ParseError>)
      requires Valid()
      modifies this, buf
      ensures Valid()
      ensures var k := ReadCount(old(Abstract()), buf.Length);
        && consumed == old(consumed) + k
        && Abstract() == Consume(old(Abstract()), k)
        && buf[..k] == old(Abstract().Unconsumed())[..k]
      ensures r.Ok? <==> buf.Length <= |old(Abstract().Unconsumed())|
      ensures r.Err? ==> r.error == Eof(FillEofMessage)
    {
      ghost var s := Abstract();
      ghost var u := s.Unconsumed();
      var filled := 0;
      while filled < buf.Length
        invariant Valid()
        invariant filled <= buf.Length && filled <= |u|
        invariant consumed == old(consumed) + filled
        invariant Abstract() == Consume(s, filled)
        invariant buf[..filled] == u[..filled]
      {
        var k := ReadMore(buf, filled, s);
        if k == 0 {
          break;
        }
        filled := filled + k;
      }
      assert filled == ReadCount(s, buf.Length);
      if filled < buf.Length {
        return Err(Eof(FillEofMessage));
      }
      return Ok(());
    }

    /** `peek_string`: peeks `length` bytes into a zeroed buffer and reads them as UTF-8. */
    method PeekString(length: nat) returns (r: Result<string, ParseError>)
      requires Valid()
      modifies this
      ensures Valid() && consumed == old(consumed)
      ensures Abstract() == AfterPeek(old(Abstract()), length)
      ensures r == ReaderSpec.PeekString(old(Abstract()), length)
    {
      var buffer := new byte[length](_ => 0);
      assert buffer[..] == Zeros(length);
      var _ :- Peek(buffer);
      return FromUtf8(buffer[..]);
    }

    /** `peek_char`: peeks one byte and returns it as a character. */
    method PeekChar() returns (r: Result<char, ParseError>)
      requires Valid()
      modifies this
      ensures Valid() && consumed == old(consumed)
      ensures Abstract() == AfterPeek(old(Abstract()), 1)
      ensures r == ReaderSpec.PeekChar(old(Abstract()))
    {
      var buffer := new byte[1](_ => 0);
      assert buffer[..] == [0];
      var _ :- Peek(buffer);
      return Ok(ByteChar(buffer[0]));
    }

    /** `read_string`: reads exactly `length` bytes and returns them as UTF-8 text. */
    method ReadString(length: nat) returns (r: Result<string, ParseError>)
      requires Valid()
      modifies this
      ensures Valid()
      ensures var k := ReadCount(old(Abstract()), length);
        consumed == old(consumed) + k && Abstract() == Consume(old(Abstract()), k)
      ensures r == ReaderSpec.ReadString(old(Abstract()), length)
    {
      var buffer := new byte[length](_ => 0);
      var _ :- ReadExact(buffer);
      assert buffer[..] == buffer[..length];
      return FromUtf8(buffer[..]);
    }

    /** `read_char`: reads exactly one byte and returns it as a character. */
    method ReadChar() returns (r: Result<char, ParseError>)
      requires Valid()
      modifies this
      ensures Valid()
      ensures var k := ReadCount(old(Abstract()), 1);
        consumed == old(consumed) + k && Abstract() == Consume(old(Abstract()), k)
      ensures r == ReaderSpec.ReadChar(old(Abstract()))
    {
      var buffer := new byte[1](_ => 0);
      var _ :- ReadExact(buffer);
      return Ok(ByteChar(buffer[0]));
    }

    /**
      `read_until`: reads characters while `op` holds them, and returns them;
      the character that stops the loop is consumed and dropped.
    */
    method ReadUntil(op: char -> bool) returns (r: Result<string, ParseError>)
      requires Valid()
      modifies this
      ensures Valid()
      ensures var (res, k) := ReaderSpec.ReadUntil(old(Abstract().Unconsumed()), op);
        && r == res
        && consumed == old(consumed) + k
        && Abstract() == Consume(old(Abstract()), k)
    {
      ghost var s := Abstract();
      ghost var u := s.Unconsumed();
      var result := [];
      var c :- ReadChar();
      ghost var k: nat := 1;
      assert u[0..] == u;
      BehindNothing(ReaderSpec.ReadUntil(u, op));
      while op(c)
        invariant Valid()
        invariant 1 <= k <= |u| && consumed == old(consumed) + k
        invariant Abstract() == Consume(s, k)
        invariant c == ByteChar(u[k - 1]) && |result| == k - 1
        invariant ReaderSpec.ReadUntil(u, op) == Behind(result, ReaderSpec.ReadUntil(u[k - 1..], op))
        decreases |u| - k
      {
        ReadUntilAfter(u, k, result, op);
        result := result + [c];
        var next := ReadChar();
        if next.Err? {
          return Err(next.error);
        }
        ConsumeTwice(s, k, 1);
        assert next.value == ByteChar(u[k]);
        c := next.value;
        k := k + 1;
      }
      ReadUntilEnd(u, k, result, op);
      return Ok(result);
    }
  }

  /** The reader's state over `u` once `a` bytes are consumed and `b` pulled from the source. */
  function At(u: seq<byte>, a: nat, b: nat): (s: State)
    requires a <= b <= |u|
    ensures s.Unconsumed() == u[a..]
  {
    assert u[a..b] + u[b..] == u[a..];
    State(u[a..b], u[b..])
  }

  /** A `peek` of `n` bytes at a position pulls `n` more bytes, or what is left. */
  lemma AfterPeekAt(u: seq<byte>, a: nat, b: nat, n: nat)
    requires a <= b <= |u|
    ensures AfterPeek(At(u, a, b), n) == At(u, a, Min(b + n, |u|))
  {
    var k := Pulled(At(u, a, b), n);
    assert u[a..b] + u[b..][..k] == u[a..b + k];
    assert u[b..][k..] == u[b + k..];
  }

  /** `peek_string(n)` at a position shows the next `n` bytes as text. */
  lemma PeekStringAt(u: seq<byte>, a: nat, b: nat, n: nat)
    requires a <= b < |u| && 0 < n && a + n <= |u|
    ensures ReaderSpec.PeekString(At(u, a, b), n) == FromUtf8(u[a..a + n])
  {
    PeekStringAvailable(At(u, a, b), n);
    assert u[a..][..n] == u[a..a + n];
  }

  /** `peek_char` at a position shows the next byte. */
  lemma PeekCharAt(u: seq<byte>, a: nat, b: nat)
    requires a <= b < |u|
    ensures ReaderSpec.PeekChar(At(u, a, b)) == Ok(ByteChar(u[a]))
  {
    assert At(u, a, b).Unconsumed()[0] == u[a];
  }

  /** A read of `n` bytes at a position: it consumes the next `n` and returns them. */
  lemma ReadAt(u: seq<byte>, a: nat, b: nat, n: nat)
    requires a <= b <= |u| && a + n <= |u|
    ensures ReadCount(At(u, a, b), n) == n
    ensures Consume(At(u, a, b), n) == At(u, a + n, if a + n <= b then b else a + n)
    ensures ReaderSpec.ReadString(At(u, a, b), n) == FromUtf8(u[a..a + n])
    ensures n == 1 ==> ReaderSpec.ReadChar(At(u, a, b)) == Ok(ByteChar(u[a]))
  {
    var s := At(u, a, b);
    if a + n <= b {
      assert u[a..b][n..] == u[a + n..b];
    } else {
      assert u[b..][n - (b - a)..] == u[a + n..];
    }
    assert u[a..][..n] == u[a..a + n];
    if n == 1 {
      assert s.Unconsumed()[0] == u[a];
    }
  }

  /**
    What the reader test relies on about its input `u`: where its words are,
    and which texts `w1` to `w5` they convert to.
  */
  predicate TestLayout(u: seq<byte>, w1: string, w2: string, w3: string, w4: string, w5: string) {
    && |u| == 23
    && FromUtf8(u[0..4]) == Ok(w1)
    && u[4] == 0x20
    && FromUtf8(u[5..8]) == Ok(w2)
    && FromUtf8(u[5..7]) == Ok(w3)
    && u[5] == 0x69
    && FromUtf8(u[5..15]) == Ok(w4)
    && u[15] == 0x20
    && FromUtf8(u[16..23]) == Ok(w5)
  }

  /** The test's first three steps: the first word, peeked then read, and the space after it. */
  method TestFirstWord(reader: CharReader, ghost u: seq<byte>, ghost w1: string) returns (outputs: seq<Output>)
    requires reader.Valid() && |u| == 23 && reader.Abstract() == At(u, 0, 0)
    requires FromUtf8(u[0..4]) == Ok(w1) && u[4] == 0x20
    modifies reader
    ensures reader.Valid() && reader.Abstract() == At(u, 5, 5)
    ensures outputs == [Text(w1), Text(w1), Char(' ')]
  {
    PeekStringAt(u, 0, 0, 4);
    AfterPeekAt(u, 0, 0, 4);
    var r1 := reader.PeekString(4);
    ReadAt(u, 0, 4, 4);
    var r2 := reader.ReadString(4);
    ReadAt(u, 4, 4, 1);
    var r3 := reader.ReadChar();
    outputs := [Text(r1.value), Text(r2.value), Char(r3.value)];
  }

  /** Two peeks in a row: the second pulls two more bytes although three are buffered. */
  method TestPeekTwice(reader: CharReader, ghost u: seq<byte>, ghost w2: string, ghost w3: string)
    returns (outputs: seq<Output>)
    requires reader.Valid() && |u| == 23 && reader.Abstract() == At(u, 5, 5)
    requires FromUtf8(u[5..8]) == Ok(w2) && FromUtf8(u[5..7]) == Ok(w3)
    modifies reader
    ensures reader.Valid() && reader.Abstract() == At(u, 5, 10)
    ensures outputs == [Text(w2), Text(w3)]
  {
    PeekStringAt(u, 5, 5, 3);
    AfterPeekAt(u, 5, 5, 3);
    var r4 := reader.PeekString(3);
    PeekStringAt(u, 5, 8, 2);
    AfterPeekAt(u, 5, 8, 2);
    var r5 := reader.PeekString(2);
    outputs := [Text(r4.value), Text(r5.value)];
  }

  /** More peeks, then a read of ten bytes that drains the look-ahead buffer and goes on. */
  method TestPeekThenRead(reader: CharReader, ghost u: seq<byte>, ghost w3: string, ghost w4: string)
    returns (outputs: seq<Output>)
    requires reader.Valid() && |u| == 23 && reader.Abstract() == At(u, 5, 10)
    requires FromUtf8(u[5..7]) == Ok(w3) && u[5] == 0x69 && FromUtf8(u[5..15]) == Ok(w4)
    modifies reader
    ensures reader.Valid() && reader.Abstract() == At(u, 15, 15)
    ensures outputs == [Char('i'), Text(w3), Text(w4)]
  {
    PeekCharAt(u, 5, 10);
    AfterPeekAt(u, 5, 10, 1);
    var r6 := reader.PeekChar();
    PeekStringAt(u, 5, 11, 2);
    AfterPeekAt(u, 5, 11, 2);
    var r7 := reader.PeekString(2);
    ReadAt(u, 5, 13, 10);
    var r8 := reader.ReadString(10);
    outputs := [Char(r6.value), Text(r7.value), Text(r8.value)];
  }

  /** The last steps: a space peeked and read, the last word, and a read past the end. */
  method TestLastWord(reader: CharReader, ghost u: seq<byte>, ghost w5: string) returns (outputs: seq<Output>)
    requires reader.Valid() && |u| == 23 && reader.Abstract() == At(u, 15, 15)
    requires u[15] == 0x20 && FromUtf8(u[16..23]) == Ok(w5)
    modifies reader
    ensures reader.Valid()
    ensures outputs == [Char(' '), Char(' '), Text(w5), Failure(Eof(FillEofMessage))]
  {
    PeekCharAt(u, 15, 15);
    AfterPeekAt(u, 15, 15, 1);
    var r9 := reader.PeekChar();
    ReadAt(u, 15, 16, 1);
    var r10 := reader.ReadChar();
    ReadAt(u, 16, 16, 7);
    var r11 := reader.ReadString(7);
    var r12 := reader.ReadChar();
    outputs := [Char(r9.value), Char(r10.value), Text(r11.value), Failure(r12.error)];
  }

  /** The steps of the reader test, on a reader over input laid out as `TestLayout` says. */
  method TestSteps(reader: CharReader, ghost u: seq<byte>,
                   ghost w1: string, ghost w2: string, ghost w3: string, ghost w4: string, ghost w5: string)
    returns (outputs: seq<Output>)
    requires reader.Valid() && reader.Abstract() == State([], u) && TestLayout(u, w1, w2, w3, w4, w5)
    modifies reader
    ensures outputs == [
      Text(w1), Text(w1), Char(' '), Text(w2), Text(w3), Char('i'),
      Text(w3), Text(w4), Char(' '), Char(' '), Text(w5), Failure(Eof(FillEofMessage))]
  {
    assert reader.Abstract() == At(u, 0, 0);
    var o1 := TestFirstWord(reader, u, w1);
    var o2 := TestPeekTwice(reader, u, w2, w3);
    var o3 := TestPeekThenRead(reader, u, w3, w4);
    var o4 := TestLastWord(reader, u, w5);
    outputs := o1 + o2 + o3 + o4;
    TestOutputsJoin(o1, o2, o3, o4, w1, w2, w3, w4, w5);
  }

  /** The four parts of the test's output make up the whole list. */
  lemma TestOutputsJoin(o1: seq<Output>, o2: seq<Output>, o3: seq<Output>, o4: seq<Output>,
                        w1: string, w2: string, w3: string, w4: string, w5: string)
    requires o1 == [Text(w1), Text(w1), Char(' ')] && o2 == [Text(w2), Text(w3)]
    requires o3 == [Char('i'), Text(w3), Text(w4)]
    requires o4 == [Char(' '), Char(' '), Text(w5), Failure(Eof(FillEofMessage))]
    ensures o1 + o2 + o3 + o4 == [
      Text(w1), Text(w1), Char(' '), Text(w2), Text(w3), Char('i'),
      Text(w3), Text(w4), Char(' '), Char(' '), Text(w5), Failure(Eof(FillEofMessage))]
  {
  }

  /** The bytes of "This is a piece of text". */
  const TestInput: seq<byte> := [
    0x54, 0x68, 0x69, 0x73, 0x20, 0x69, 0x73, 0x20, 0x61, 0x20, 0x70, 0x69,
    0x65, 0x63, 0x65, 0x20, 0x6f, 0x66, 0x20, 0x74, 0x65, 0x78, 0x74]

  /** The test input is US-ASCII. */
  lemma TestInputAscii()
    ensures forall i :: 0 <= i < |TestInput| ==> TestInput[i] < 0x80
  {
  }

  /** The bytes `TestInput[lo..hi]` convert to `w`, whose characters have their values. */
  lemma TestWord(lo: nat, hi: nat, w: string)
    requires lo <= hi <= |TestInput| && ByteChars(TestInput[lo..hi]) == w
    ensures FromUtf8(TestInput[lo..hi]) == Ok(w)
  {
    TestInputAscii();
    FromUtf8Ascii(TestInput[lo..hi]);
  }

  /** The words of the test input convert to the texts the test expects. */
  lemma TestInputLayout()
    ensures TestLayout(TestInput, "This", "is ", "is", "is a piece", "of text")
  {
    TestWordThis();
    TestWordIsSpace();
    TestWordIs();
    TestWordIsAPiece();
    TestWordOfText();
    TestInputSpaces();
  }

  lemma TestInputSpaces()
    ensures |TestInput| == 23 && TestInput[4] == 0x20 && TestInput[5] == 0x69 && TestInput[15] == 0x20
  {
  }

  lemma TestWordThis()
    ensures FromUtf8(TestInput[0..4]) == Ok("This")
  {
    TestWord(0, 4, "This");
  }

  lemma TestWordIsSpace()
    ensures FromUtf8(TestInput[5..8]) == Ok("is ")
  {
    TestWord(5, 8, "is ");
  }

  lemma TestWordIs()
    ensures FromUtf8(TestInput[5..7]) == Ok("is")
  {
    TestWord(5, 7, "is");
  }

  lemma TestWordIsAPiece()
    ensures FromUtf8(TestInput[5..15]) == Ok("is a piece")
  {
    TestWord(5, 15, "is a piece");
  }

  lemma TestWordOfText()
    ensures FromUtf8(TestInput[16..23]) == Ok("of text")
  {
    TestWord(16, 23, "of text");
  }

  /**
    The reader test: a fixed sequence of peeks and reads over the text
    "This is a piece of text", and what each one returns.
  */
  method TestPeek() returns (outputs: seq<Output>)
    ensures outputs == [
      Text("This"), Text("This"), Char(' '), Text("is "), Text("is"), Char('i'),
      Text("is"), Text("is a piece"), Char(' '), Char(' '), Text("of text"),
      Failure(Eof(FillEofMessage))]
  {
    var reader := new CharReader(TestInput);
    TestInputLayout();
    outputs := TestSteps(reader, TestInput, "This", "is ", "is", "is a piece", "of text");
  }
}
