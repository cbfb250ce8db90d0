/**
  The observable behaviour of `CharReader` over an in-memory byte slice,
  written as functions on its state: the look-ahead buffer and the part of
  the slice not yet pulled. The class in char_reader.dfy is proved against
  these functions; the lemmas here state what they mean.
*/
module ReaderSpec {
  import opened Wrappers
  import opened Bytes
  import Utf8

  /** The reader's errors: an I/O end-of-input, or a text that is not UTF-8. */
  datatype ParseError = Eof(message: string) | Invalid(message: string)

  /** The message of the EOF error `peek` raises. */
  const PeekEofMessage := "Unexpected EOF when peeking"
  /** The message of the EOF error the standard `read_exact` raises. */
  const FillEofMessage := "failed to fill whole buffer"
  /** The message of the error raised for bytes that are not UTF-8. */
  const InvalidUtf8Message := "String contains invalid utf-8"

  function Min(a: nat, b: nat): (m: nat)
    ensures m <= a && m <= b && (m == a || m == b)
  {
    if a <= b then a else b
  }

  /** `n` zero bytes: `vec![0; n]`. */
  function Zeros(n: nat): (z: seq<byte>)
    ensures |z| == n && forall i :: 0 <= i < n ==> z[i] == 0
  {
    seq(n, _ => 0)
  }

  /** `b as char`: the character whose code point is the byte's value. */
  function ByteChar(b: byte): (c: char)
    ensures c as int == b as int
  {
    b as int as char
  }

  /** The characters `ByteChar` makes of a run of bytes. */
  function ByteChars(b: seq<byte>): (s: string)
    ensures |s| == |b| && forall i :: 0 <= i < |b| ==> s[i] == ByteChar(b[i])
  {
    seq(|b|, i requires 0 <= i < |b| => ByteChar(b[i]))
  }

  /**
    What `Cursor::new(src).read(dst)` and `<&[u8] as Read>::read(dst)` leave
    in `dst`: as many bytes of `src` as fit, the rest of `dst` untouched.
  */
  function CursorRead(src: seq<byte>, dst: seq<byte>): (r: seq<byte>)
    ensures |r| == |dst|
  {
    var m := Min(|dst|, |src|);
    src[..m] + dst[m..]
  }

  lemma AppendAssoc(p: seq<byte>, q: seq<byte>, r: seq<byte>)
    ensures p + q + r == p + (q + r)
  {
  }

  lemma TakeOfJoin(p: seq<byte>, q: seq<byte>, r: seq<byte>)
    ensures (p + q + r)[..|p| + |q|] == p + q
  {
  }

  /** Writing as much of `src` as fits over `b[lo..]` is a cursor read into that slice. */
  lemma CopyIsCursorRead(b: seq<byte>, lo: nat, src: seq<byte>, n: nat)
    requires lo <= |b| && n == Min(|b| - lo, |src|)
    ensures b[..lo] + src[..n] + b[lo + n..] == b[..lo] + CursorRead(src, b[lo..])
  {
    assert b[lo..][n..] == b[lo + n..];
    assert b[..lo] + src[..n] + b[lo + n..] == b[..lo] + (src[..n] + b[lo + n..]);
  }

  /** Writing as much of `src` as fits over the front of `b` is a cursor read into `b`. */
  lemma CopyFrontIsCursorRead(b: seq<byte>, src: seq<byte>, n: nat)
    requires n == Min(|b|, |src|)
    ensures b[..0] + src[..n] + b[n..] == CursorRead(src, b)
  {
    assert b[..0] + src[..n] + b[n..] == src[..n] + b[n..];
  }

  /** A cursor read that fills its whole destination does not depend on what was there. */
  lemma CursorReadCovers(src: seq<byte>, d1: seq<byte>, d2: seq<byte>)
    requires |d1| == |d2| <= |src|
    ensures CursorRead(src, d1) == CursorRead(src, d2)
  {
  }

  /** `String::from_utf8`, with the reader's error for ill-formed bytes. */
  function FromUtf8(b: seq<byte>): (r: Result<string, ParseError>)
    ensures r.Ok? <==> Utf8.WellFormed(b)
    ensures r.Err? ==> r.error == Invalid(InvalidUtf8Message)
  {
    Utf8.DecodeIffWellFormed(b);
    match Utf8.Decode(b)
    case None => Err(Invalid(InvalidUtf8Message))
    case Some(s) => Ok(s)
  }

  /** A converted text is the one whose bytes are exactly the converted bytes. */
  lemma FromUtf8Bytes(b: seq<byte>)
    requires FromUtf8(b).Ok?
    ensures Utf8.Encode(FromUtf8(b).value) == b
  {
    Utf8.EncodeDecode(b);
  }

  /** A text's own bytes always convert back to that text. */
  lemma FromUtf8Encode(s: string)
    ensures FromUtf8(Utf8.Encode(s)) == Ok(s)
  {
    Utf8.DecodeEncode(s);
  }

  /** Bytes below 0x80 (US-ASCII) are UTF-8 whose characters are the bytes' own values. */
  lemma {:induction false} DecodeAscii(b: seq<byte>)
    requires forall i :: 0 <= i < |b| ==> b[i] < 0x80
    ensures Utf8.Decode(b) == Some(ByteChars(b))
    decreases |b|
  {
    if b != [] {
      assert forall i :: 0 <= i < |b| - 1 ==> b[1..][i] == b[i + 1];
      DecodeAscii(b[1..]);
      assert ByteChars(b) == [ByteChar(b[0])] + ByteChars(b[1..]);
    }
  }

  /**
    On US-ASCII bytes the text conversion and the byte-by-byte `b as char`
    conversion agree.
  */
  lemma FromUtf8Ascii(b: seq<byte>)
    requires forall i :: 0 <= i < |b| ==> b[i] < 0x80
    ensures FromUtf8(b) == Ok(ByteChars(b))
  {
    DecodeAscii(b);
  }

  /** The reader's state: the look-ahead buffer and the unread rest of the source. */
  datatype State = State(buffer: seq<byte>, inner: seq<byte>) {
    /** Everything the reader has not yet delivered to a consuming read. */
    function Unconsumed(): seq<byte> {
      buffer + inner
    }
  }

  // ---------------------------------------------------------------- peek

  /** How many bytes `peek` into a buffer of length `n` pulls from the source. */
  function Pulled(s: State, n: nat): (k: nat)
    ensures k <= n && k <= |s.inner|
    ensures k == n || k == |s.inner|
  {
    Min(n, |s.inner|)
  }

  /**
    The state after `peek` into a buffer of length `n`: the pulled bytes move
    from the source to the end of the look-ahead buffer, whether or not the
    buffer already held `n` bytes, so nothing is consumed.
  */
  function AfterPeek(s: State, n: nat): (t: State)
    ensures t.Unconsumed() == s.Unconsumed()
    ensures |t.buffer| == |s.buffer| + Pulled(s, n)
    ensures t.buffer[..|s.buffer|] == s.buffer
  {
    var k := Pulled(s, n);
    assert s.inner[..k] + s.inner[k..] == s.inner;
    State(s.buffer + s.inner[..k], s.inner[k..])
  }

  /**
    What `peek` returns: how many bytes it pulled, or end-of-input exactly
    when it pulled none, however many bytes the look-ahead buffer holds.
  */
  function PeekResult(s: State, n: nat): (r: Result<nat, ParseError>)
    ensures r.Err? <==> n == 0 || s.inner == []
    ensures r.Err? ==> r.error == Eof(PeekEofMessage)
    ensures r.Ok? ==> r.value == Pulled(s, n) && r.value > 0
  {
    var k := Pulled(s, n);
    if k == 0 then Err(Eof(PeekEofMessage)) else Ok(k)
  }

  /**
    What `peek` leaves in its buffer `dst`. On success, and on failure when
    the look-ahead buffer already covered `dst`, the front of `dst` holds the
    next bytes of the input; otherwise `dst` is untouched.
  */
  function PeekFill(s: State, dst: seq<byte>): (r: seq<byte>)
    ensures |r| == |dst|
  {
    var t := AfterPeek(s, |dst|);
    if PeekResult(s, |dst|).Ok? || |s.buffer| >= |dst| then CursorRead(t.buffer, dst) else dst
  }

  /** A `peek` that pulls nothing leaves the copy made from the look-ahead buffer, if any. */
  lemma PeekFillAtEnd(s: State, dst: seq<byte>)
    requires PeekResult(s, |dst|).Err?
    ensures PeekFill(s, dst) == if |s.buffer| >= |dst| then CursorRead(s.buffer, dst) else dst
  {
    assert s.buffer + s.inner[..0] == s.buffer;
  }

  /** `peek` shows the next bytes: as many as the grown look-ahead buffer holds. */
  lemma PeekShowsNext(s: State, dst: seq<byte>)
    requires PeekResult(s, |dst|).Ok?
    ensures var m := Min(|dst|, |AfterPeek(s, |dst|).buffer|);
      && PeekFill(s, dst)[..m] == s.Unconsumed()[..m]
      && PeekFill(s, dst)[m..] == dst[m..]
  {
    var t := AfterPeek(s, |dst|);
    var m := Min(|dst|, |t.buffer|);
    var r := PeekFill(s, dst);
    assert r == CursorRead(t.buffer, dst);
    forall i | 0 <= i < m ensures r[i] == s.Unconsumed()[i] {
      assert r[i] == t.buffer[i];
      assert t.Unconsumed()[i] == t.buffer[i];
    }
  }

  // ---------------------------------------------------------------- read

  /** How many bytes a read into `want` bytes of room delivers. */
  function ReadCount(s: State, want: nat): (k: nat)
    ensures k <= want && k <= |s.Unconsumed()|
    ensures k == want || k == |s.Unconsumed()|
  {
    Min(want, |s.Unconsumed()|)
  }

  /**
    The state after `k` bytes are consumed: taken from the look-ahead buffer
    first, and from the source only once the buffer is empty.
  */
  function Consume(s: State, k: nat): (t: State)
    requires k <= |s.Unconsumed()|
    ensures t.Unconsumed() == s.Unconsumed()[k..]
    ensures k <= |s.buffer| ==> t.inner == s.inner
    ensures k >= |s.buffer| ==> t.buffer == []
  {
    if k <= |s.buffer| then
      assert s.Unconsumed()[k..] == s.buffer[k..] + s.inner;
      State(s.buffer[k..], s.inner)
    else
      assert s.Unconsumed()[k..] == s.inner[k - |s.buffer|..];
      State([], s.inner[k - |s.buffer|..])
  }

  /** Consuming `a` bytes and then `b` bytes is consuming `a + b` bytes. */
  lemma ConsumeTwice(s: State, a: nat, b: nat)
    requires a + b <= |s.Unconsumed()|
    ensures b <= |Consume(s, a).Unconsumed()|
    ensures Consume(Consume(s, a), b) == Consume(s, a + b)
  {
    var t := Consume(s, a);
    if a + b <= |s.buffer| {
      assert s.buffer[a..][b..] == s.buffer[a + b..];
    } else if a <= |s.buffer| {
      assert t.buffer == s.buffer[a..];
    } else {
      assert t.inner[b..] == s.inner[a + b - |s.buffer|..];
    }
  }

  /**
    What `read` leaves in its destination `dst`. With an empty look-ahead
    buffer it is the source's own read; otherwise the buffered bytes come
    first and the rest of `dst` is overwritten with a zero-padded read from
    the source.
  */
  function ReadFill(s: State, dst: seq<byte>): (r: seq<byte>)
    ensures |r| == |dst|
  {
    if s.buffer == [] then
      CursorRead(s.inner, dst)
    else
      var a := Min(|s.buffer|, |dst|);
      s.buffer[..a] + CursorRead(s.inner, Zeros(|dst| - a))
  }

  /** The two halves of a read from a non-empty look-ahead buffer make up one read. */
  lemma ReadFromBuffer(s: State, dst: seq<byte>, a: nat, got: nat)
    requires s.buffer != [] && a == Min(|s.buffer|, |dst|) && got == Min(|dst| - a, |s.inner|)
    ensures ReadCount(s, |dst|) == a + got
    ensures Consume(s, a + got) == State(s.buffer[a..], s.inner[got..])
    ensures ReadFill(s, dst) == s.buffer[..a] + CursorRead(s.inner, Zeros(|dst| - a))
  {
  }

  /**
    The destination `b0` after the buffered bytes went to `b0[lo..]` (giving
    `b1`) and a zero-padded read of the source went after them (giving `b2`).
  */
  lemma ReadBufferedFill(s: State, b0: seq<byte>, lo: nat, a: nat, b1: seq<byte>, b2: seq<byte>)
    requires s.buffer != [] && lo <= |b0| && a == Min(|s.buffer|, |b0| - lo)
    requires b1 == b0[..lo] + s.buffer[..a] + b0[lo + a..]
    requires b2 == b1[..lo + a] + CursorRead(s.inner, Zeros(|b0| - (lo + a)))
    ensures b2 == b0[..lo] + ReadFill(s, b0[lo..])
  {
    TakeOfJoin(b0[..lo], s.buffer[..a], b0[lo + a..]);
    AppendAssoc(b0[..lo], s.buffer[..a], CursorRead(s.inner, Zeros(|b0| - (lo + a))));
  }

  /** A read from an empty look-ahead buffer is a read from the source. */
  lemma ReadFromInner(s: State, dst: seq<byte>, got: nat)
    requires s.buffer == [] && got == Min(|dst|, |s.inner|)
    ensures ReadCount(s, |dst|) == got
    ensures Consume(s, got) == State([], s.inner[got..])
    ensures ReadFill(s, dst) == CursorRead(s.inner, dst)
  {
    assert s.Unconsumed() == s.inner;
  }

  /** A consumed prefix of the rest of `input` moves the position forward. */
  lemma ConsumeFrom(input: seq<byte>, at: nat, s: State, k: nat)
    requires at <= |input| && s.Unconsumed() == input[at..] && k <= |s.Unconsumed()|
    ensures at + k <= |input| && Consume(s, k).Unconsumed() == input[at + k..]
  {
  }

  /**
    A read delivers the next `ReadCount` bytes of the input; beyond them the
    destination is left as it was when nothing was buffered and is zeroed
    when something was.
  */
  lemma ReadDelivers(s: State, dst: seq<byte>)
    ensures var k := ReadCount(s, |dst|);
      && ReadFill(s, dst)[..k] == s.Unconsumed()[..k]
      && ReadFill(s, dst)[k..] == if s.buffer == [] then dst[k..] else Zeros(|dst| - k)
  {
    var k := ReadCount(s, |dst|);
    var r := ReadFill(s, dst);
    var u := s.Unconsumed();
    if s.buffer == [] {
      assert u == s.inner;
    } else {
      var a := Min(|s.buffer|, |dst|);
      var tail := CursorRead(s.inner, Zeros(|dst| - a));
      assert r == s.buffer[..a] + tail;
      forall i | 0 <= i < k ensures r[i] == u[i] {
        if i >= a { assert r[i] == tail[i - a]; }
      }
      forall i | k <= i < |dst| ensures r[i] == 0 {
        assert i >= a;
        assert r[i] == tail[i - a];
      }
      assert r[k..] == Zeros(|dst| - k);
    }
  }

  /** Bytes `p` that agree with `u` followed by bytes `r` that agree with what comes next agree with `u`. */
  lemma PrefixThenNext(p: seq<byte>, r: seq<byte>, u: seq<byte>, k: nat)
    requires |p| + k <= |u| && k <= |r|
    requires p == u[..|p|] && r[..k] == u[|p|..][..k]
    ensures (p + r)[..|p| + k] == u[..|p| + k]
  {
    assert (p + r)[..|p| + k] == p + r[..k];
    assert u[..|p| + k] == u[..|p|] + u[|p|..][..k];
  }

  /**
    One round of `read_exact`: after `filled` bytes of the input have arrived
    in the destination, a read of `k` bytes into the rest extends them by as
    many more.
  */
  lemma ReadExactStep(s: State, filled: nat, before: seq<byte>, after: seq<byte>, k: nat)
    requires filled <= |before| && filled <= |s.Unconsumed()|
    requires before[..filled] == s.Unconsumed()[..filled]
    requires k == ReadCount(Consume(s, filled), |before| - filled)
    requires after == before[..filled] + ReadFill(Consume(s, filled), before[filled..])
    ensures filled + k <= |after| && filled + k <= |s.Unconsumed()|
    ensures after[..filled + k] == s.Unconsumed()[..filled + k]
  {
    var t := Consume(s, filled);
    ReadDelivers(t, before[filled..]);
    PrefixThenNext(before[..filled], ReadFill(t, before[filled..]), s.Unconsumed(), k);
  }

  /** After a `peek`, a read of the same length delivers the bytes `peek` showed. */
  lemma PeekDoesNotConsume(s: State, dst: seq<byte>, dst2: seq<byte>)
    requires PeekResult(s, |dst|).Ok? && |dst2| == |dst|
    ensures var t := AfterPeek(s, |dst|);
      var m := Min(|dst|, |t.buffer|);
      && t.Unconsumed() == s.Unconsumed()
      && m <= ReadCount(t, |dst2|)
      && ReadFill(t, dst2)[..m] == PeekFill(s, dst)[..m]
  {
    var t := AfterPeek(s, |dst|);
    var m := Min(|dst|, |t.buffer|);
    PeekShowsNext(s, dst);
    ReadDelivers(t, dst2);
    var k := ReadCount(t, |dst2|);
    assert ReadFill(t, dst2)[..m] == ReadFill(t, dst2)[..k][..m];
  }

  // ---------------------------------------------------------------- text

  /** `peek_string(n)`: the next `n` bytes, zero-padded if fewer were pulled, as text. */
  function PeekString(s: State, n: nat): (r: Result<string, ParseError>)
    ensures PeekResult(s, n).Err? ==> r == Err(Eof(PeekEofMessage))
    ensures PeekResult(s, n).Ok? ==> r == FromUtf8(PeekFill(s, Zeros(n)))
  {
    match PeekResult(s, n)
    case Err(e) => Err(e)
    case Ok(_) => FromUtf8(PeekFill(s, Zeros(n)))
  }

  /** `peek_char`: the next byte as a character, failing when the source is exhausted. */
  function PeekChar(s: State): (r: Result<char, ParseError>)
    ensures r.Ok? <==> s.inner != []
    ensures r.Ok? ==> r.value as int == s.Unconsumed()[0] as int
    ensures r.Err? ==> r.error == Eof(PeekEofMessage)
  {
    match PeekResult(s, 1)
    case Err(e) => Err(e)
    case Ok(_) =>
      var bytes := PeekFill(s, [0]);
      PeekShowsNext(s, [0]);
      Ok(ByteChar(bytes[0]))
  }

  /** `read_string(n)`: the next `n` bytes as text; end-of-input when fewer remain. */
  function ReadString(s: State, n: nat): (r: Result<string, ParseError>)
    ensures n > |s.Unconsumed()| ==> r == Err(Eof(FillEofMessage))
    ensures n <= |s.Unconsumed()| ==> r == FromUtf8(s.Unconsumed()[..n])
  {
    var u := s.Unconsumed();
    if n <= |u| then FromUtf8(u[..n]) else Err(Eof(FillEofMessage))
  }

  /** `read_char`: the next byte as a character; end-of-input when none remains. */
  function ReadChar(s: State): (r: Result<char, ParseError>)
    ensures r.Ok? <==> s.Unconsumed() != []
    ensures r.Ok? ==> r.value as int == s.Unconsumed()[0] as int
    ensures r.Err? ==> r.error == Eof(FillEofMessage)
  {
    var u := s.Unconsumed();
    if u != [] then Ok(ByteChar(u[0])) else Err(Eof(FillEofMessage))
  }

  /**
    While the source is not exhausted, `peek_string(n)` of at most the
    remaining input is the next `n` bytes as text.
  */
  lemma PeekStringAvailable(s: State, n: nat)
    requires 0 < n <= |s.Unconsumed()| && s.inner != []
    ensures PeekString(s, n) == FromUtf8(s.Unconsumed()[..n])
  {
    var t := AfterPeek(s, n);
    PeekShowsNext(s, Zeros(n));
    assert |t.buffer| >= n;
    assert PeekFill(s, Zeros(n)) == PeekFill(s, Zeros(n))[..n];
  }

  /**
    A `peek_string(n)` that was served entirely from the look-ahead buffer and
    the source is repeated exactly by the `read_string(n)` that follows it.
  */
  lemma PeekStringThenReadString(s: State, n: nat)
    requires 0 < n <= |s.Unconsumed()| && s.inner != []
    ensures PeekString(s, n).Ok? || PeekString(s, n).error == Invalid(InvalidUtf8Message)
    ensures ReadString(AfterPeek(s, n), n) == PeekString(s, n)
  {
    PeekStringAvailable(s, n);
  }

  /**
    Past the end of the input the two diverge: `peek_string(n)` still pulls
    what is left and converts it padded with zeros, while the `read_string(n)`
    after it fails with end-of-input.
  */
  lemma PeekStringPastEnd(s: State, n: nat)
    requires n > |s.Unconsumed()| && s.inner != []
    ensures PeekString(s, n) == FromUtf8(s.Unconsumed() + Zeros(n - |s.Unconsumed()|))
    ensures ReadString(AfterPeek(s, n), n) == Err(Eof(FillEofMessage))
  {
    var u := s.Unconsumed();
    var t := AfterPeek(s, n);
    assert t.buffer == u;
    assert Zeros(n)[|u|..] == Zeros(n - |u|);
  }

  // ---------------------------------------------------------------- read_until

  /**
    `read_until(op)` on the unconsumed bytes `u`: the result and how many
    bytes it consumes. Characters are taken while `op` holds; the first one
    for which it fails is consumed too but not kept.
  */
  function ReadUntil(u: seq<byte>, op: char -> bool): (r: (Result<string, ParseError>, nat))
    ensures r.1 <= |u|
    decreases |u|
  {
    if u == [] then (Err(Eof(FillEofMessage)), 0)
    else if !op(ByteChar(u[0])) then (Ok([]), 1)
    else
      var (rest, k) := ReadUntil(u[1..], op);
      match rest
      case Ok(t) => (Ok([ByteChar(u[0])] + t), k + 1)
      case Err(e) => (Err(e), k + 1)
  }

  /** The outcome `r` of a `read_until` preceded by the characters `t`, already taken. */
  function Behind(t: string, r: (Result<string, ParseError>, nat)): (Result<string, ParseError>, nat) {
    (if r.0.Ok? then Ok(t + r.0.value) else r.0, |t| + r.1)
  }

  /** A character `op` accepts is taken, and `read_until` goes on after it. */
  lemma ReadUntilTakes(u: seq<byte>, op: char -> bool)
    requires u != [] && op(ByteChar(u[0]))
    ensures ReadUntil(u, op) == Behind([ByteChar(u[0])], ReadUntil(u[1..], op))
  {
  }

  /** A character `op` rejects ends `read_until`, with nothing kept. */
  lemma ReadUntilStops(u: seq<byte>, op: char -> bool)
    requires u != [] && !op(ByteChar(u[0]))
    ensures ReadUntil(u, op) == (Ok([]), 1)
  {
  }

  lemma BehindNothing(r: (Result<string, ParseError>, nat))
    ensures Behind([], r) == r
  {
    if r.0.Ok? {
      assert [] + r.0.value == r.0.value;
    }
  }

  lemma BehindTwice(a: string, b: string, r: (Result<string, ParseError>, nat))
    ensures Behind(a, Behind(b, r)) == Behind(a + b, r)
  {
    if r.0.Ok? {
      assert a + (b + r.0.value) == a + b + r.0.value;
    }
  }

  /** One round of the `read_until` loop: the character `op` accepted joins the characters taken. */
  lemma ReadUntilAfter(u: seq<byte>, k: nat, t: string, op: char -> bool)
    requires 1 <= k <= |u| && op(ByteChar(u[k - 1]))
    requires ReadUntil(u, op) == Behind(t, ReadUntil(u[k - 1..], op))
    ensures ReadUntil(u, op) == Behind(t + [ByteChar(u[k - 1])], ReadUntil(u[k..], op))
  {
    ReadUntilTakes(u[k - 1..], op);
    assert u[k - 1..][1..] == u[k..];
    BehindTwice(t, [ByteChar(u[k - 1])], ReadUntil(u[k..], op));
  }

  /** The end of the `read_until` loop: the character `op` rejects ends it with the characters taken. */
  lemma ReadUntilEnd(u: seq<byte>, k: nat, t: string, op: char -> bool)
    requires 1 <= k <= |u| && !op(ByteChar(u[k - 1])) && |t| == k - 1
    requires ReadUntil(u, op) == Behind(t, ReadUntil(u[k - 1..], op))
    ensures ReadUntil(u, op) == (Ok(t), k)
  {
    ReadUntilStops(u[k - 1..], op);
    assert t + [] == t;
  }

  /**
    `read_until` returns the longest prefix of characters satisfying `op`,
    consuming it and the one character after it; it fails with end-of-input,
    having consumed everything, when there is no such character.
  */
  lemma {:induction false} ReadUntilLongestPrefix(u: seq<byte>, op: char -> bool)
    ensures var (r, k) := ReadUntil(u, op);
      && (r.Ok? <==> exists i :: 0 <= i < |u| && !op(ByteChar(u[i])))
      && (r.Ok? ==>
            && 1 <= k <= |u|
            && !op(ByteChar(u[k - 1]))
            && (forall j :: 0 <= j < k - 1 ==> op(ByteChar(u[j])))
            && r.value == ByteChars(u[..k - 1]))
      && (r.Err? ==>
            && r.error == Eof(FillEofMessage)
            && k == |u|
            && forall j :: 0 <= j < |u| ==> op(ByteChar(u[j])))
    decreases |u|
  {
    if u != [] && op(ByteChar(u[0])) {
      ReadUntilLongestPrefix(u[1..], op);
      ReadUntilTakes(u, op);
      var (r, k) := ReadUntil(u, op);
      var (r', k') := ReadUntil(u[1..], op);
      if r.Ok? {
        assert u[1..][..k' - 1] == u[1..k - 1];
        assert ByteChars(u[..k - 1]) == [ByteChar(u[0])] + ByteChars(u[1..k - 1]);
        forall j | 0 <= j < k - 1 ensures op(ByteChar(u[j])) {
          if j > 0 { assert u[j] == u[1..][j - 1]; }
        }
        assert u[k - 1] == u[1..][k' - 1];
      } else {
        forall j | 0 <= j < |u| ensures op(ByteChar(u[j])) {
          if j > 0 { assert u[j] == u[1..][j - 1]; }
        }
      }
      if exists i :: 0 <= i < |u| && !op(ByteChar(u[i])) {
        var i :| 0 <= i < |u| && !op(ByteChar(u[i]));
        assert i > 0 && u[1..][i - 1] == u[i];
      }
      if exists i :: 0 <= i < |u| - 1 && !op(ByteChar(u[1..][i])) {
        var i :| 0 <= i < |u| - 1 && !op(ByteChar(u[1..][i]));
        assert u[i + 1] == u[1..][i];
      }
    }
  }
}
