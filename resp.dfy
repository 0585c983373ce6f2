/**
 * The reply encoder of the Redis Serialization Protocol (RESP2), resp/encode.go.
 *
 * A reply is one of the protocol's five kinds (simple string, error, integer,
 * bulk string, array), with a null bulk string and a null array kept apart
 * from the empty ones, or a value of any other dynamic type, which the encoder
 * refuses with ErrInvalidValue. The destination writer is an infallible
 * append-only byte buffer.
 *
 * `Encoding(v)` states, as a function, which bytes encoding `v` leaves in the
 * writer and which error it returns; the methods below do what the Go
 * functions do and are proved to produce exactly that.
 */
module Resp {
  import opened Wrappers
  import Decimal

  newtype byte = b: int | 0 <= b < 0x100

  const CR: byte := 13
  const LF: byte := 10
  const CRLF: seq<byte> := [CR, LF]

  // The type bytes that open each frame.
  const PlusByte: byte := 43    // '+', simple string
  const MinusByte: byte := 45   // '-', error
  const ColonByte: byte := 58   // ':', integer
  const DollarByte: byte := 36  // '$', bulk string
  const StarByte: byte := 42    // '*', array

  /** A value handed to the encoder, as its type switch tells them apart. */
  datatype Value =
    | SimpleString(text: seq<byte>)
    | Error(message: seq<byte>)
    | Integer(n: Decimal.Int64)
    | NullBulkString                         // the nil BulkString slice
    | BulkString(data: seq<byte>)
    | NullArray                              // the nil Array slice
    | Array(elements: seq<Value>)
    | Unrecognized                           // any other dynamic type

  /** The encoder's one error, so every failure it reports is ErrInvalidValue. */
  datatype EncodeError = ErrInvalidValue

  /** What an encoding leaves in the writer, and the error it returns (None for nil). */
  datatype Encoded = Encoded(bytes: seq<byte>, err: Option<EncodeError>)

  /** The bytes of an ASCII string. */
  function Ascii(s: string): (b: seq<byte>)
    requires Decimal.IsAscii(s)
    ensures |b| == |s|
  {
    seq(|s|, i requires 0 <= i < |s| => s[i] as int as byte)
  }

  /** The characters of a byte string, one per byte. */
  function Chars(b: seq<byte>): (s: string)
    ensures |s| == |b|
  {
    seq(|b|, i requires 0 <= i < |b| => b[i] as int as char)
  }

  lemma CharsOfAscii(s: string)
    requires Decimal.IsAscii(s)
    ensures Chars(Ascii(s)) == s
  {
  }

  /** The decimal rendering of n as bytes (strconv.Itoa / strconv.FormatInt). */
  function DecimalBytes(n: int): seq<byte> {
    Ascii(Decimal.FormatInt(n))
  }

  /** The length or count "-1" that marks a null bulk string or a null array. */
  function NullMarker(): seq<byte> {
    Ascii("-1")
  }

  /** One frame: the type byte, the payload, CRLF. */
  function Framed(prefix: byte, payload: seq<byte>): seq<byte> {
    [prefix] + payload + CRLF
  }

  /** The bytes written, and the error returned, when `v` is encoded. */
  function Encoding(v: Value): Encoded
    decreases v
  {
    match v
    case SimpleString(s) => Encoded(Framed(PlusByte, s), None)
    case Error(m) => Encoded(Framed(MinusByte, m), None)
    case Integer(n) => Encoded(Framed(ColonByte, DecimalBytes(n)), None)
    case NullBulkString => Encoded(Framed(DollarByte, NullMarker()), None)
    case BulkString(b) => Encoded(Framed(DollarByte, DecimalBytes(|b|)) + b + CRLF, None)
    case NullArray => Encoded(Framed(StarByte, NullMarker()), None)
    case Array(es) => Encoded(Framed(StarByte, DecimalBytes(|es|)) + EncodingAll(es).bytes, EncodingAll(es).err)
    case Unrecognized => Encoded([], Some(ErrInvalidValue))
  }

  /**
   * The elements of an array encoded one after the other; the first element
   * that fails stops the encoding, with whatever it wrote left in place.
   */
  function EncodingAll(es: seq<Value>): Encoded
    decreases es
  {
    if es == [] then Encoded([], None) else Then(Encoding(es[0]), EncodingAll(es[1..]))
  }

  /** One encoding after another: the second is reached only when the first succeeds. */
  function Then(first: Encoded, next: Encoded): Encoded {
    if first.err.Some? then first else Encoded(first.bytes + next.bytes, next.err)
  }

  /** A value that holds no unrecognised value at any depth. */
  predicate Recognized(v: Value)
    decreases v
  {
    match v
    case Unrecognized => false
    case Array(es) => forall i :: 0 <= i < |es| ==> Recognized(es[i])
    case _ => true
  }

  /** The successful encodings of a list of elements, concatenated in order. */
  function ConcatEncodings(es: seq<Value>): seq<byte> {
    if es == [] then [] else Encoding(es[0]).bytes + ConcatEncodings(es[1..])
  }

  /** The type byte that opens the frame of a recognised value. */
  function TypeByte(v: Value): byte
    requires v != Unrecognized
  {
    match v
    case SimpleString(_) => PlusByte
    case Error(_) => MinusByte
    case Integer(_) => ColonByte
    case NullBulkString => DollarByte
    case BulkString(_) => DollarByte
    case NullArray => StarByte
    case Array(_) => StarByte
  }

  // ---------------------------------------------------------------------------
  // The writer and the encoding methods.
  // ---------------------------------------------------------------------------

  /** The destination io.Writer: every write appends and succeeds. */
  class Writer {
    var written: seq<byte>

    constructor ()
      ensures written == []
    {
      written := [];
    }

    method Write(buf: seq<byte>)
      modifies this
      ensures written == old(written) + buf
    {
      written := written + buf;
    }
  }

  /** The frame encodePrefixed builds: a fresh buffer of |v| + 3 bytes, filled by copy. */
  method PrefixedBuffer(prefix: byte, v: seq<byte>) returns (buf: seq<byte>)
    ensures buf == Framed(prefix, v)
  {
    var a := new byte[|v| + 3];
    a[0] := prefix;
    for i := 0 to |v|
      invariant a[0] == prefix
      invariant forall k :: 0 <= k < i ==> a[k + 1] == v[k]
    {
      a[i + 1] := v[i];
    }
    a[|v| + 1] := CR;
    a[|v| + 2] := LF;
    buf := a[..];
    assert buf[1..|v| + 1] == v;
  }

  method EncodePrefixed(w: Writer, prefix: byte, v: seq<byte>)
    modifies w
    ensures w.written == old(w.written) + Framed(prefix, v)
  {
    var buf := PrefixedBuffer(prefix, v);
    w.Write(buf);
  }

  /** Encode: the entry point; returns the error of encodeValue. */
  method Encode(w: Writer, v: Value) returns (err: Option<EncodeError>)
    modifies w
    ensures w.written == old(w.written) + Encoding(v).bytes
    ensures err == Encoding(v).err
  {
    err := EncodeValue(w, v);
  }

  method EncodeValue(w: Writer, v: Value) returns (err: Option<EncodeError>)
    modifies w
    ensures w.written == old(w.written) + Encoding(v).bytes
    ensures err == Encoding(v).err
    decreases v, 2
  {
    match v
    case SimpleString(_) =>
      err := EncodeSimpleString(w, v);
    case Error(_) =>
      err := EncodeErrorMessage(w, v);
    case Integer(_) =>
      err := EncodeInteger(w, v);
    case NullBulkString =>
      err := EncodeBulkString(w, v);
    case BulkString(_) =>
      err := EncodeBulkString(w, v);
    case NullArray =>
      err := EncodeArray(w, v);
    case Array(_) =>
      err := EncodeArray(w, v);
    case Unrecognized =>
      err := Some(ErrInvalidValue);
  }

  method EncodeSimpleString(w: Writer, v: Value) returns (err: Option<EncodeError>)
    requires v.SimpleString?
    modifies w
    ensures w.written == old(w.written) + Encoding(v).bytes && err == Encoding(v).err
  {
    EncodePrefixed(w, PlusByte, v.text);
    err := None;
  }

  method EncodeErrorMessage(w: Writer, v: Value) returns (err: Option<EncodeError>)
    requires v.Error?
    modifies w
    ensures w.written == old(w.written) + Encoding(v).bytes && err == Encoding(v).err
  {
    EncodePrefixed(w, MinusByte, v.message);
    err := None;
  }

  method EncodeInteger(w: Writer, v: Value) returns (err: Option<EncodeError>)
    requires v.Integer?
    modifies w
    ensures w.written == old(w.written) + Encoding(v).bytes && err == Encoding(v).err
  {
    EncodePrefixed(w, ColonByte, DecimalBytes(v.n));
    err := None;
  }

  method EncodeBulkString(w: Writer, v: Value) returns (err: Option<EncodeError>)
    requires v.NullBulkString? || v.BulkString?
    modifies w
    ensures w.written == old(w.written) + Encoding(v).bytes && err == Encoding(v).err
  {
    if v.NullBulkString? {
      EncodePrefixed(w, DollarByte, NullMarker());
      return None;
    }
    EncodePrefixed(w, DollarByte, DecimalBytes(|v.data|));
    w.Write(v.data + CRLF);
    err := None;
  }

  method EncodeArray(w: Writer, v: Value) returns (err: Option<EncodeError>)
    requires v.NullArray? || v.Array?
    modifies w
    ensures w.written == old(w.written) + Encoding(v).bytes && err == Encoding(v).err
    decreases v, 1
  {
    if v.NullArray? {
      EncodePrefixed(w, StarByte, NullMarker());
      return None;
    }
    EncodePrefixed(w, StarByte, DecimalBytes(|v.elements|));
    err := EncodeElements(w, v);
    ArrayEncodingUnfold(v.elements);
  }

  /** The element loop of encodeArray: each element in order, stopping at the first error. */
  method EncodeElements(w: Writer, v: Value) returns (err: Option<EncodeError>)
    requires v.Array?
    modifies w
    ensures w.written == old(w.written) + EncodingAll(v.elements).bytes
    ensures err == EncodingAll(v.elements).err
    decreases v, 0
  {
    var es := v.elements;
    ghost var start := w.written;
    ghost var done := Encoded([], None);
    var i := 0;
    assert es[0..] == es;
    while i < |es|
      invariant 0 <= i <= |es|
      invariant ElementsLoop(es, i, start, done, w.written)
    {
      ghost var before := w.written;
      err := EncodeValue(w, es[i]);
      done := NextElement(es, i, start, done, before, w.written, err);
      if err.Some? {
        return;
      }
      i := i + 1;
    }
    assert es[i..] == [] && done.bytes + [] == done.bytes;
    err := None;
  }

  /**
   * The element loop's invariant: what is written since the header is the
   * successful encoding `done` of the first i elements, and the rest of the
   * array's encoding is still to come.
   */
  predicate ElementsLoop(es: seq<Value>, i: nat, start: seq<byte>, done: Encoded, written: seq<byte>)
    requires i <= |es|
  {
    && done.err == None
    && written == start + done.bytes
    && EncodingAll(es) == Then(done, EncodingAll(es[i..]))
  }

  /** One pass of the element loop: the element's encoding joins what is done. */
  lemma NextElement(es: seq<Value>, i: nat, start: seq<byte>, done: Encoded,
                    before: seq<byte>, after: seq<byte>, err: Option<EncodeError>)
    returns (next: Encoded)
    requires i < |es| && ElementsLoop(es, i, start, done, before)
    requires after == before + Encoding(es[i]).bytes && err == Encoding(es[i]).err
    ensures err == None ==> ElementsLoop(es, i + 1, start, next, after)
    ensures err.Some? ==> after == start + EncodingAll(es).bytes && err == EncodingAll(es).err
  {
    next := Then(done, Encoding(es[i]));
    assert es[i..][0] == es[i] && es[i..][1..] == es[i + 1..];
    ThenAssociative(done, Encoding(es[i]), EncodingAll(es[i + 1..]));
  }

  /** The array frame: the count header, then the elements' encodings. */
  lemma {:induction false} ArrayEncodingUnfold(es: seq<Value>)
    ensures Encoding(Array(es)) ==
      Encoded(Framed(StarByte, DecimalBytes(|es|)) + EncodingAll(es).bytes, EncodingAll(es).err)
  {
  }

  /** Then is associative: how a run of encodings is grouped does not matter. */
  lemma ThenAssociative(a: Encoded, b: Encoded, c: Encoded)
    ensures Then(Then(a, b), c) == Then(a, Then(b, c))
  {
    if a.err == None && b.err == None {
      assert (a.bytes + b.bytes) + c.bytes == a.bytes + (b.bytes + c.bytes);
    }
  }

  // ---------------------------------------------------------------------------
  // Properties of the encoding.
  // ---------------------------------------------------------------------------

  /** Encoding a concatenation: the second part is reached only when the first succeeds. */
  lemma {:induction false} EncodingAllAppend(p: seq<Value>, q: seq<Value>)
    ensures EncodingAll(p + q) == Then(EncodingAll(p), EncodingAll(q))
  {
    if p == [] {
      assert p + q == q;
      assert [] + EncodingAll(q).bytes == EncodingAll(q).bytes;
    } else {
      assert (p + q)[0] == p[0];
      assert (p + q)[1..] == p[1..] + q;
      EncodingAllAppend(p[1..], q);
      ThenAssociative(Encoding(p[0]), EncodingAll(p[1..]), EncodingAll(q));
    }
  }

  /** A prefixed frame is the type byte, the payload unchanged, then CRLF: |payload| + 3 bytes. */
  lemma PrefixedFrameLayout(prefix: byte, payload: seq<byte>)
    ensures |Framed(prefix, payload)| == |payload| + 3
    ensures Framed(prefix, payload)[0] == prefix
    ensures Framed(prefix, payload)[1..|payload| + 1] == payload
    ensures Framed(prefix, payload)[|payload| + 1..] == CRLF
  {
  }

  /** Simple strings and errors copy their payload verbatim between '+' or '-' and CRLF. */
  lemma SimpleStringAndErrorFrames(s: seq<byte>)
    ensures Encoding(SimpleString(s)) == Encoded([PlusByte] + s + CRLF, None)
    ensures Encoding(Error(s)) == Encoded([MinusByte] + s + CRLF, None)
  {
  }

  /** An integer is ':' then a signed base-10 rendering that reads back as the same integer. */
  lemma IntegerFrame(n: Decimal.Int64)
    ensures var b := Encoding(Integer(n)).bytes;
      && Encoding(Integer(n)).err == None
      && |b| >= 4 && b[0] == ColonByte && b[|b| - 2..] == CRLF
      && Decimal.ParseInt(Chars(b[1..|b| - 2])) == Some(n)
  {
    var b := Encoding(Integer(n)).bytes;
    var payload := DecimalBytes(n);
    assert b[1..|b| - 2] == payload;
    CharsOfAscii(Decimal.FormatInt(n));
    Decimal.FormatIntRoundTrip(n);
  }

  /** A null bulk string is exactly "$-1\r\n". */
  lemma NullBulkStringFrame()
    ensures Encoding(NullBulkString) == Encoded([DollarByte, MinusByte, 49, CR, LF], None)
  {
  }

  /**
   * A non-null bulk string is '$', its decimal byte length, CRLF, the bytes
   * unchanged, CRLF; the declared length reads back as the payload's byte count.
   */
  lemma {:induction false} BulkStringFrame(data: seq<byte>)
    requires |data| <= Decimal.MaxInt64
    ensures var b := Encoding(BulkString(data)).bytes;
      var h := DecimalBytes(|data|);
      && b == [DollarByte] + h + CRLF + data + CRLF
      && Decimal.ParseInt(Chars(h)) == Some(|data|)
      && b[|h| + 3..|h| + 3 + |data|] == data
  {
    var h := DecimalBytes(|data|);
    CharsOfAscii(Decimal.FormatInt(|data|));
    Decimal.FormatIntRoundTrip(|data|);
    var b := Encoding(BulkString(data)).bytes;
    assert b == [DollarByte] + h + CRLF + data + CRLF;
    assert b[|h| + 3..|h| + 3 + |data|] == data;
  }

  /** A null array is exactly "*-1\r\n". */
  lemma NullArrayFrame()
    ensures Encoding(NullArray) == Encoded([StarByte, MinusByte, 49, CR, LF], None)
  {
  }

  /** Empty is not null: "$0\r\n\r\n" and "*0\r\n" differ from the null frames. */
  lemma EmptyIsNotNull()
    ensures Encoding(BulkString([])).bytes == [DollarByte, 48, CR, LF, CR, LF]
    ensures Encoding(Array([])).bytes == [StarByte, 48, CR, LF]
    ensures Encoding(BulkString([])).bytes != Encoding(NullBulkString).bytes
    ensures Encoding(Array([])).bytes != Encoding(NullArray).bytes
  {
    assert Decimal.FormatInt(0) == "0";
    assert Encoding(BulkString([])).bytes[1] == 48;
    assert Encoding(Array([])).bytes[1] == 48;
  }

  /** A value of no known kind writes nothing and returns ErrInvalidValue. */
  lemma UnrecognizedWritesNothing()
    ensures Encoding(Unrecognized) == Encoded([], Some(ErrInvalidValue))
  {
  }

  /** Encoding fails exactly when an unrecognised value sits somewhere inside. */
  lemma {:induction false} EncodingSucceedsIffRecognized(v: Value)
    ensures Encoding(v).err == None <==> Recognized(v)
    decreases v, 1
  {
    match v
    case Array(es) => EncodingAllSucceedsIffRecognized(es);
    case _ =>
  }

  lemma {:induction false} EncodingAllSucceedsIffRecognized(es: seq<Value>)
    ensures EncodingAll(es).err == None <==> forall i :: 0 <= i < |es| ==> Recognized(es[i])
    ensures EncodingAll(es).err == None ==> EncodingAll(es).bytes == ConcatEncodings(es)
    decreases es, 0
  {
    if es != [] {
      EncodingSucceedsIffRecognized(es[0]);
      EncodingAllSucceedsIffRecognized(es[1..]);
      assert forall i :: 1 <= i < |es| ==> es[i] == es[1..][i - 1];
    }
  }

  /**
   * A recognised array is '*', its decimal element count, CRLF, then each
   * element's encoding in order; the count reads back as the number of elements.
   */
  lemma {:induction false} ArrayFrame(es: seq<Value>)
    requires |es| <= Decimal.MaxInt64
    requires forall i :: 0 <= i < |es| ==> Recognized(es[i])
    ensures var h := DecimalBytes(|es|);
      && Encoding(Array(es)) == Encoded([StarByte] + h + CRLF + ConcatEncodings(es), None)
      && Decimal.ParseInt(Chars(h)) == Some(|es|)
  {
    EncodingAllSucceedsIffRecognized(es);
    CharsOfAscii(Decimal.FormatInt(|es|));
    Decimal.FormatIntRoundTrip(|es|);
  }

  /**
   * Inside an array, the first element that fails ends the encoding with its
   * error; the header, the elements before it and its own partial output stay written.
   */
  lemma {:induction false} ArrayStopsAtFirstFailure(es: seq<Value>, i: nat)
    requires i < |es| && !Recognized(es[i])
    requires forall j :: 0 <= j < i ==> Recognized(es[j])
    ensures Encoding(Array(es)) ==
      Encoded(Framed(StarByte, DecimalBytes(|es|)) + ConcatEncodings(es[..i]) + Encoding(es[i]).bytes,
              Some(ErrInvalidValue))
  {
    ElementsUpToFailure(es, i);
    EncodingSucceedsIffRecognized(es[i]);
    match Encoding(es[i]).err { case Some(ErrInvalidValue) => case None => }
  }

  /** The element loop's output up to and including the first failing element. */
  lemma {:induction false} ElementsUpToFailure(es: seq<Value>, i: nat)
    requires i < |es| && !Recognized(es[i])
    requires forall j :: 0 <= j < i ==> Recognized(es[j])
    ensures EncodingAll(es) == Encoded(ConcatEncodings(es[..i]) + Encoding(es[i]).bytes, Encoding(es[i]).err)
  {
    assert es == es[..i] + es[i..];
    EncodingAllAppend(es[..i], es[i..]);
    EncodingAllSucceedsIffRecognized(es[..i]);
    EncodingSucceedsIffRecognized(es[i]);
    FailingHeadEndsEncoding(es[i..]);
  }

  /** A list whose first element fails encodes as that element alone. */
  lemma FailingHeadEndsEncoding(es: seq<Value>)
    requires es != [] && Encoding(es[0]).err.Some?
    ensures EncodingAll(es) == Encoding(es[0])
  {
  }

  /** A recognised value's encoding opens with its kind's type byte and ends with CRLF. */
  lemma {:induction false} FrameOpensWithTypeByte(v: Value)
    requires Recognized(v)
    ensures var b := Encoding(v).bytes;
      |b| >= 3 && b[0] == TypeByte(v) && b[|b| - 2..] == CRLF
    decreases v, 1
  {
    match v
    case Array(es) =>
      EncodingAllSucceedsIffRecognized(es);
      ConcatEndsWithCRLF(es);
    case _ =>
  }

  lemma {:induction false} ConcatEndsWithCRLF(es: seq<Value>)
    requires forall i :: 0 <= i < |es| ==> Recognized(es[i])
    ensures var b := ConcatEncodings(es);
      es != [] ==> |b| >= 2 && b[|b| - 2..] == CRLF
    decreases es, 0
  {
    if es != [] {
      FrameOpensWithTypeByte(es[0]);
      ConcatEndsWithCRLF(es[1..]);
    }
  }
}
