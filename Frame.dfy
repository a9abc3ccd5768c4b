/** The wire frame shared by the relay server and its clients: a 4-byte
    big-endian sender id followed by the payload bytes of one read, and the
    display line a client prints for a received frame. */
module Frame {

  /** kBufferSize: every socket buffer in the relay holds this many bytes. */
  const BufferSize: nat := 1024
  /** Size of the sender-id prefix of a frame. */
  const IdSize: nat := 4
  const TwoTo31: int := 0x8000_0000
  const TwoTo32: int := 0x1_0000_0000

  type Byte = b: int | 0 <= b < 256

  datatype Option<T> = None | Some(value: T)

  /** A decoded frame: the sender id and the payload bytes. */
  datatype Header = Header(sender: int, payload: seq<Byte>)

  // ---------------------------------------------------------------------------
  // 32-bit conversions (htonl / ntohl and the int <-> uint32_t casts)
  // ---------------------------------------------------------------------------

  /** The uint32_t a C++ `int` becomes when it is passed to htonl. */
  function ToU32(x: int): (u: nat)
    ensures u < TwoTo32
    ensures 0 <= x < TwoTo32 ==> u == x
    ensures x < 0 && -TwoTo32 <= x ==> u == x + TwoTo32
  {
    x % TwoTo32
  }

  /** The `int` a uint32_t becomes when it is assigned to a 32-bit signed int. */
  function ToInt32(u: nat): (x: int)
    requires u < TwoTo32
    ensures -TwoTo31 <= x < TwoTo31
    ensures ToU32(x) == u
  {
    if u < TwoTo31 then u else u - TwoTo32
  }

  /** Every 32-bit signed id survives the trip through the unsigned wire value. */
  lemma Int32RoundTrip(x: int)
    requires -TwoTo31 <= x < TwoTo31
    ensures ToInt32(ToU32(x)) == x
  {
  }

  // ---------------------------------------------------------------------------
  // Network byte order
  // ---------------------------------------------------------------------------

  /** The four bytes of `u` in network (big-endian) order, as htonl lays them out. */
  function BigEndian(u: nat): (b: seq<Byte>)
    requires u < TwoTo32
    ensures |b| == IdSize
  {
    var q1 := u / 256;
    var q2 := q1 / 256;
    var q3 := q2 / 256;
    [q3, q2 % 256, q1 % 256, u % 256]
  }

  /** The value of four bytes read in network order, as ntohl computes it. */
  function FromBigEndian(b: seq<Byte>): (u: nat)
    requires |b| == IdSize
    ensures u < TwoTo32
  {
    ((b[0] as int * 256 + b[1]) * 256 + b[2]) * 256 + b[3]
  }

  lemma DivMod256(x: int, q: int, r: int)
    requires 0 <= r < 256 && x == q * 256 + r
    ensures x / 256 == q && x % 256 == r
  {
  }

  /** Reading back what was laid out gives the value. */
  lemma FromBigEndianOfBigEndian(u: nat)
    requires u < TwoTo32
    ensures FromBigEndian(BigEndian(u)) == u
  {
    var q1 := u / 256;
    var q2 := q1 / 256;
    var q3 := q2 / 256;
    assert u == q1 * 256 + u % 256;
    assert q1 == q2 * 256 + q1 % 256;
    assert q2 == q3 * 256 + q2 % 256;
  }

  /** Laying out what was read back gives the bytes. */
  lemma BigEndianOfFromBigEndian(b: seq<Byte>)
    requires |b| == IdSize
    ensures BigEndian(FromBigEndian(b)) == b
  {
    var u := FromBigEndian(b);
    var q2: int := b[0] as int * 256 + b[1];
    var q1: int := q2 * 256 + b[2];
    DivMod256(u, q1, b[3]);
    DivMod256(q1, q2, b[2]);
    DivMod256(q2, b[0], b[1]);
  }

  // ---------------------------------------------------------------------------
  // Frame codec
  // ---------------------------------------------------------------------------

  /** The frame the server forwards for connection `origin`: htonl(origin)
      followed by exactly the bytes it read. */
  function Encode(origin: int, payload: seq<Byte>): (f: seq<Byte>)
    ensures |f| == |payload| + IdSize
  {
    BigEndian(ToU32(origin)) + payload
  }

  /** The inverse of Encode: a frame shorter than the id prefix is malformed;
      otherwise the payload is everything after the id. */
  function Decode(f: seq<Byte>): (r: Option<Header>)
    ensures r.None? <==> |f| < IdSize
    ensures r.Some? ==> r.value.payload == f[IdSize..]
    ensures r.Some? ==> -TwoTo31 <= r.value.sender < TwoTo31
  {
    if |f| < IdSize then None
    else Some(Header(ToInt32(FromBigEndian(f[..IdSize])), f[IdSize..]))
  }

  /** Every well-formed frame is the encoding of what it decodes to. */
  lemma EncodeDecode(f: seq<Byte>)
    requires |f| >= IdSize
    ensures Decode(f).Some? && Encode(Decode(f).value.sender, Decode(f).value.payload) == f
  {
    BigEndianOfFromBigEndian(f[..IdSize]);
    assert f == f[..IdSize] + f[IdSize..];
  }

  /** Decoding a frame the server built recovers the origin and the payload. */
  lemma DecodeEncode(origin: int, payload: seq<Byte>)
    requires -TwoTo31 <= origin < TwoTo31
    ensures Decode(Encode(origin, payload)) == Some(Header(origin, payload))
  {
    var f := Encode(origin, payload);
    assert f[..IdSize] == BigEndian(ToU32(origin));
    assert f[IdSize..] == payload;
    FromBigEndianOfBigEndian(ToU32(origin));
    Int32RoundTrip(origin);
  }

  // ---------------------------------------------------------------------------
  // C-string view of a receive buffer
  // ---------------------------------------------------------------------------

  /** The bytes a C string starting at `s` spans: everything before the first NUL. */
  function UntilNul(s: seq<Byte>): (t: seq<Byte>)
    ensures |t| <= |s| && t == s[..|t|]
    ensures 0 !in t
    ensures |t| < |s| ==> s[|t|] == 0
  {
    if s == [] || s[0] == 0 then [] else [s[0]] + UntilNul(s[1..])
  }

  /** A NUL store ends the C string whatever follows it. */
  lemma {:induction false} UntilNulStops(s: seq<Byte>, rest: seq<Byte>)
    ensures UntilNul(s + [0] + rest) == UntilNul(s)
  {
    if s != [] && s[0] != 0 {
      assert (s + [0] + rest)[1..] == s[1..] + [0] + rest;
      UntilNulStops(s[1..], rest);
    }
  }

  /** A payload without NUL bytes is shown in full. */
  lemma {:induction false} UntilNulNoNul(s: seq<Byte>)
    requires 0 !in s
    ensures UntilNul(s) == s
  {
    if s != [] {
      assert s[0] in s;
      assert forall i :: 0 <= i < |s[1..]| ==> s[1..][i] == s[i + 1];
      UntilNulNoNul(s[1..]);
    }
  }

  /** Bytes seen as the characters of a std::string. */
  function ToText(b: seq<Byte>): (t: string)
    ensures |t| == |b|
    ensures forall i :: 0 <= i < |b| ==> t[i] as int == b[i]
  {
    seq(|b|, i requires 0 <= i < |b| => b[i] as char)
  }

  // ---------------------------------------------------------------------------
  // Receiving into a buffer and reading the id and the text back out
  // ---------------------------------------------------------------------------

  /** A receive buffer as declared with `{}`: every byte zero. */
  function Zeros(): (b: seq<Byte>)
    ensures |b| == BufferSize && forall i :: 0 <= i < |b| ==> b[i] == 0
  {
    seq(BufferSize, i => 0)
  }

  /** The receive buffer after recv delivered `data` and the code stored the
      terminating NUL at buffer[valread]; the rest keeps earlier contents. */
  function Received(buf: seq<Byte>, data: seq<Byte>): (b: seq<Byte>)
    requires |data| < |buf|
    ensures |b| == |buf|
  {
    data + [0] + buf[|data| + 1..]
  }

  /** The receive buffer starts with the data, has the NUL at index valread,
      and keeps what it held after that. */
  lemma ReceivedLayout(buf: seq<Byte>, data: seq<Byte>)
    requires |data| < |buf|
    ensures Received(buf, data)[..|data|] == data && Received(buf, data)[|data|] == 0
    ensures Received(buf, data)[|data| + 1..] == buf[|data| + 1..]
  {
  }

  /** What both clients display as written: the id is ntohl of the first four
      buffer bytes and the text is the C string at buffer + 4, with no check
      that recv delivered four bytes. */
  function ShownAsWritten(buf: seq<Byte>): (h: Header)
    requires |buf| >= IdSize
    ensures 0 !in h.payload
  {
    Header(ToInt32(FromBigEndian(buf[..IdSize])), UntilNul(buf[IdSize..]))
  }

  /** The corrected reading of a received frame, which neither client does:
      the decoded sender and the payload up to its first NUL, and a receive
      shorter than the id is discarded instead of read from stale bytes. */
  function Shown(data: seq<Byte>): (r: Option<Header>)
    ensures r.None? <==> |data| < IdSize
    ensures r.Some? ==> Decode(data).Some? && r.value.sender == Decode(data).value.sender
    ensures r.Some? ==> r.value.payload == UntilNul(data[IdSize..])
  {
    match Decode(data)
    case None => None
    case Some(h) => Some(Header(h.sender, UntilNul(h.payload)))
  }

  /** For a frame of at least four bytes the as-written read of the buffer
      agrees with Shown, whatever earlier receives left behind. */
  lemma ShownAsWrittenOnFrames(buf: seq<Byte>, data: seq<Byte>)
    requires IdSize <= |data| < |buf|
    ensures Shown(data) == Some(ShownAsWritten(Received(buf, data)))
  {
    var b := Received(buf, data);
    assert b[..IdSize] == data[..IdSize];
    assert b[IdSize..] == data[IdSize..] + [0] + buf[|data| + 1..];
    UntilNulStops(data[IdSize..], buf[|data| + 1..]);
  }

  /** A frame the server built, carrying no NUL byte, is shown as it was sent. */
  lemma ShownEncode(origin: int, payload: seq<Byte>)
    requires -TwoTo31 <= origin < TwoTo31 && 0 !in payload
    ensures Shown(Encode(origin, payload)) == Some(Header(origin, payload))
  {
    DecodeEncode(origin, payload);
    UntilNulNoNul(payload);
  }

  /** `char buffer[kBufferSize]{}`: a fresh receive buffer of zeros. */
  method NewBuffer() returns (buffer: array<Byte>)
    ensures fresh(buffer) && buffer[..] == Zeros()
  {
    buffer := new Byte[BufferSize](i => 0);
  }

  /** A server frame with a NUL-free payload that arrives whole is read back
      out of the buffer as it was sent, whatever the buffer held before. */
  lemma ReceivedEncodeShown(buf: seq<Byte>, origin: int, payload: seq<Byte>)
    requires |buf| == BufferSize && |payload| < BufferSize - IdSize
    requires -TwoTo31 <= origin < TwoTo31 && 0 !in payload
    ensures ShownAsWritten(Received(buf, Encode(origin, payload))) == Header(origin, payload)
  {
    ShownAsWrittenOnFrames(buf, Encode(origin, payload));
    ShownEncode(origin, payload);
  }

  /** A positive recv() into a client's buffer, as both clients do it: the
      bytes land at the start, the NUL goes at buffer[valread], and the id
      and the text are read back out of the buffer with no check that four
      bytes arrived. For a receive of at least four bytes what is shown is
      the decoded frame; for a shorter one it is partly what earlier
      receives left behind. */
  method ReceiveInto(buffer: array<Byte>, data: seq<Byte>) returns (shown: Header)
    requires buffer.Length == BufferSize && 1 <= |data| <= BufferSize - 1
    modifies buffer
    ensures buffer[..] == Received(old(buffer[..]), data)
    ensures shown == ShownAsWritten(buffer[..])
  {
    var n := |data|;
    forall i | 0 <= i < n {
      buffer[i] := data[i];
    }
    buffer[n] := 0;
    assert buffer[..] == Received(old(buffer[..]), data);
    var id := ToInt32(FromBigEndian(buffer[..IdSize]));
    var text := UntilNul(buffer[IdSize..]);
    shown := Header(id, text);
  }

  /** A receive shorter than the id leaves the bytes from index 4 on as they
      were, so the text shown is the text the buffer held before. */
  lemma ShortReadKeepsText(buf: seq<Byte>, data: seq<Byte>)
    requires 1 <= |data| < IdSize && |buf| == BufferSize
    ensures ShownAsWritten(Received(buf, data)).payload == UntilNul(buf[IdSize..])
  {
    var b := Received(buf, data);
    assert b[IdSize..] == buf[IdSize..];
  }

  /** The as-written read shows stale text for a short receive: after a
      frame from connection 7 carrying "hi", a 2-byte receive "AB" is shown
      with the text "hi" again, although it carried no payload. */
  lemma ShortReadShowsStale()
    ensures var first := Received(Zeros(), Encode(7, [104, 105]));
            var second := Received(first, [65, 66]);
            ShownAsWritten(second).payload == [104, 105] && Shown([65, 66]).None?
  {
    var first := Received(Zeros(), Encode(7, [104, 105]));
    assert Encode(7, [104, 105]) == [0, 0, 0, 7, 104, 105];
    var second := Received(first, [65, 66]);
    assert second[IdSize..] == [104, 105] + [0] + second[7..] by {
      assert second[2] == 0 && second[3] == 7;
      assert second[4] == 104 && second[5] == 105 && second[6] == 0;
      assert second[IdSize..] == second[IdSize..7] + second[7..];
    }
    UntilNulStops([104, 105], second[7..]);
    UntilNulNoNul([104, 105]);
  }

  // ---------------------------------------------------------------------------
  // Decimal formatting (std::to_string / operator<< on int) and its parser
  // ---------------------------------------------------------------------------

  predicate IsDigit(c: char) { '0' <= c <= '9' }

  function DigitChar(d: nat): (c: char)
    requires d < 10
    ensures IsDigit(c) && c as int - '0' as int == d
  {
    ('0' as int + d) as char
  }

  /** The decimal digits of `n`, most significant first, no leading zeros. */
  function Digits(n: nat): (s: string)
    ensures |s| >= 1
    ensures forall i :: 0 <= i < |s| ==> IsDigit(s[i])
  {
    if n < 10 then [DigitChar(n)] else Digits(n / 10) + [DigitChar(n % 10)]
  }

  /** The digits start with '0' only for the number 0 itself. */
  lemma {:induction false} DigitsNoLeadingZero(n: nat)
    ensures Digits(n)[0] == '0' <==> n == 0
  {
    if n >= 10 {
      DigitsNoLeadingZero(n / 10);
      assert Digits(n)[0] == Digits(n / 10)[0];
    }
  }

  /** How C++ prints an int: a minus sign for negatives, then the digits. */
  function Decimal(n: int): (s: string)
    ensures |s| >= 1
    ensures ':' !in s
  {
    if n < 0 then "-" + Digits(-n) else Digits(n)
  }

  function ParseDigits(s: string): nat
    requires forall i :: 0 <= i < |s| ==> IsDigit(s[i])
  {
    if s == [] then 0
    else
      var last := s[|s| - 1];
      assert IsDigit(last);
      ParseDigits(s[..|s| - 1]) * 10 + (last as int - '0' as int)
  }

  predicate IsDecimal(s: string)
  {
    if |s| >= 1 && s[0] == '-' then |s| >= 2 && forall i :: 1 <= i < |s| ==> IsDigit(s[i])
    else |s| >= 1 && forall i :: 0 <= i < |s| ==> IsDigit(s[i])
  }

  function ParseDecimal(s: string): int
    requires IsDecimal(s)
  {
    if s[0] == '-' then -(ParseDigits(s[1..]) as int) else ParseDigits(s)
  }

  lemma {:induction false} ParseDigitsOfDigits(n: nat)
    ensures ParseDigits(Digits(n)) == n
  {
    if n >= 10 {
      var s := Digits(n);
      assert s[..|s| - 1] == Digits(n / 10);
      ParseDigitsOfDigits(n / 10);
    }
  }

  /** Printing an id and parsing the digits back gives the id. */
  lemma DecimalRoundTrip(n: int)
    ensures IsDecimal(Decimal(n)) && ParseDecimal(Decimal(n)) == n
  {
    if n < 0 {
      assert Decimal(n)[1..] == Digits(-n);
      ParseDigitsOfDigits(-n);
    } else {
      ParseDigitsOfDigits(n);
    }
  }

  // ---------------------------------------------------------------------------
  // Display lines "<prefix><id>: <text>"
  // ---------------------------------------------------------------------------

  /** The line a client prints for a received frame. */
  function DisplayLine(prefix: string, h: Header): (line: string)
    ensures |line| == |prefix| + |Decimal(h.sender)| + 2 + |h.payload|
  {
    prefix + Decimal(h.sender) + ": " + ToText(h.payload)
  }

  /** Index of the first ':' in `s`, or |s| when there is none. */
  function ColonAt(s: string): (k: nat)
    ensures k <= |s| && ':' !in s[..k]
    ensures k < |s| ==> s[k] == ':'
  {
    if s == [] || s[0] == ':' then 0 else 1 + ColonAt(s[1..])
  }

  lemma {:induction false} ColonAtAfter(s: string, t: string)
    requires ':' !in s
    ensures ColonAt(s + t) == |s| + ColonAt(t)
  {
    if s != [] {
      assert s[0] in s;
      assert (s + t)[0] == s[0];
      assert (s + t)[1..] == s[1..] + t;
      assert forall c :: c in s[1..] ==> c in s;
      ColonAtAfter(s[1..], t);
    } else {
      assert s + t == t;
    }
  }

  /** Splits a display line back into sender and text; None when the line
      does not have the display shape. */
  function ParseDisplayLine(prefix: string, line: string): Option<(int, string)>
  {
    if |line| < |prefix| || line[..|prefix|] != prefix then None
    else
      var rest := line[|prefix|..];
      var k := ColonAt(rest);
      if k + 2 <= |rest| && rest[k..k + 2] == ": " && IsDecimal(rest[..k]) then
        Some((ParseDecimal(rest[..k]), rest[k + 2..]))
      else None
  }

  /** The pieces of `prefix + d + ": " + t` when `d` holds no ':'. */
  lemma DisplaySplit(prefix: string, d: string, t: string)
    requires ':' !in d
    ensures var line := prefix + d + ": " + t;
            var rest := line[|prefix|..];
            line[..|prefix|] == prefix && ColonAt(rest) == |d|
            && rest[..|d|] == d && rest[|d|..|d| + 2] == ": " && rest[|d| + 2..] == t
  {
    var line := prefix + d + ": " + t;
    var rest := line[|prefix|..];
    assert rest == d + (": " + t);
    ColonAtAfter(d, ": " + t);
  }

  /** A display line determines the sender and the shown text. */
  lemma DisplayLineRoundTrip(prefix: string, h: Header)
    ensures ParseDisplayLine(prefix, DisplayLine(prefix, h)) == Some((h.sender, ToText(h.payload)))
  {
    DisplaySplit(prefix, Decimal(h.sender), ToText(h.payload));
    DecimalRoundTrip(h.sender);
  }
}
