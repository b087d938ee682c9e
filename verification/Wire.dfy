/**
 The wire format as values: what each message looks like as bytes, and what those bytes are
 read as. The C routines that write and read the buffers are in module Protocol.
 */
module Wire {
  import opened CStrings
  import L = Listing

  const REGISTER_REQUEST: byte := 1
  const REGISTER_REPLY: byte := 2
  const LOGIN_REQUEST: byte := 3
  const LOGIN_REPLY: byte := 4
  const LOGOUT_REQUEST: byte := 5
  const LOGOUT_REPLY: byte := 6
  const GROUP_CREATE_REQUEST: byte := 7
  const GROUP_CREATE_REPLY: byte := 8
  const GROUP_JOIN_REQUEST: byte := 9
  const GROUP_JOIN_REPLY: byte := 10
  const GROUP_LEAVE_REQUEST: byte := 11
  const GROUP_LEAVE_REPLY: byte := 12
  const GROUP_ALL_AVAILABLE_REQUEST: byte := 13
  const GROUP_ALL_AVAILABLE_REPLY: byte := 14

  /** Widths of the address and port fields, terminator included. */
  const IP_SIZE := 15
  const PORT_SIZE := 5

  datatype Layout = PairLayout | SingleLayout | StatusLayout | AddressLayout | ListingLayout | NoLayout

  function LayoutOf(tag: int): Layout {
    if tag == 1 || tag == 3 || tag == 7 || tag == 9 || tag == 11 then PairLayout
    else if tag == 5 || tag == 13 then SingleLayout
    else if tag == 2 || tag == 4 || tag == 6 || tag == 12 then StatusLayout
    else if tag == 8 || tag == 10 then AddressLayout
    else if tag == 14 then ListingLayout
    else NoLayout
  }

  datatype Message =
    | Pair(tag: byte, user: CString, second: CString)
    | Single(tag: byte, user: CString)
    | Status(tag: byte, reply: byte)
    | Address(tag: byte, reply: byte, ip: CString, port: CString)
    | Names(tag: byte, reply: byte, names: CString)
  {
    function Layout(): Layout {
      match this
      case Pair(_, _, _) => PairLayout
      case Single(_, _) => SingleLayout
      case Status(_, _) => StatusLayout
      case Address(_, _, _, _) => AddressLayout
      case Names(_, _, _) => ListingLayout
    }

    /** Every string fits its field, terminator included. */
    predicate FitsFields() {
      match this
      case Pair(_, u, s) => |u| < L.MAX_SIZE && |s| < L.MAX_SIZE
      case Single(_, u) => |u| < L.MAX_SIZE
      case Status(_, _) => true
      case Address(_, _, i, p) => |i| < IP_SIZE && |p| < PORT_SIZE
      case Names(_, _, n) => |n| < L.MAX_SIZE_GROUPS
    }

    predicate WellFormed() {
      FitsFields() && LayoutOf(tag) == Layout()
    }
  }

  /** A conversion to unsigned char. */
  function Byte(n: nat): byte {
    n % 256
  }

  function Size(m: Message): nat {
    match m
    case Pair(_, u, s) => |u| + |s| + 4
    case Single(_, u) => |u| + 3
    case Status(_, _) => 4
    case Address(_, _, i, p) => 6 + |i| + |p|
    case Names(_, _, n) => 4 + |n|
  }

  /** The bytes the packers write. A listing has no byte for the length of its names. */
  function Encode(m: Message): (b: seq<byte>)
    ensures |b| == Size(m)
  {
    match m
    case Pair(t, u, s) => [t, Byte(Size(m))] + [Byte(|u|)] + u + [Byte(|s|)] + s
    case Single(t, u) => [t, Byte(Size(m))] + [Byte(|u|)] + u
    case Status(t, r) => [t, Byte(Size(m)), 1, r]
    case Address(t, r, i, p) => [t, Byte(Size(m)), 1, r] + [Byte(|i|)] + i + [Byte(|p|)] + p
    case Names(t, r, n) => [t, Byte(Size(m)), 1, r] + n
  }

  /** A string of the length given at `at`, in the bytes after it, inside the buffer and its field. */
  predicate StringAt(b: seq<byte>, at: nat, width: nat) {
    && at < |b|
    && at + 1 + b[at] <= |b|
    && b[at] < width
  }

  function TextAt(b: seq<byte>, at: nat): (t: CString)
    requires at < |b| && at + 1 + b[at] <= |b|
    ensures |t| <= b[at]
  {
    TextOf(b[at + 1..at + 1 + b[at]])
  }

  /** The buffer can be read under the layout without leaving it or overrunning a field. */
  predicate Readable(layout: Layout, b: seq<byte>) {
    match layout
    case PairLayout => StringAt(b, 2, L.MAX_SIZE) && StringAt(b, 3 + b[2], L.MAX_SIZE)
    case SingleLayout => StringAt(b, 2, L.MAX_SIZE)
    case StatusLayout => 4 <= |b|
    case AddressLayout => StringAt(b, 4, IP_SIZE) && StringAt(b, 5 + b[4], PORT_SIZE)
    case ListingLayout => 4 < |b| && 4 + b[4] <= |b|
    case NoLayout => false
  }

  /** What the unpackers make of a buffer, in a zeroed struct. */
  function Decode(layout: Layout, b: seq<byte>): (m: Message)
    requires Readable(layout, b)
    ensures m.Layout() == layout && m.tag == b[0] && m.FitsFields()
  {
    match layout
    case PairLayout => Pair(b[0], TextAt(b, 2), TextAt(b, 3 + b[2]))
    case SingleLayout => Single(b[0], TextAt(b, 2))
    case StatusLayout => Status(b[0], b[3])
    case AddressLayout => Address(b[0], b[3], TextAt(b, 4), TextAt(b, 5 + b[4]))
    case ListingLayout => Names(b[0], b[3], TextOf(b[4..4 + b[4]]))
  }

  // ----------------------------------------------------------------- the bytes by place

  /** Which tags share a layout. */
  lemma LayoutsByTag(tag: int)
    ensures LayoutOf(tag) ==
            if tag in [1, 3, 7, 9, 11] then PairLayout
            else if tag in [5, 13] then SingleLayout
            else if tag in [2, 4, 6, 12] then StatusLayout
            else if tag in [8, 10] then AddressLayout
            else if tag == 14 then ListingLayout
            else NoLayout
  {
  }

  /** A request with two strings: tag, length, then each string behind its own length. */
  lemma PairBytes(t: byte, u: CString, s: CString)
    requires |u| < 256 && |s| < 256
    ensures var b := Encode(Pair(t, u, s));
      && |b| == 4 + |u| + |s|
      && b[0] == t && b[1] == |b| % 256
      && b[2] == |u| && b[3..3 + |u|] == u
      && b[3 + |u|] == |s| && b[4 + |u|..] == s
  {
    var b := Encode(Pair(t, u, s));
    assert b == ([t, Byte(|b|), |u|] + u) + ([|s|] + s);
  }

  lemma SingleBytes(t: byte, u: CString)
    requires |u| < 256
    ensures var b := Encode(Single(t, u));
      && |b| == 3 + |u|
      && b[0] == t && b[1] == |b| % 256
      && b[2] == |u| && b[3..] == u
  {
    var b := Encode(Single(t, u));
    assert b == [t, Byte(|b|), |u|] + u;
  }

  lemma StatusBytes(t: byte, r: byte)
    ensures Encode(Status(t, r)) == [t, 4, 1, r]
  {
  }

  /** An address reply: the code in byte 3, then the address and the port behind their lengths. */
  lemma AddressBytes(t: byte, r: byte, i: CString, p: CString)
    requires |i| < 256 && |p| < 256
    ensures var b := Encode(Address(t, r, i, p));
      && |b| == 6 + |i| + |p|
      && b[0] == t && b[1] == |b| % 256 && b[2] == 1 && b[3] == r
      && b[4] == |i| && b[5..5 + |i|] == i
      && b[5 + |i|] == |p| && b[6 + |i|..] == p
  {
    var b := Encode(Address(t, r, i, p));
    assert b == ([t, Byte(|b|), 1, r, |i|] + i) + ([|p|] + p);
  }

  /** A listing reply: the names follow the code at once. */
  lemma NamesBytes(t: byte, r: byte, n: CString)
    ensures var b := Encode(Names(t, r, n));
      && |b| == 4 + |n|
      && b[0] == t && b[1] == |b| % 256 && b[2] == 1 && b[3] == r
      && b[4..] == n
  {
  }

  /** A string stands behind the length in byte 2, within the buffer and its field of 30 bytes. */
  predicate HoldsOne(b: seq<byte>) {
    3 <= |b| && 3 + b[2] <= |b| && b[2] <= 29
  }

  /** Another one stands behind the byte that follows it. */
  predicate HoldsTwo(b: seq<byte>) {
    && HoldsOne(b)
    && 4 + b[2] <= |b| && 4 + b[2] + b[3 + b[2]] <= |b| && b[3 + b[2]] <= 29
  }

  function FirstText(b: seq<byte>): CString
    requires HoldsOne(b)
  {
    TextOf(b[3..3 + b[2]])
  }

  function SecondText(b: seq<byte>): CString
    requires HoldsTwo(b)
  {
    TextOf(b[4 + b[2]..4 + b[2] + b[3 + b[2]]])
  }

  /** Which bytes can be read as a request, and where its strings are found. */
  lemma RequestsByPlace(b: seq<byte>)
    ensures Readable(SingleLayout, b) <==> HoldsOne(b)
    ensures Readable(PairLayout, b) <==> HoldsTwo(b)
    ensures HoldsOne(b) ==> Decode(SingleLayout, b) == Single(b[0], FirstText(b))
    ensures HoldsTwo(b) ==> Decode(PairLayout, b) == Pair(b[0], FirstText(b), SecondText(b))
  {
  }

  /** The same for the replies. */
  lemma RepliesByPlace(b: seq<byte>)
    ensures Readable(StatusLayout, b) <==> 4 <= |b|
    ensures Readable(StatusLayout, b) ==> Decode(StatusLayout, b) == Status(b[0], b[3])
    ensures Readable(AddressLayout, b) <==>
            && 5 <= |b| && 6 + b[4] <= |b| && b[4] <= 14
            && 6 + b[4] + b[5 + b[4]] <= |b| && b[5 + b[4]] <= 4
    ensures Readable(AddressLayout, b) ==>
              Decode(AddressLayout, b) ==
              Address(b[0], b[3], TextOf(b[5..5 + b[4]]), TextOf(b[6 + b[4]..6 + b[4] + b[5 + b[4]]]))
    ensures Readable(ListingLayout, b) <==> 5 <= |b| && 4 + b[4] <= |b|
    ensures Readable(ListingLayout, b) ==>
              Decode(ListingLayout, b) == Names(b[0], b[3], TextOf(b[4..4 + b[4]]))
  {
  }

  // ------------------------------------------------------------------------ round trips

  /** A length byte and its text, wherever they stand, are read as that text. */
  lemma TextFollows(b: seq<byte>, before: seq<byte>, t: CString, rest: seq<byte>)
    requires |t| < 256
    requires b == before + [|t|] + t + rest
    ensures b[|before|] == |t|
    ensures |before| + 1 + |t| <= |b|
    ensures TextAt(b, |before|) == t
  {
    var at := |before|;
    assert b[at] == |t|;
    assert b[at + 1..at + 1 + |t|] == t;
    TextOfCString(t);
  }

  /**
   Every message but a listing survives the wire, whatever follows it in the buffer: read under
   the layout of the buffer's own first byte, it is the message that was packed.
   */
  lemma RoundTrip(m: Message, tail: seq<byte>)
    requires m.WellFormed() && !m.Names?
    ensures var b := Encode(m) + tail;
      && Readable(LayoutOf(b[0]), b)
      && Decode(LayoutOf(b[0]), b) == m
  {
    RoundTripAs(m, tail);
  }

  /** The same whatever the tag, under the layout the packer was told. */
  lemma RoundTripAs(m: Message, tail: seq<byte>)
    requires m.FitsFields() && !m.Names?
    ensures Readable(m.Layout(), Encode(m) + tail)
    ensures Decode(m.Layout(), Encode(m) + tail) == m
  {
    match m
    case Pair(t, u, s) => PairRoundTrip(t, u, s, tail);
    case Single(t, u) =>
      assert Encode(m) + tail == [t, Byte(Size(m))] + [|u|] + u + tail;
      TextFollows(Encode(m) + tail, [t, Byte(Size(m))], u, tail);
    case Status(t, r) =>
    case Address(t, r, i, p) => AddressRoundTrip(t, r, i, p, tail);
  }

  lemma PairRoundTrip(t: byte, u: CString, s: CString, tail: seq<byte>)
    requires |u| < L.MAX_SIZE && |s| < L.MAX_SIZE
    ensures var b := Encode(Pair(t, u, s)) + tail;
      Readable(PairLayout, b) && Decode(PairLayout, b) == Pair(t, u, s)
  {
    var b := Encode(Pair(t, u, s)) + tail;
    var head := [t, Byte(|u| + |s| + 4)];
    assert b == head + [|u|] + u + ([|s|] + s + tail);
    TextFollows(b, head, u, [|s|] + s + tail);
    assert b == (head + [|u|] + u) + [|s|] + s + tail;
    TextFollows(b, head + [|u|] + u, s, tail);
  }

  lemma AddressRoundTrip(t: byte, r: byte, i: CString, p: CString, tail: seq<byte>)
    requires |i| < IP_SIZE && |p| < PORT_SIZE
    ensures var b := Encode(Address(t, r, i, p)) + tail;
      Readable(AddressLayout, b) && Decode(AddressLayout, b) == Address(t, r, i, p)
  {
    var b := Encode(Address(t, r, i, p)) + tail;
    var head := [t, Byte(6 + |i| + |p|), 1, r];
    assert b == head + [|i|] + i + ([|p|] + p + tail);
    TextFollows(b, head, i, [|p|] + p + tail);
    assert b == (head + [|i|] + i) + [|p|] + p + tail;
    TextFollows(b, head + [|i|] + i, p, tail);
  }

  // ------------------------------------------------------------------- the listing reply

  /** The number the unpacker takes for the length of the names: the names' own first byte. */
  function MistakenLength(names: CString): byte {
    if names == [] then 0 else names[0]
  }

  /**
   The listing reply as written: received into a zeroed buffer, its text comes out cut to the
   code of its own first byte, so it survives exactly when it is no longer than that.
   */
  lemma ListingAsWritten(tag: byte, reply: byte, names: CString, spare: nat)
    requires 256 <= spare
    ensures var b := Encode(Names(tag, reply, names)) + Zeros(spare);
      && Readable(ListingLayout, b)
      && Decode(ListingLayout, b) == Names(tag, reply, names[..Min(|names|, MistakenLength(names))])
      && (Decode(ListingLayout, b) == Names(tag, reply, names) <==> |names| <= MistakenLength(names))
  {
    var b := Encode(Names(tag, reply, names)) + Zeros(spare);
    var n := MistakenLength(names);
    assert b[4..] == names + Zeros(spare);
    assert b[4] == n;
    var field := b[4..4 + n];
    var kept := names[..Min(|names|, n)];
    assert kept <= field by {
      assert field == (names + Zeros(spare))[..n];
    }
    assert |kept| < |field| ==> field[|kept|] == 0;
    TextOfPrefix(field, kept);
  }

  /** The layout the comments describe, with the length of the names in byte 4. */
  function EncodeDocumented(m: Message): seq<byte>
    requires m.Names?
  {
    [m.tag, Byte(5 + |m.names|), 1, m.reply, Byte(|m.names|)] + m.names
  }

  function DecodeDocumented(b: seq<byte>): Message
    requires 4 < |b| && 5 + b[4] <= |b|
  {
    Names(b[0], b[3], TextAt(b, 4))
  }

  lemma DocumentedBytes(m: Message)
    requires m.Names? && |m.names| < 256
    ensures var b := EncodeDocumented(m);
      && |b| == 5 + |m.names|
      && b[0] == m.tag && b[1] == |b| % 256 && b[2] == 1 && b[3] == m.reply
      && b[4] == |m.names| && b[5..] == m.names
  {
  }

  /** It would carry every text up to 255 bytes, with a true length byte up to 250, and no more. */
  lemma ListingAsDocumented(m: Message, tail: seq<byte>)
    requires m.Names?
    ensures var b := EncodeDocumented(m) + tail;
      && 5 + b[4] <= |b|
      && (DecodeDocumented(b) == m <==> |m.names| <= 255)
      && (b[1] == |EncodeDocumented(m)| <==> |m.names| <= 250)
  {
    var b := EncodeDocumented(m) + tail;
    assert b[4] == |m.names| % 256;
    if |m.names| <= 255 {
      var head := [m.tag, Byte(5 + |m.names|), 1, m.reply];
      assert b == head + [|m.names|] + m.names + tail;
      TextFollows(b, head, m.names, tail);
    }
  }

  // ------------------------------------------------------------------------- framing

  /** Byte 1 tells the true length exactly when one byte can. */
  lemma LengthByte(m: Message)
    ensures Encode(m)[1] == |Encode(m)| <==> Size(m) <= 255
    ensures m.FitsFields() && !m.Names? ==> Size(m) <= 255
  {
    assert Encode(m)[1] == Byte(Size(m));
  }

  predicate Framed(m: Message) {
    m.WellFormed() && Size(m) <= 255
  }

  /** The packets of a stream, cut by their length bytes; cutting stops at a bad length. */
  function Packets(stream: seq<byte>): seq<seq<byte>> {
    if |stream| < 2 || stream[1] < 2 || |stream| < stream[1] then []
    else [stream[..stream[1]]] + Packets(stream[stream[1]..])
  }

  function EncodeAll(ms: seq<Message>): seq<byte> {
    if ms == [] then [] else Encode(ms[0]) + EncodeAll(ms[1..])
  }

  lemma EncodeInjective(m: Message, n: Message)
    requires m.WellFormed() && n.WellFormed()
    requires Encode(m) == Encode(n)
    ensures m == n
  {
    assert m.tag == Encode(m)[0] == n.tag;
    if m.Names? {
      assert m.names == Encode(m)[4..];
      assert n.names == Encode(n)[4..];
      assert m.reply == Encode(m)[3];
    } else {
      RoundTrip(m, []);
      RoundTrip(n, []);
      assert Encode(m) + [] == Encode(n) + [];
    }
  }

  /** No packed message begins another. */
  lemma PrefixFree(m: Message, n: Message)
    requires Framed(m) && Framed(n)
    requires Encode(m) <= Encode(n)
    ensures m == n
  {
    LengthByte(m);
    LengthByte(n);
    assert Encode(m) == Encode(n);
    EncodeInjective(m, n);
  }

  function EncodeEach(ms: seq<Message>): (packets: seq<seq<byte>>)
    ensures |packets| == |ms|
    ensures forall i :: 0 <= i < |ms| ==> packets[i] == Encode(ms[i])
  {
    seq(|ms|, i requires 0 <= i < |ms| => Encode(ms[i]))
  }

  lemma FirstPacket(m: Message, rest: seq<byte>)
    requires Framed(m)
    ensures Packets(Encode(m) + rest) == [Encode(m)] + Packets(rest)
  {
    LengthByte(m);
    var stream := Encode(m) + rest;
    assert stream[1] == Encode(m)[1] == |Encode(m)|;
    assert stream[..|Encode(m)|] == Encode(m);
    assert stream[|Encode(m)|..] == rest;
  }

  lemma EncodeEachStep(ms: seq<Message>)
    requires ms != []
    ensures EncodeEach(ms) == [Encode(ms[0])] + EncodeEach(ms[1..])
  {
    hide *;
  }

  /** Cutting a stream of packed messages by their length bytes finds exactly those messages. */
  lemma {:induction false} PacketsOfStream(ms: seq<Message>)
    requires forall m :: m in ms ==> Framed(m)
    ensures Packets(EncodeAll(ms)) == EncodeEach(ms)
  {
    if ms == [] {
      assert EncodeEach(ms) == [];
    } else {
      assert ms[0] in ms;
      FirstPacket(ms[0], EncodeAll(ms[1..]));
      PacketsOfStream(ms[1..]);
      EncodeEachStep(ms);
    }
  }

  /** A stream of packed messages can be taken apart in one way only. */
  lemma StreamInjective(ms: seq<Message>, ns: seq<Message>)
    requires forall m :: m in ms || m in ns ==> Framed(m)
    requires EncodeAll(ms) == EncodeAll(ns)
    ensures ms == ns
  {
    PacketsOfStream(ms);
    PacketsOfStream(ns);
    assert |ms| == |EncodeEach(ms)| == |ns|;
    forall i | 0 <= i < |ms| ensures ms[i] == ns[i] {
      assert EncodeEach(ms)[i] == Encode(ms[i]) && EncodeEach(ns)[i] == Encode(ns[i]);
      SameMessage(ms[i], ns[i], ms, ns);
    }
  }

  lemma SameMessage(m: Message, n: Message, ms: seq<Message>, ns: seq<Message>)
    requires m in ms && n in ns
    requires forall m :: m in ms || m in ns ==> Framed(m)
    requires Encode(m) == Encode(n)
    ensures m == n
  {
    assert Framed(m) && Framed(n);
    EncodeInjective(m, n);
  }
}
