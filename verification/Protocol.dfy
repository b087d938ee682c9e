/**
 The packers and unpackers: message structs with fixed-width text fields, and byte buffers
 written and read in place. The two request layouts with two strings are one here, since their
 routines differ in nothing but the names of the fields.
 */
module Protocol {
  import opened CStrings
  import opened Wire
  import L = Listing

  /** A text field as calloc leaves it. */
  ghost predicate Zeroed(field: array<byte>)
    reads field
  {
    field[..] == Zeros(field.Length)
  }

  /** `after` is `before` with `piece` written over it from the start of the buffer. */
  ghost predicate Begins(after: seq<byte>, piece: seq<byte>, before: seq<byte>) {
    |piece| <= |before| && after == piece + before[|piece|..]
  }

  // ---------------------------------------------------------------------- text fields

  /**
   Writes a field's length and text at `place`, and moves past them: what was `head` over the
   buffer's contents `before` is now `head`, the length and the text over them.
   */
  method PutText(buffer: array<byte>, place: nat, field: array<byte>,
                 ghost head: seq<byte>, ghost before: seq<byte>)
    returns (next: nat)
    requires buffer != field
    requires Terminated(field[..])
    requires place + 1 + |TextOf(field[..])| <= buffer.Length
    requires Begins(buffer[..], head, before) && |head| == place
    modifies buffer
    ensures next == place + 1 + |TextOf(field[..])|
    ensures Begins(buffer[..], head + [Byte(|TextOf(field[..])|)] + TextOf(field[..]), before)
  {
    ghost var t := TextOf(field[..]);
    var length := Strlen(field);
    buffer[place] := Byte(length);
    ghost var now := buffer[..];
    assert now == head + [Byte(length)] + before[place + 1..];
    assert field[0..length] == t;
    TextOfCString(t);
    Strncpy(buffer, place + 1, field, 0, length);
    next := place + 1 + length;
    Written(buffer[..], now, before, head + [Byte(length)], t);
  }

  lemma Written(after: seq<byte>, now: seq<byte>, before: seq<byte>, head: seq<byte>, text: seq<byte>)
    requires Begins(now, head, before)
    requires |head| + |text| <= |before|
    requires after == now[..|head|] + text + now[|head| + |text|..]
    ensures Begins(after, head + text, before)
  {
    assert now[..|head|] == head;
    assert now[|head| + |text|..] == before[|head| + |text|..];
  }

  /** A zeroed field that has been copied into holds the text that was copied, terminated. */
  lemma Filled(now: seq<byte>, was: seq<byte>, chunk: seq<byte>)
    requires |chunk| < |was|
    requires was == Zeros(|was|)
    requires now == Padded(chunk) + was[|chunk|..]
    ensures Terminated(now) && TextOf(now) == TextOf(chunk)
  {
    assert was[|chunk|..] == Zeros(|was| - |chunk|);
    PaddedField(chunk, |was| - |chunk|);
  }

  /** strncpy(field, &buffer[from], length), for a field wider than the text. */
  method CopyOut(field: array<byte>, buffer: array<byte>, from: nat, length: nat)
    requires buffer != field
    requires from + length <= buffer.Length && length < field.Length
    modifies field
    ensures field[..] == Padded(buffer[..][from..from + length]) + old(field[..])[length..]
    ensures old(Zeroed(field)) ==>
              Terminated(field[..]) && TextOf(field[..]) == TextOf(buffer[..][from..from + length])
  {
    ghost var was := field[..];
    ghost var chunk := buffer[..][from..from + length];
    assert chunk == buffer[from..from + length];
    Strncpy(field, 0, buffer, from, length);
    assert field[..] == Padded(chunk) + was[length..];
    if was == Zeros(field.Length) {
      Filled(field[..], was, chunk);
    }
  }

  /** Reads a length at `place` and that much text into a field, and moves past them. */
  method TakeText(field: array<byte>, buffer: array<byte>, place: nat) returns (next: nat)
    requires buffer != field
    requires StringAt(buffer[..], place, field.Length)
    modifies field
    ensures next == place + 1 + buffer[..][place]
    ensures old(Zeroed(field)) ==> Terminated(field[..]) && TextOf(field[..]) == TextAt(buffer[..], place)
  {
    assert buffer[..][place] == buffer[place];
    var length := buffer[place];
    CopyOut(field, buffer, place + 1, length);
    next := place + 1 + length;
  }

  // ---------------------------------------------------------------------- two strings

  class PairStruct {
    var tag: byte
    const username: array<byte>
    const second: array<byte>

    ghost predicate Shape() {
      username.Length == L.MAX_SIZE && second.Length == L.MAX_SIZE && username != second
    }

    ghost predicate Strings()
      reads username, second
    {
      Shape() && Terminated(username[..]) && Terminated(second[..])
    }

    ghost predicate Blank()
      reads username, second
    {
      Zeroed(username) && Zeroed(second)
    }

    ghost function Value(): Message
      reads this, username, second
    {
      Pair(tag, TextOf(username[..]), TextOf(second[..]))
    }

    constructor Calloc()
      ensures Shape() && fresh(username) && fresh(second) && Blank()
    {
      tag := 0;
      username := new byte[L.MAX_SIZE](_ => 0);
      second := new byte[L.MAX_SIZE](_ => 0);
    }

    method Pack(buffer: array<byte>) returns (size: nat)
      requires Strings()
      requires buffer != username && buffer != second
      requires Size(Value()) <= buffer.Length
      modifies buffer
      ensures size == Size(Value())
      ensures Begins(buffer[..], Encode(Value()), old(buffer[..]))
    {
      ghost var was := buffer[..];
      ghost var u, s := TextOf(username[..]), TextOf(second[..]);
      ghost var m := Value();
      var lengthUserName := Strlen(username);
      var lengthSecond := Strlen(second);
      size := lengthUserName + lengthSecond + 4;
      buffer[0] := tag;
      buffer[1] := Byte(size);
      ghost var head := [tag, Byte(size)];
      assert Begins(buffer[..], head, was);
      assert Encode(m) == head + [Byte(|u|)] + u + [Byte(|s|)] + s;
      hide *;
      var place := PutText(buffer, 2, username, head, was);
      assert second[..] == old(second[..]);
      place := PutText(buffer, place, second, head + [Byte(|u|)] + u, was);
      assert Value() == m;
    }

    method Unpack(buffer: array<byte>)
      requires Shape()
      requires buffer != username && buffer != second
      requires Readable(PairLayout, buffer[..])
      modifies this, username, second
      ensures old(Blank()) ==> Strings() && Value() == Decode(PairLayout, buffer[..])
    {
      tag := buffer[0];
      assert buffer[..][2] == buffer[2];
      var place := TakeText(username, buffer, 2);
      place := TakeText(second, buffer, place);
    }
  }

  // ----------------------------------------------------------------------- one string

  class SingleStruct {
    var tag: byte
    const username: array<byte>

    ghost predicate Shape() {
      username.Length == L.MAX_SIZE
    }

    ghost predicate Strings()
      reads username
    {
      Shape() && Terminated(username[..])
    }

    ghost predicate Blank()
      reads username
    {
      Zeroed(username)
    }

    ghost function Value(): Message
      reads this, username
    {
      Single(tag, TextOf(username[..]))
    }

    constructor Calloc()
      ensures Shape() && fresh(username) && Blank()
    {
      tag := 0;
      username := new byte[L.MAX_SIZE](_ => 0);
    }

    method Pack(buffer: array<byte>) returns (size: nat)
      requires Strings()
      requires buffer != username
      requires Size(Value()) <= buffer.Length
      modifies buffer
      ensures size == Size(Value())
      ensures Begins(buffer[..], Encode(Value()), old(buffer[..]))
    {
      ghost var was := buffer[..];
      ghost var u := TextOf(username[..]);
      var lengthUserName := Strlen(username);
      size := lengthUserName + 3;
      buffer[0] := tag;
      buffer[1] := Byte(size);
      ghost var head := [tag, Byte(size)];
      assert Begins(buffer[..], head, was);
      var _ := PutText(buffer, 2, username, head, was);
      assert head + [Byte(|u|)] + u == Encode(Value());
    }

    method Unpack(buffer: array<byte>)
      requires Shape()
      requires buffer != username
      requires Readable(SingleLayout, buffer[..])
      modifies this, username
      ensures old(Blank()) ==> Strings() && Value() == Decode(SingleLayout, buffer[..])
    {
      tag := buffer[0];
      var _ := TakeText(username, buffer, 2);
    }
  }

  // ---------------------------------------------------------------------- plain reply

  class StatusStruct {
    var tag: byte
    var reply: byte

    constructor (t: byte, r: byte)
      ensures Value() == Status(t, r)
    {
      tag, reply := t, r;
    }

    ghost function Value(): Message
      reads this
    {
      Status(tag, reply)
    }

    method Pack(buffer: array<byte>) returns (size: int)
      requires 4 <= buffer.Length
      modifies buffer
      ensures if LayoutOf(tag) == StatusLayout
              then size == 4 && Begins(buffer[..], Encode(Value()), old(buffer[..]))
              else size == -1 && buffer[..] == old(buffer[..])
    {
      if !(tag == REGISTER_REPLY || tag == LOGIN_REPLY || tag == LOGOUT_REPLY || tag == GROUP_LEAVE_REPLY) {
        return -1;
      }
      ghost var was := buffer[..];
      buffer[0] := tag;
      buffer[1] := 4;
      buffer[2] := 1;
      buffer[3] := reply;
      assert buffer[..4] == Encode(Value());
      assert buffer[..] == buffer[..4] + was[4..];
      return 4;
    }

    method Unpack(buffer: array<byte>)
      requires Readable(StatusLayout, buffer[..])
      modifies this
      ensures Value() == Decode(StatusLayout, buffer[..])
    {
      tag := buffer[0];
      reply := buffer[3];
    }
  }

  // -------------------------------------------------------------------- address reply

  class AddressStruct {
    var tag: byte
    var reply: byte
    const ip: array<byte>
    const port: array<byte>

    ghost predicate Shape() {
      ip.Length == IP_SIZE && port.Length == PORT_SIZE && ip != port
    }

    ghost predicate Strings()
      reads ip, port
    {
      Shape() && Terminated(ip[..]) && Terminated(port[..])
    }

    ghost predicate Blank()
      reads ip, port
    {
      Zeroed(ip) && Zeroed(port)
    }

    ghost function Value(): Message
      reads this, ip, port
    {
      Address(tag, reply, TextOf(ip[..]), TextOf(port[..]))
    }

    constructor Calloc()
      ensures Shape() && fresh(ip) && fresh(port) && Blank()
    {
      tag, reply := 0, 0;
      ip := new byte[IP_SIZE](_ => 0);
      port := new byte[PORT_SIZE](_ => 0);
    }

    /** Has no check of its own on the tag, so one layout serves both of its tags. */
    method Pack(buffer: array<byte>) returns (size: nat)
      requires Strings()
      requires buffer != ip && buffer != port
      requires Size(Value()) <= buffer.Length
      modifies buffer
      ensures size == Size(Value())
      ensures Begins(buffer[..], Encode(Value()), old(buffer[..]))
    {
      ghost var was := buffer[..];
      ghost var i, p := TextOf(ip[..]), TextOf(port[..]);
      ghost var m := Value();
      var ipLength := Strlen(ip);
      var portLength := Strlen(port);
      size := 5 + 1 + ipLength + portLength;
      buffer[0] := tag;
      buffer[1] := Byte(size);
      buffer[2] := 1;
      buffer[3] := reply;
      ghost var head := [tag, Byte(size), 1, reply];
      assert Begins(buffer[..], head, was);
      assert Encode(m) == head + [Byte(|i|)] + i + [Byte(|p|)] + p;
      hide *;
      var place := PutText(buffer, 4, ip, head, was);
      assert port[..] == old(port[..]);
      place := PutText(buffer, place, port, head + [Byte(|i|)] + i, was);
      assert Value() == m;
    }

    method Unpack(buffer: array<byte>)
      requires Shape()
      requires buffer != ip && buffer != port
      requires Readable(AddressLayout, buffer[..])
      modifies this, ip, port
      ensures old(Blank()) ==> Strings() && Value() == Decode(AddressLayout, buffer[..])
    {
      tag := buffer[0];
      reply := buffer[3];
      assert buffer[..][4] == buffer[4];
      var place := TakeText(ip, buffer, 4);
      place := TakeText(port, buffer, place);
    }
  }

  // -------------------------------------------------------------------- listing reply

  class NamesStruct {
    var tag: byte
    var reply: byte
    const names: array<byte>

    ghost predicate Shape() {
      names.Length == L.MAX_SIZE_GROUPS
    }

    ghost predicate Strings()
      reads names
    {
      Shape() && Terminated(names[..])
    }

    ghost predicate Blank()
      reads names
    {
      Zeroed(names)
    }

    ghost function Value(): Message
      reads this, names
    {
      Names(tag, reply, TextOf(names[..]))
    }

    constructor Calloc()
      ensures Shape() && fresh(names) && Blank()
    {
      tag, reply := 0, 0;
      names := new byte[L.MAX_SIZE_GROUPS](_ => 0);
    }

    /** Writes the names without their length. */
    method Pack(buffer: array<byte>) returns (size: int)
      requires Strings()
      requires buffer != names
      requires Size(Value()) <= buffer.Length
      modifies buffer
      ensures if tag == GROUP_ALL_AVAILABLE_REPLY
              then size == Size(Value()) && Begins(buffer[..], Encode(Value()), old(buffer[..]))
              else size == -1 && buffer[..] == old(buffer[..])
    {
      if tag != GROUP_ALL_AVAILABLE_REPLY {
        return -1;
      }
      ghost var was := buffer[..];
      ghost var n := TextOf(names[..]);
      var groupNamesLength := Strlen(names);
      size := 4 + groupNamesLength;
      buffer[0] := tag;
      buffer[1] := Byte(size);
      buffer[2] := 1;
      buffer[3] := reply;
      ghost var head := [tag, Byte(size), 1, reply];
      assert Begins(buffer[..], head, was);
      ghost var m := Value();
      assert Encode(m) == head + n;
      hide *;
      ghost var now := buffer[..];
      assert names[0..groupNamesLength] == n;
      TextOfCString(n);
      Strncpy(buffer, 4, names, 0, groupNamesLength);
      Written(buffer[..], now, was, head, n);
      assert Value() == m;
    }

    /** Takes the byte where the names begin for their length. */
    method Unpack(buffer: array<byte>)
      requires Shape()
      requires buffer != names
      requires Readable(ListingLayout, buffer[..])
      modifies this, names
      ensures old(Blank()) ==> Strings() && Value() == Decode(ListingLayout, buffer[..])
    {
      tag := buffer[0];
      reply := buffer[3];
      assert buffer[..][4] == buffer[4];
      var lengthGroupNames := buffer[4];
      CopyOut(names, buffer, 4, lengthGroupNames);
    }
  }

  // ------------------------------------------------------------------------- dispatch

  /** The untyped message pointer: which struct it is to be read as comes from the tag argument. */
  datatype Struct =
    | PairPtr(pair: PairStruct)
    | SinglePtr(single: SingleStruct)
    | StatusPtr(status: StatusStruct)
    | AddressPtr(address: AddressStruct)
    | NamesPtr(names: NamesStruct)
  {
    function Layout(): Layout {
      match this
      case PairPtr(_) => PairLayout
      case SinglePtr(_) => SingleLayout
      case StatusPtr(_) => StatusLayout
      case AddressPtr(_) => AddressLayout
      case NamesPtr(_) => ListingLayout
    }

    ghost function Fields(): set<array<byte>> {
      match this
      case PairPtr(p) => {p.username, p.second}
      case SinglePtr(s) => {s.username}
      case StatusPtr(_) => {}
      case AddressPtr(a) => {a.ip, a.port}
      case NamesPtr(n) => {n.names}
    }

    ghost function Object(): object {
      match this
      case PairPtr(p) => p
      case SinglePtr(s) => s
      case StatusPtr(s) => s
      case AddressPtr(a) => a
      case NamesPtr(n) => n
    }

    ghost predicate Shape() {
      match this
      case PairPtr(p) => p.Shape()
      case SinglePtr(s) => s.Shape()
      case StatusPtr(_) => true
      case AddressPtr(a) => a.Shape()
      case NamesPtr(n) => n.Shape()
    }

    ghost predicate Strings()
      reads Fields()
    {
      Shape() && forall f :: f in Fields() ==> Terminated(f[..])
    }

    ghost predicate Blank()
      reads Fields()
    {
      forall f :: f in Fields() ==> Zeroed(f)
    }

    ghost function Value(): Message
      reads Object(), Fields()
    {
      match this
      case PairPtr(p) => p.Value()
      case SinglePtr(s) => s.Value()
      case StatusPtr(s) => s.Value()
      case AddressPtr(a) => a.Value()
      case NamesPtr(n) => n.Value()
    }
  }

  /** Plain replies and listings are packed only under a tag of their own. */
  predicate PackerAccepts(m: Message) {
    && (m.Status? ==> LayoutOf(m.tag) == StatusLayout)
    && (m.Names? ==> m.tag == GROUP_ALL_AVAILABLE_REPLY)
  }

  /** The layout is chosen by `tag`, the bytes by the struct, whose own tag may be another. */
  method ProtocolPack(message: Struct, buffer: array<byte>, tag: int) returns (size: int)
    requires LayoutOf(tag) in {NoLayout, message.Layout()}
    requires buffer !in message.Fields()
    requires 1 <= tag <= 14 ==> message.Strings() && Size(message.Value()) <= buffer.Length
    modifies buffer
    ensures message.Value() == old(message.Value())
    ensures if 1 <= tag <= 14 && PackerAccepts(message.Value())
            then size == Size(message.Value())
                 && Begins(buffer[..], Encode(message.Value()), old(buffer[..]))
            else size == -1 && buffer[..] == old(buffer[..])
  {
    hide Encode, Begins, TextOf;
    if tag < 1 || tag > 14 {
      return -1;
    }
    if tag == REGISTER_REQUEST || tag == LOGIN_REQUEST {
      size := message.pair.Pack(buffer);
    } else if tag == LOGOUT_REQUEST || tag == GROUP_ALL_AVAILABLE_REQUEST {
      size := message.single.Pack(buffer);
    } else if tag == GROUP_CREATE_REQUEST || tag == GROUP_JOIN_REQUEST || tag == GROUP_LEAVE_REQUEST {
      size := message.pair.Pack(buffer);
    } else if tag == REGISTER_REPLY || tag == LOGIN_REPLY || tag == LOGOUT_REPLY || tag == GROUP_LEAVE_REPLY {
      size := message.status.Pack(buffer);
    } else if tag == GROUP_CREATE_REPLY || tag == GROUP_JOIN_REPLY {
      size := message.address.Pack(buffer);
    } else {
      size := message.names.Pack(buffer);
    }
  }

  method ProtocolUnpack(message: Struct, buffer: array<byte>, tag: int) returns (result: int)
    requires LayoutOf(tag) in {NoLayout, message.Layout()}
    requires message.Shape() && buffer !in message.Fields()
    requires 1 <= tag <= 14 ==> Readable(LayoutOf(tag), buffer[..])
    modifies message.Object(), message.Fields()
    ensures result == if 1 <= tag <= 14 then 0 else -1
    ensures 1 <= tag <= 14 && old(message.Blank()) ==>
              message.Strings() && message.Value() == Decode(LayoutOf(tag), buffer[..])
    ensures !(1 <= tag <= 14) ==> message.Value() == old(message.Value())
  {
    hide Decode, Readable, TextOf;
    if tag < 1 || tag > 14 {
      return -1;
    }
    result := 0;
    if tag == REGISTER_REQUEST || tag == LOGIN_REQUEST {
      message.pair.Unpack(buffer);
    } else if tag == LOGOUT_REQUEST || tag == GROUP_ALL_AVAILABLE_REQUEST {
      message.single.Unpack(buffer);
    } else if tag == GROUP_CREATE_REQUEST || tag == GROUP_JOIN_REQUEST || tag == GROUP_LEAVE_REQUEST {
      message.pair.Unpack(buffer);
    } else if tag == REGISTER_REPLY || tag == LOGIN_REPLY || tag == LOGOUT_REPLY || tag == GROUP_LEAVE_REPLY {
      message.status.Unpack(buffer);
    } else if tag == GROUP_CREATE_REPLY || tag == GROUP_JOIN_REPLY {
      message.address.Unpack(buffer);
    } else {
      message.names.Unpack(buffer);
    }
  }

  method ProtocolGetTag(buffer: array<byte>) returns (tag: int)
    requires 0 < buffer.Length
    ensures tag == buffer[..][0]
  {
    tag := buffer[0];
  }
}
