/**
 The text of a group listing: every name followed by a comma and a space.
 */
module Listing {
  import opened CStrings
  import opened Decimal

  const COMMA: byte := 44
  const SPACE: byte := 32
  const SEPARATOR: CString := [COMMA, SPACE]

  lemma SeparatorSpelled()
    ensures Spells(SEPARATOR, ", ")
  {
  }

  /** MAX_SIZE and MAX_SIZE_GROUPS of the protocol: field widths, terminator included. */
  const MAX_SIZE := 30
  const MAX_SIZE_GROUPS := 1000

  /** The listing of `names` in the order given. */
  function Text(names: seq<CString>): CString {
    if names == [] then [] else names[0] + SEPARATOR + Text(names[1..])
  }

  lemma {:induction false} TextAppend(names: seq<CString>, name: CString)
    ensures Text(names + [name]) == Text(names) + name + SEPARATOR
  {
    if names == [] {
      assert Text([name][1..]) == [];
    } else {
      TextAppend(names[1..], name);
      assert (names + [name])[1..] == names[1..] + [name];
    }
  }

  lemma {:induction false} TextPrefix(names: seq<CString>, i: nat)
    requires i <= |names|
    ensures |Text(names[..i])| <= |Text(names)|
  {
    if i > 0 {
      TextPrefix(names[1..], i - 1);
      assert names[..i][1..] == names[1..][..i - 1];
    }
  }

  /** `order` lists every element of `names` exactly once. */
  ghost predicate Orders(order: seq<CString>, names: set<CString>) {
    && Distinct(order)
    && (forall n :: n in order <==> n in names)
  }

  /** Bytes needed to list a set of names, whatever the order. */
  ghost function ListedLength(names: set<CString>): nat {
    if names == {} then 0
    else
      var n :| n in names;
      |n| + |SEPARATOR| + ListedLength(names - {n})
  }

  lemma {:induction false} ListedLengthRemove(names: set<CString>, n: CString)
    requires n in names
    ensures ListedLength(names) == |n| + |SEPARATOR| + ListedLength(names - {n})
  {
    var m :| m in names && ListedLength(names) == |m| + |SEPARATOR| + ListedLength(names - {m});
    if m != n {
      ListedLengthRemove(names - {m}, n);
      ListedLengthRemove(names - {n}, m);
      assert names - {m} - {n} == names - {n} - {m};
    }
  }

  /** The exact length of the text of any listing of a set of names. */
  lemma {:induction false} TextLength(order: seq<CString>, names: set<CString>)
    requires Orders(order, names)
    ensures |Text(order)| == ListedLength(names)
  {
    if order == [] {
      assert names == {};
    } else {
      var n, rest := order[0], order[1..];
      assert n in names;
      ListedLengthRemove(names, n);
      forall x ensures x in rest <==> x in names - {n} {
        if x in names - {n} {
          var k :| 0 <= k < |order| && order[k] == x;
          assert rest[k - 1] == x;
        }
      }
      TextLength(rest, names - {n});
    }
  }

  lemma {:induction false} ListedLengthBound(names: set<CString>)
    requires forall n :: n in names ==> |n| < MAX_SIZE
    ensures ListedLength(names) <= (MAX_SIZE + 1) * |names|
  {
    if names != {} {
      var n :| n in names;
      ListedLengthRemove(names, n);
      ListedLengthBound(names - {n});
    }
  }

  /** `k` distinct names of the greatest length a field can hold. */
  ghost function LongNames(k: nat): (names: set<CString>)
    requires k < 256
  {
    set i: byte | 0 < i <= k :: LongName(i)
  }

  function LongName(i: byte): (n: CString)
    requires i != 0
    ensures |n| == MAX_SIZE - 1 && n[0] == i
  {
    [i] + seq(MAX_SIZE - 2, _ => 97)
  }

  lemma OneLongNameMore(k: nat)
    requires 0 < k < 256
    ensures LongName(k) in LongNames(k)
    ensures LongNames(k) - {LongName(k)} == LongNames(k - 1)
  {
    assert LongName(k) in LongNames(k);
    forall x | x in LongNames(k - 1) ensures x in LongNames(k) && x != LongName(k) {
    }
  }

  lemma {:induction false} LongNamesLength(k: nat)
    requires k < 256
    ensures |LongNames(k)| == k
    ensures ListedLength(LongNames(k)) == (MAX_SIZE + 1) * k
  {
    if k == 0 {
      assert LongNames(0) == {};
    } else {
      LongNamesLength(k - 1);
      OneLongNameMore(k);
      ListedLengthRemove(LongNames(k), LongName(k));
    }
  }

  /** Listings of up to `k` names always fit the reply's text field exactly when k <= 32. */
  lemma ThirtyTwoNamesFit(k: nat)
    ensures (forall names: set<CString> ::
               |names| <= k && (forall n :: n in names ==> |n| < MAX_SIZE) ==>
                 ListedLength(names) < MAX_SIZE_GROUPS)
            <==> k <= 32
  {
    if k <= 32 {
      forall names: set<CString> | |names| <= k && (forall n :: n in names ==> |n| < MAX_SIZE)
        ensures ListedLength(names) < MAX_SIZE_GROUPS
      {
        ListedLengthBound(names);
      }
    } else {
      LongNamesLength(33);
    }
  }

  /** Reads a listing back: the names before each comma-space. */
  function Split(text: seq<byte>): (names: seq<seq<byte>>) {
    SplitFrom(text, [])
  }

  /** `name` is the part already read of the name that `text` goes on with. */
  function SplitFrom(text: seq<byte>, name: seq<byte>): seq<seq<byte>>
    decreases |text|
  {
    if |text| < 2 then []
    else if text[0] == COMMA && text[1] == SPACE then [name] + SplitFrom(text[2..], [])
    else SplitFrom(text[1..], name + [text[0]])
  }

  /** No comma-space inside; a name without spaces is such a name. */
  predicate Unbroken(name: seq<byte>) {
    forall i :: 0 <= i < |name| - 1 ==> !(name[i] == COMMA && name[i + 1] == SPACE)
  }

  lemma {:induction false} SplitFromName(rest: seq<byte>, name: seq<byte>, tail: seq<byte>)
    requires Unbroken(rest)
    ensures SplitFrom(rest + SEPARATOR + tail, name) == [name + rest] + SplitFrom(tail, [])
    decreases |rest|
  {
    var text := rest + SEPARATOR + tail;
    if rest == [] {
      assert text[2..] == tail && name + rest == name;
    } else {
      assert text[1] == if |rest| > 1 then rest[1] else COMMA;
      assert text[1..] == rest[1..] + SEPARATOR + tail;
      assert name + [rest[0]] + rest[1..] == name + rest;
      SplitFromName(rest[1..], name + [rest[0]], tail);
    }
  }

  lemma {:induction false} SplitIsUnbroken(text: seq<byte>, name: seq<byte>)
    requires Unbroken(name)
    requires name != [] && text != [] ==> !(name[|name| - 1] == COMMA && text[0] == SPACE)
    ensures forall n :: n in SplitFrom(text, name) ==> Unbroken(n)
    decreases |text|
  {
    if |text| >= 2 {
      if text[0] == COMMA && text[1] == SPACE {
        SplitIsUnbroken(text[2..], []);
      } else {
        SplitIsUnbroken(text[1..], name + [text[0]]);
      }
    }
  }

  lemma {:induction false} SplitUnbroken(names: seq<CString>)
    requires forall n :: n in names ==> Unbroken(n)
    ensures Split(Text(names)) == names
  {
    if names != [] {
      assert names[0] in names;
      SplitFromName(names[0], [], Text(names[1..]));
      SplitUnbroken(names[1..]);
      assert [] + names[0] == names[0];
    }
  }

  /** A listing reads back as its names, in order, exactly when no name holds a comma-space. */
  lemma SplitText(names: seq<CString>)
    ensures Split(Text(names)) == names <==> forall n :: n in names ==> Unbroken(n)
  {
    if forall n :: n in names ==> Unbroken(n) {
      SplitUnbroken(names);
    } else {
      SplitIsUnbroken(Text(names), []);
    }
  }

  /** Names as the client reads them, with no space, are told apart by their listing. */
  lemma TextInjective(a: seq<CString>, b: seq<CString>)
    requires forall n :: n in a || n in b ==> SPACE !in n
    requires Text(a) == Text(b)
    ensures a == b
  {
    SplitText(a);
    SplitText(b);
  }
}
