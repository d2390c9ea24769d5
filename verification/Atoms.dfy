/** Control-message atoms (libnabud/atom.c, libnabud/nabuctl_proto.h): the serializer and the
    stateful parser undo each other. */
module Atoms {
  import opened Bytes
  import opened Options

  const TYPE_VOID := 0
  const TYPE_STRING := 1
  const TYPE_NUMBER := 2
  const TYPE_BLOB := 3
  const TYPE_BOOL := 4

  const DONE := 0
  const ERROR := 0x00ff_ffff
  const OBJ_CHANNEL := 0x1_0000
  const OBJ_CONNECTION := 0x2_0000

  const MAX_BLOB := 65536
  const MAX_NUMBER := 19  // sizeof("0xffffffffffffffff")
  const MAX_LIST := 128 * 1024
  const INLINE := 8       // sizeof(void *)

  type tag = x: int | 0 <= x <= 0xffff_ffff

  datatype Atom = Atom(tag: tag, data: bytes)

  /** NABUCTL_TYPE, as the value of the top byte. */
  function TypeOf(t: tag): nat { t / 0x100_0000 }

  /** NABUCTL_OBJ: the object bits, in place. */
  function ObjOf(t: tag): nat { t / 0x1_0000 % 256 * 0x1_0000 }

  predicate LengthOk(t: tag, len: nat) {
    var ty := TypeOf(t);
    if ty == TYPE_VOID then len == 0
    else if ty == TYPE_STRING || ty == TYPE_BLOB then 0 < len <= MAX_BLOB
    else if ty == TYPE_NUMBER then 0 < len <= MAX_NUMBER
    else ty == TYPE_BOOL && len == 1
  }

  predicate AtomOk(a: Atom) {
    && LengthOk(a.tag, |a.data|)
    && (TypeOf(a.tag) == TYPE_STRING || TypeOf(a.tag) == TYPE_NUMBER ==> a.data[|a.data| - 1] == 0)
  }

  /** What atom_recv accepts, type by type: nothing, a terminated text, a terminated number, a
      blob, one byte. */
  lemma AtomOkExactly(a: Atom)
    ensures var ty, n := TypeOf(a.tag), |a.data|;
      AtomOk(a) <==>
        || (ty == TYPE_VOID && a.data == [])
        || (ty == TYPE_STRING && n <= MAX_BLOB && exists s: bytes :: a.data == s + [0])
        || (ty == TYPE_NUMBER && n <= MAX_NUMBER && exists s: bytes :: a.data == s + [0])
        || (ty == TYPE_BLOB && 0 < n <= MAX_BLOB)
        || (ty == TYPE_BOOL && n == 1)
  {
    if a.data != [] && a.data[|a.data| - 1] == 0 {
      assert a.data == a.data[..|a.data| - 1] + [0];
    }
  }

  // ----- Atoms on the wire -----

  function Encode(a: Atom): bytes
    requires |a.data| <= UINT32_MAX
  {
    SetU32Be(a.tag) + SetU32Be(|a.data|) + a.data
  }

  /** On the wire: tag and length, most significant byte first, and the data. */
  lemma EncodeLayout(a: Atom)
    requires |a.data| <= UINT32_MAX
    ensures var e := Encode(a);
      && |e| == 8 + |a.data| && e[8..] == a.data
      && Big(e[..4]) == a.tag && Big(e[4..8]) == |a.data|
  {
    WordsDenote(a.tag);
    WordsDenote(|a.data|);
    assert Encode(a)[..4] == SetU32Be(a.tag) && Encode(a)[4..8] == SetU32Be(|a.data|);
  }

  /** atom_recv: None covers both a malformed header and a stream that ends early. */
  function Decode(s: bytes): Option<(Atom, bytes)> {
    if |s| < 8 then None
    else
      var t, len := GetU32Be(s[..4]), GetU32Be(s[4..8]);
      if !LengthOk(t, len) || |s| - 8 < len then None
      else if !AtomOk(Atom(t, s[8..8 + len])) then None
      else Some((Atom(t, s[8..8 + len]), s[8 + len..]))
  }

  lemma DecodeEncode(a: Atom, rest: bytes, s: bytes)
    requires AtomOk(a) && s == Encode(a) + rest
    ensures Decode(s) == Some((a, rest))
  {
    assert s[..4] == SetU32Be(a.tag) && s[4..8] == SetU32Be(|a.data|);
    U32BeInverse(a.tag, SetU32Be(0));
    U32BeInverse(|a.data|, SetU32Be(0));
    assert s[8..8 + |a.data|] == a.data && s[8 + |a.data|..] == rest;
  }

  lemma EncodeDecode(s: bytes)
    requires Decode(s).Some?
    ensures var (a, rest) := Decode(s).value; AtomOk(a) && s == Encode(a) + rest
  {
    var (a, rest) := Decode(s).value;
    U32BeInverse(0, s[..4]);
    U32BeInverse(0, s[4..8]);
    assert s == s[..4] + s[4..8] + s[8..8 + |a.data|] + rest;
  }

  // ----- Lists on the wire -----

  predicate Sendable(atoms: seq<Atom>) { forall a :: a in atoms ==> |a.data| <= UINT32_MAX }

  function EncodeAll(atoms: seq<Atom>): bytes
    requires Sendable(atoms)
  {
    if atoms == [] then [] else Encode(atoms[0]) + EncodeAll(atoms[1..])
  }

  datatype Verdict = Stop | Bad | Continue(objtype: nat)

  /** The switch on the tag in atom_list_recv. */
  function Classify(t: tag, objtype: nat): Verdict {
    if t == DONE then (if objtype == 0 then Stop else Continue(0))
    else if t == ERROR then Stop
    else if t == OBJ_CHANNEL || t == OBJ_CONNECTION then (if objtype != 0 then Bad else Continue(t))
    else if ObjOf(t) != objtype then Bad
    else Continue(objtype)
  }

  /** What atom_list_recv makes of a stream, given the open object and the bytes so far. */
  function DecodeList(s: bytes, objtype: nat, total: nat): Option<(seq<Atom>, bytes)>
    decreases |s|
  {
    match Decode(s)
    case None => None
    case Some((a, rest)) =>
      if total + |a.data| > MAX_LIST then None
      else match Classify(a.tag, objtype)
        case Stop => Some(([a], rest))
        case Bad => None
        case Continue(o) =>
          Prefixed([a], DecodeList(rest, o, total + |a.data|))
  }

  /** Lists the protocol allows from a parser state on. */
  predicate WellFormedFrom(atoms: seq<Atom>, objtype: nat, total: nat)
    decreases |atoms|
  {
    && atoms != []
    && AtomOk(atoms[0])
    && total + |atoms[0].data| <= MAX_LIST
    && match Classify(atoms[0].tag, objtype)
       case Stop => |atoms| == 1
       case Bad => false
       case Continue(o) => WellFormedFrom(atoms[1..], o, total + |atoms[0].data|)
  }

  lemma EncodeAllCons(atoms: seq<Atom>, rest: bytes)
    requires atoms != [] && Sendable(atoms)
    ensures EncodeAll(atoms) + rest == Encode(atoms[0]) + (EncodeAll(atoms[1..]) + rest)
  {
    ConcatAssociative(Encode(atoms[0]), EncodeAll(atoms[1..]), rest);
  }

  /** `s` is `atoms`, one after the other, and then `rest`. */
  predicate Reads(s: bytes, atoms: seq<Atom>, rest: bytes)
    decreases |atoms|
  {
    if atoms == [] then s == rest
    else match Decode(s)
      case None => false
      case Some((a, tail)) => a == atoms[0] && Reads(tail, atoms[1..], rest)
  }

  predicate AllOk(atoms: seq<Atom>) { forall a :: a in atoms ==> AtomOk(a) }

  lemma {:induction false} ReadsEncoded(s: bytes, atoms: seq<Atom>, rest: bytes)
    requires Sendable(atoms) && AllOk(atoms) && s == EncodeAll(atoms) + rest
    ensures Reads(s, atoms, rest)
    decreases |atoms|
  {
    if atoms == [] {
      assert s == rest;
    } else {
      var tail := EncodeAll(atoms[1..]) + rest;
      EncodeAllCons(atoms, rest);
      DecodeEncode(atoms[0], tail, s);
      ReadsEncoded(tail, atoms[1..], rest);
    }
  }

  lemma {:induction false} EncodesRead(s: bytes, atoms: seq<Atom>, rest: bytes)
    requires Reads(s, atoms, rest)
    ensures Sendable(atoms) && s == EncodeAll(atoms) + rest
    decreases |atoms|
  {
    if atoms == [] {
      assert s == [] + rest;
    } else {
      EncodeDecode(s);
      EncodesRead(Decode(s).value.1, atoms[1..], rest);
      EncodeAllCons(atoms, rest);
    }
  }

  lemma {:induction false} WellFormedOk(atoms: seq<Atom>, objtype: nat, total: nat)
    requires WellFormedFrom(atoms, objtype, total)
    ensures Sendable(atoms) && AllOk(atoms)
    decreases |atoms|
  {
    match Classify(atoms[0].tag, objtype)
    case Stop =>
    case Bad =>
    case Continue(o) =>
      WellFormedOk(atoms[1..], o, total + |atoms[0].data|);
      assert forall a :: a in atoms ==> a == atoms[0] || a in atoms[1..];
  }

  /** The parser accepts what reads as a well-formed list, and nothing else. */
  lemma {:induction false} AcceptsWellFormed(s: bytes, objtype: nat, total: nat, atoms: seq<Atom>, rest: bytes)
    requires WellFormedFrom(atoms, objtype, total) && Reads(s, atoms, rest)
    ensures DecodeList(s, objtype, total) == Some((atoms, rest))
    decreases |atoms|
  {
    var (a, tail) := Decode(s).value;
    assert atoms == [a] + atoms[1..];
    match Classify(a.tag, objtype)
    case Stop => assert atoms[1..] == [] && atoms == [a];
    case Bad =>
    case Continue(o) => AcceptsWellFormed(tail, o, total + |a.data|, atoms[1..], rest);
  }

  lemma {:induction false} AcceptedIsWellFormed(s: bytes, objtype: nat, total: nat, atoms: seq<Atom>, rest: bytes)
    requires DecodeList(s, objtype, total) == Some((atoms, rest))
    ensures WellFormedFrom(atoms, objtype, total) && Reads(s, atoms, rest)
    decreases |s|
  {
    var (a, tail) := Decode(s).value;
    match Classify(a.tag, objtype)
    case Stop => assert atoms == [a] && atoms[1..] == [];
    case Bad =>
    case Continue(o) =>
      var as' := DecodeList(tail, o, total + |a.data|).value.0;
      AcceptedIsWellFormed(tail, o, total + |a.data|, as', rest);
      assert atoms == [a] + as' && atoms[1..] == as';
  }

  /** The accepted streams are exactly the sendings of well-formed lists, list and rest included. */
  lemma AcceptedExactly(s: bytes, atoms: seq<Atom>, rest: bytes)
    ensures DecodeList(s, 0, 0) == Some((atoms, rest))
       <==> WellFormedFrom(atoms, 0, 0) && Sendable(atoms) && s == EncodeAll(atoms) + rest
  {
    if WellFormedFrom(atoms, 0, 0) && Sendable(atoms) && s == EncodeAll(atoms) + rest {
      WellFormedOk(atoms, 0, 0);
      ReadsEncoded(s, atoms, rest);
      AcceptsWellFormed(s, 0, 0, atoms, rest);
    }
    if DecodeList(s, 0, 0) == Some((atoms, rest)) {
      AcceptedIsWellFormed(s, 0, 0, atoms, rest);
      EncodesRead(s, atoms, rest);
    }
  }

  // ----- What a well-formed list is, as a grammar -----

  /** A top-level field, or an object: its opening atom, its fields, a closing DONE. */
  datatype Item = Field(atom: Atom) | Object(objtype: tag, fields: seq<Atom>)

  /** DONE, or ERROR: at the top level or inside an object that is still open. */
  datatype Ending = Finished | Failed | FailedInside(objtype: tag, fields: seq<Atom>)

  const DONE_ATOM := Atom(DONE, [])
  const ERROR_ATOM := Atom(ERROR, [])

  function FlattenItem(i: Item): seq<Atom> {
    match i
    case Field(a) => [a]
    case Object(t, fields) => [Atom(t, [])] + (fields + [DONE_ATOM])
  }

  function FlattenEnding(e: Ending): seq<Atom> {
    match e
    case Finished => [DONE_ATOM]
    case Failed => [ERROR_ATOM]
    case FailedInside(t, fields) => [Atom(t, [])] + (fields + [ERROR_ATOM])
  }

  function Flatten(items: seq<Item>, e: Ending): seq<Atom> {
    if items == [] then FlattenEnding(e) else FlattenItem(items[0]) + Flatten(items[1..], e)
  }

  predicate IsObject(t: tag) { t == OBJ_CHANNEL || t == OBJ_CONNECTION }

  /** A field of the object `o` (0: of the message itself). */
  predicate PlainField(a: Atom, o: nat) {
    AtomOk(a) && a.tag != DONE && a.tag != ERROR && !IsObject(a.tag) && ObjOf(a.tag) == o
  }

  predicate PlainFields(fields: seq<Atom>, o: nat) { forall a :: a in fields ==> PlainField(a, o) }

  predicate ItemOk(i: Item) {
    match i
    case Field(a) => PlainField(a, 0)
    case Object(t, fields) => IsObject(t) && PlainFields(fields, t)
  }

  predicate EndingOk(e: Ending) {
    e.FailedInside? ==> IsObject(e.objtype) && PlainFields(e.fields, e.objtype)
  }

  predicate ItemsOk(items: seq<Item>) { forall i :: i in items ==> ItemOk(i) }

  function Total(atoms: seq<Atom>): nat {
    if atoms == [] then 0 else |atoms[0].data| + Total(atoms[1..])
  }

  lemma {:induction false} TotalConcat(x: seq<Atom>, y: seq<Atom>)
    ensures Total(x + y) == Total(x) + Total(y)
  {
    if x == [] {
      assert x + y == y;
    } else {
      TotalConcat(x[1..], y);
      assert (x + y)[1..] == x[1..] + y;
    }
  }

  lemma WellFormedCons(a: Atom, as': seq<Atom>, objtype: nat, total: nat)
    ensures WellFormedFrom([a] + as', objtype, total) <==>
      AtomOk(a) && total + |a.data| <= MAX_LIST &&
      match Classify(a.tag, objtype)
      case Stop => as' == []
      case Bad => false
      case Continue(o) => WellFormedFrom(as', o, total + |a.data|)
  {
    assert ([a] + as')[1..] == as';
  }

  lemma {:induction false} FieldsThen(fields: seq<Atom>, rest: seq<Atom>, o: nat, total: nat)
    requires PlainFields(fields, o)
    requires WellFormedFrom(rest, o, total + Total(fields))
    ensures WellFormedFrom(fields + rest, o, total)
    decreases |fields|
  {
    if fields == [] {
      assert fields + rest == rest;
    } else {
      var a := fields[0];
      assert PlainField(a, o);
      FieldsThen(fields[1..], rest, o, total + |a.data|);
      WellFormedFits(rest, o, total + Total(fields));
      WellFormedCons(a, fields[1..] + rest, o, total);
      assert fields + rest == [a] + (fields[1..] + rest);
    }
  }

  lemma WellFormedFits(atoms: seq<Atom>, o: nat, total: nat)
    requires WellFormedFrom(atoms, o, total)
    ensures total <= MAX_LIST
  {
  }

  lemma TerminatorThen(t: tag, rest: seq<Atom>, o: nat, total: nat)
    requires t == DONE || t == ERROR
    requires total <= MAX_LIST
    requires if t == ERROR || o == 0 then rest == [] else WellFormedFrom(rest, 0, total)
    ensures WellFormedFrom([Atom(t, [])] + rest, o, total)
  {
    WellFormedCons(Atom(t, []), rest, o, total);
  }

  /** An object, closed by DONE or cut short by ERROR, in front of what follows it. */
  lemma ObjectThen(t: tag, fields: seq<Atom>, last: tag, rest: seq<Atom>, total: nat)
    requires IsObject(t) && PlainFields(fields, t) && (last == DONE || last == ERROR)
    requires total + Total(fields) <= MAX_LIST
    requires if last == ERROR then rest == [] else WellFormedFrom(rest, 0, total + Total(fields))
    ensures WellFormedFrom([Atom(t, [])] + (fields + [Atom(last, [])]) + rest, 0, total)
  {
    TerminatorThen(last, rest, t, total + Total(fields));
    FieldsThen(fields, [Atom(last, [])] + rest, t, total);
    WellFormedCons(Atom(t, []), fields + ([Atom(last, [])] + rest), 0, total);
    assert [Atom(t, [])] + (fields + [Atom(last, [])]) + rest == [Atom(t, [])] + (fields + ([Atom(last, [])] + rest));
  }

  lemma EndingIsWellFormed(e: Ending, total: nat)
    requires EndingOk(e) && total + Total(FlattenEnding(e)) <= MAX_LIST
    ensures WellFormedFrom(FlattenEnding(e), 0, total)
  {
    if e.FailedInside? {
      TotalConcat([Atom(e.objtype, [])], e.fields + [ERROR_ATOM]);
      TotalConcat(e.fields, [ERROR_ATOM]);
      ObjectThen(e.objtype, e.fields, ERROR, [], total);
      assert FlattenEnding(e) + [] == FlattenEnding(e);
    } else {
      var t := if e.Finished? then DONE else ERROR;
      TerminatorThen(t, [], 0, total);
      assert [Atom(t, [])] + [] == FlattenEnding(e);
    }
  }

  lemma ItemThen(i: Item, rest: seq<Atom>, total: nat)
    requires ItemOk(i) && WellFormedFrom(rest, 0, total + Total(FlattenItem(i)))
    ensures WellFormedFrom(FlattenItem(i) + rest, 0, total)
  {
    WellFormedFits(rest, 0, total + Total(FlattenItem(i)));
    match i
    case Field(a) =>
      assert [a][1..] == [] && Total([a]) == |a.data|;
      WellFormedCons(a, rest, 0, total);
      assert FlattenItem(i) + rest == [a] + rest;
    case Object(t, fields) =>
      TotalConcat([Atom(t, [])], fields + [DONE_ATOM]);
      TotalConcat(fields, [DONE_ATOM]);
      ObjectThen(t, fields, DONE, rest, total);
  }

  lemma {:induction false} GrammarIsWellFormed(items: seq<Item>, e: Ending, total: nat)
    requires ItemsOk(items) && EndingOk(e) && total + Total(Flatten(items, e)) <= MAX_LIST
    ensures WellFormedFrom(Flatten(items, e), 0, total)
    decreases |items|
  {
    if items == [] {
      EndingIsWellFormed(e, total);
    } else {
      var i, rest := items[0], Flatten(items[1..], e);
      TotalConcat(FlattenItem(i), rest);
      GrammarIsWellFormed(items[1..], e, total + Total(FlattenItem(i)));
      ItemThen(i, rest, total);
    }
  }

  /** Splits an open object off a well-formed list. */
  lemma {:induction false} CloseObject(atoms: seq<Atom>, o: tag, total: nat)
    returns (fields: seq<Atom>, last: tag, rest: seq<Atom>)
    requires IsObject(o) && WellFormedFrom(atoms, o, total)
    ensures PlainFields(fields, o) && (last == DONE || last == ERROR)
    ensures atoms == fields + [Atom(last, [])] + rest
    ensures if last == ERROR then rest == [] else WellFormedFrom(rest, 0, total + Total(fields))
    decreases |atoms|
  {
    var a := atoms[0];
    assert atoms == [a] + atoms[1..];
    if a.tag == DONE || a.tag == ERROR {
      assert a == Atom(a.tag, []);
      fields, last, rest := [], a.tag, atoms[1..];
    } else {
      var fs;
      fs, last, rest := CloseObject(atoms[1..], o, total + |a.data|);
      fields := [a] + fs;
      assert fields[1..] == fs;
    }
  }

  /** Every well-formed list is a sequence of fields and objects with an ending. */
  lemma {:induction false} WellFormedIsGrammar(atoms: seq<Atom>, total: nat) returns (items: seq<Item>, e: Ending)
    requires WellFormedFrom(atoms, 0, total)
    ensures ItemsOk(items) && EndingOk(e) && Flatten(items, e) == atoms
    decreases |atoms|
  {
    var a := atoms[0];
    assert atoms == [a] + atoms[1..];
    if a.tag == DONE || a.tag == ERROR {
      items, e := [], if a.tag == DONE then Finished else Failed;
      assert a == Atom(a.tag, []) && atoms == [a];
    } else if IsObject(a.tag) {
      var fields, last, rest := CloseObject(atoms[1..], a.tag, total);
      assert a == Atom(a.tag, []);
      if last == ERROR {
        items, e := [], FailedInside(a.tag, fields);
        assert fields + [ERROR_ATOM] + [] == fields + [ERROR_ATOM];
      } else {
        var more;
        more, e := WellFormedIsGrammar(rest, total + Total(fields));
        items := [Object(a.tag, fields)] + more;
        assert items[1..] == more;
        assert [a] + (fields + [DONE_ATOM] + rest) == [a] + (fields + [DONE_ATOM]) + rest;
      }
    } else {
      var more;
      more, e := WellFormedIsGrammar(atoms[1..], total + |a.data|);
      items := [Field(a)] + more;
      assert items[1..] == more;
    }
  }

  lemma {:induction false} WellFormedTotal(atoms: seq<Atom>, o: nat, total: nat)
    requires WellFormedFrom(atoms, o, total)
    ensures total + Total(atoms) <= MAX_LIST
    decreases |atoms|
  {
    match Classify(atoms[0].tag, o)
    case Stop => assert atoms[1..] == [];
    case Bad =>
    case Continue(o') => WellFormedTotal(atoms[1..], o', total + |atoms[0].data|);
  }

  /** The parser's language is the protocol's grammar within the size limit. */
  lemma WellFormedExactly(atoms: seq<Atom>)
    ensures WellFormedFrom(atoms, 0, 0) <==>
      Total(atoms) <= MAX_LIST &&
      exists items, e :: ItemsOk(items) && EndingOk(e) && Flatten(items, e) == atoms
  {
    if WellFormedFrom(atoms, 0, 0) {
      WellFormedTotal(atoms, 0, 0);
      var items, e := WellFormedIsGrammar(atoms, 0);
    }
    if Total(atoms) <= MAX_LIST &&
       exists items, e :: ItemsOk(items) && EndingOk(e) && Flatten(items, e) == atoms {
      var items, e :| ItemsOk(items) && EndingOk(e) && Flatten(items, e) == atoms;
      GrammarIsWellFormed(items, e, 0);
    }
  }

  // ----- The list object -----

  function Prefixed(got: seq<Atom>, r: Option<(seq<Atom>, bytes)>): Option<(seq<Atom>, bytes)> {
    match r
    case None => None
    case Some((atoms, rest)) => Some((got + atoms, rest))
  }

  lemma PrefixedTwice(x: seq<Atom>, y: seq<Atom>, r: Option<(seq<Atom>, bytes)>)
    ensures Prefixed(x, Prefixed(y, r)) == Prefixed(x + y, r)
  {
    if r.Some? {
      ConcatAssociative(x, y, r.value.0);
    }
  }

  lemma PrefixedNothing(r: Option<(seq<Atom>, bytes)>)
    ensures Prefixed([], r) == r
  {
    if r.Some? {
      assert [] + r.value.0 == r.value.0;
    }
  }

  /** The digits snprintf's %llx prints, as bytes. */
  function HexDigits(v: nat): (s: bytes) {
    var d := v % 16;
    var c := if d < 10 then 48 + d else 87 + d;
    if v < 16 then [c] else HexDigits(v / 16) + [c]
  }

  /** The value of a digit; 16 if it is none. */
  function DigitValue(c: byte): nat {
    if 48 <= c <= 57 then c as int - 48
    else if 97 <= c <= 102 then c as int - 87
    else 16
  }

  /** What a sequence of hexadecimal digits denotes. */
  function Denoted(s: bytes): nat {
    if s == [] then 0 else 16 * Denoted(s[..|s| - 1]) + DigitValue(s[|s| - 1])
  }

  /** The digits printed denote the number, and there are no superfluous ones. */
  lemma {:induction false} HexDenotes(v: nat)
    ensures Denoted(HexDigits(v)) == v && HexDigits(v) != [] && (forall c :: c in HexDigits(v) ==> DigitValue(c) < 16)
    ensures v > 0 ==> HexDigits(v)[0] != 48
  {
    var s := HexDigits(v);
    if v >= 16 {
      HexDenotes(v / 16);
      assert s[..|s| - 1] == HexDigits(v / 16);
    } else {
      assert s[..|s| - 1] == [];
    }
  }

  function HexString(v: nat): bytes { [48, 120] + HexDigits(v) }

  function Pow16(n: nat): nat { if n == 0 then 1 else 16 * Pow16(n - 1) }

  lemma {:induction false} HexLength(v: nat, n: nat)
    requires n > 0 && v < Pow16(n)
    ensures 0 < |HexDigits(v)| <= n
    decreases n
  {
    if v >= 16 {
      assert n > 1;
      HexLength(v / 16, n - 1);
    }
  }

  /** atom_send. */
  method SendAtom(a: Atom) returns (out: bytes)
    requires |a.data| <= UINT32_MAX
    ensures out == Encode(a)
  {
    out := SetU32Be(a.tag) + SetU32Be(|a.data|);
    if |a.data| != 0 {
      out := out + a.data;
    }
  }

  class AtomList {
    var list: seq<Atom>
    var count: nat

    ghost predicate Valid()
      reads this
    {
      count == |list|
    }

    constructor ()
      ensures Valid() && list == []
    {
      list, count := [], 0;
    }

    /** atom_list_append; the first precondition is its assertions, the second the range of the
        length field. A boolean is stored inline in eight zeroed bytes, of which only the first
        is written; what a longer one reads as beyond them is not specified. */
    method Append(t: tag, buf: bytes)
      requires Valid() && (TypeOf(t) == TYPE_VOID) == (|buf| == 0) && |buf| <= UINT32_MAX
      modifies this
      ensures Valid() && |list| == |old(list)| + 1 && list[..|old(list)|] == old(list)
      ensures var a := list[|old(list)|];
        && a.tag == t && |a.data| == |buf|
        && (TypeOf(t) != TYPE_BOOL ==> a.data == buf)
        && (TypeOf(t) == TYPE_BOOL ==>
              && a.data[0] == (if buf[0] != 0 then 1 else 0)
              && (forall i :: 1 <= i < Min(|buf|, INLINE) ==> a.data[i] == 0)
              && (AtomOk(a) <==> |buf| == 1))
    {
      var data := buf;
      if TypeOf(t) == TYPE_BOOL {
        data := [if buf[0] != 0 then 1 else 0] + Zeros(|buf| - 1);
      }
      list := list + [Atom(t, data)];
      count := count + 1;
    }

    /** atom_list_append_string: the terminator is part of the atom. What it appends is accepted
        by atom_recv exactly when it is short enough. */
    method AppendString(t: tag, str: bytes)
      requires Valid() && TypeOf(t) == TYPE_STRING && |str| < UINT32_MAX
      modifies this
      ensures Valid() && list == old(list) + [Atom(t, str + [0])]
      ensures AtomOk(list[|list| - 1]) <==> |str| < MAX_BLOB
    {
      Append(t, str + [0]);
    }

    /** atom_list_append_number: what it appends always fits what atom_recv accepts. */
    method AppendNumber(t: tag, val: nat)
      requires Valid() && TypeOf(t) == TYPE_NUMBER && val < 0x1_0000_0000_0000_0000
      modifies this
      ensures Valid() && list == old(list) + [Atom(t, HexString(val) + [0])]
      ensures AtomOk(list[|list| - 1])
    {
      assert Pow16(4) == 0x1_0000 && Pow16(8) == 0x1_0000_0000 && Pow16(12) == 0x1_0000_0000_0000;
      assert Pow16(16) == 0x1_0000_0000_0000_0000;
      HexLength(val, 16);
      Append(t, HexString(val) + [0]);
    }

    /** atom_list_send. */
    method Send() returns (out: bytes)
      requires Valid() && Sendable(list)
      ensures out == EncodeAll(list)
    {
      out := [];
      assert list[0..] == list;
      for i := 0 to |list|
        invariant out + EncodeAll(list[i..]) == EncodeAll(list)
      {
        assert list[i..][1..] == list[i + 1..];
        var sent := SendAtom(list[i]);
        ConcatAssociative(out, sent, EncodeAll(list[i + 1..]));
        out := out + sent;
      }
    }

    /** atom_list_recv: on failure everything on the list is freed. */
    method Receive(stream: bytes) returns (ok: bool, rest: bytes)
      requires Valid()
      modifies this
      ensures Valid()
      ensures ok <==> DecodeList(stream, 0, 0).Some?
      ensures ok ==> var (atoms, end) := DecodeList(stream, 0, 0).value;
        list == old(list) + atoms && rest == end
      ensures !ok ==> list == []
    {
      var total: nat, objtype: nat := 0, 0;
      rest := stream;
      ghost var got: seq<Atom> := [];
      PrefixedNothing(DecodeList(stream, 0, 0));
      while true
        invariant Valid() && list == old(list) + got
        invariant DecodeList(stream, 0, 0) == Prefixed(got, DecodeList(rest, objtype, total))
        decreases |rest|
      {
        var d := Decode(rest);
        if d.None? {
          break;
        }
        var (a, tail) := d.value;
        list := list + [a];
        count := count + 1;
        total := total + |a.data|;
        if total > MAX_LIST {
          break;
        }
        match Classify(a.tag, objtype) {
          case Stop =>
            rest := tail;
            return true, rest;
          case Bad =>
            break;
          case Continue(o) =>
            PrefixedTwice(got, [a], DecodeList(tail, o, total));
            objtype := o;
        }
        got := got + [a];
        rest := tail;
      }
      list, count := [], 0;
      ok := false;
    }
  }
}
