/** The node record on the wire: length-prefixed name, host and decimal port inside a frame whose
    first byte is its length. Lengths go through a char, which may be signed or unsigned. */
module NodeCodec {
  import opened Wrappers
  import opened Identifier

  const MAX_DATA_LENGTH: nat := 1024

  datatype NodeRecord = NodeRecord(name: seq<Byte>, host: seq<Byte>, port: nat)

  datatype Frame = Frame(code: Byte, length: nat, buffer: seq<Byte>)

  /** Reading a char as an int. */
  function ToInt(c: Byte, signed: bool): int {
    if signed && c >= 128 then c - 256 else c
  }

  /** The largest length a char carries. */
  function MaxLength(signed: bool): nat {
    if signed then 127 else 255
  }

  function Decimal(n: nat): (s: seq<Byte>)
    ensures |s| > 0 && forall i :: 0 <= i < |s| ==> 48 <= s[i] <= 57
  {
    if n < 10 then [48 + n] else Decimal(n / 10) + [48 + n % 10]
  }

  function Char(n: nat): Byte {
    n % 256
  }

  /** A char holds small numbers as they are, and larger ones as if 256 had been taken away. */
  lemma CharWraps(n: nat)
    ensures n < 256 ==> Char(n) == n
    ensures Char(n + 256) == Char(n)
  {
  }

  function Serialize(n: NodeRecord): seq<Byte> {
    Prefixed(n.name) + Prefixed(n.host) + Prefixed(Decimal(n.port))
  }

  /** A field after its length. */
  function Prefixed(x: seq<Byte>): seq<Byte> {
    [Char(|x|)] + x
  }

  function CreateMessage(code: Byte, payload: seq<Byte>): seq<Byte> {
    [Char(1 + |payload|)] + [code] + payload
  }

  /** Length, code, payload. */
  lemma MessageLayout(code: Byte, payload: seq<Byte>)
    ensures var m := CreateMessage(code, payload);
      |m| == 2 + |payload| && m[0] == Char(1 + |payload|) && m[1] == code && m[2..] == payload
  {
  }

  /** Printed numbers, most significant digit first. */
  lemma DecimalExamples()
    ensures Decimal(0) == [48] && Decimal(8) == [56] && Decimal(80) == [56, 48] && Decimal(8000) == [56, 48, 48, 48]
  {
    assert Decimal(800) == [56, 48, 48];
  }

  lemma {:induction false} NoLeadingZero(n: nat)
    requires n > 0
    ensures Decimal(n)[0] != 48
  {
    if n >= 10 {
      NoLeadingZero(n / 10);
    }
  }

  // ----- atoi

  predicate IsSpace(c: Byte) {
    c == 32 || 9 <= c <= 13
  }

  predicate IsDigit(c: Byte) {
    48 <= c <= 57
  }

  function SkipSpace(s: seq<Byte>): seq<Byte> {
    if s != [] && IsSpace(s[0]) then SkipSpace(s[1..]) else s
  }

  /** The leading digits, after those already read. */
  function DigitsFrom(s: seq<Byte>, value: nat): nat
    decreases |s|
  {
    if s != [] && IsDigit(s[0]) then DigitsFrom(s[1..], 10 * value + (s[0] - 48)) else value
  }

  /** The number at the front of a string; nothing where it does not fit an int. */
  function Atoi(s: seq<Byte>): Option<int> {
    var t := SkipSpace(s);
    var negative := t != [] && t[0] == 45;
    var digits := if t != [] && (t[0] == 45 || t[0] == 43) then t[1..] else t;
    var v: int := DigitsFrom(digits, 0);
    if v >= 0x8000_0000 then None else Some(if negative then 0 - v else v)
  }

  lemma {:induction false} DigitsConcat(a: seq<Byte>, c: Byte, value: nat)
    requires IsDigit(c) && forall i :: 0 <= i < |a| ==> IsDigit(a[i])
    ensures DigitsFrom(a + [c], value) == 10 * DigitsFrom(a, value) + (c - 48)
    decreases |a|
  {
    if a == [] {
      assert [c][1..] == [];
    } else {
      assert (a + [c])[1..] == a[1..] + [c];
      DigitsConcat(a[1..], c, 10 * value + (a[0] - 48));
    }
  }

  lemma {:induction false} DigitsOfDecimal(n: nat)
    ensures DigitsFrom(Decimal(n), 0) == n
  {
    if n < 10 {
      assert Decimal(n)[1..] == [];
    } else {
      DigitsOfDecimal(n / 10);
      DigitsConcat(Decimal(n / 10), 48 + n % 10, 0);
    }
  }

  /** Reading a printed number gives it back. */
  lemma AtoiOfDecimal(n: nat)
    requires n < 0x8000_0000
    ensures Atoi(Decimal(n)) == Some(n)
  {
    DigitsOfDecimal(n);
  }

  lemma {:induction false} DigitsStop(s: seq<Byte>, rest: seq<Byte>, value: nat)
    requires (forall i :: 0 <= i < |s| ==> IsDigit(s[i])) && (rest == [] || !IsDigit(rest[0]))
    ensures DigitsFrom(s + rest, value) == DigitsFrom(s, value)
    decreases |s|
  {
    if s == [] {
      assert s + rest == rest;
    } else {
      assert (s + rest)[1..] == s[1..] + rest;
      DigitsStop(s[1..], rest, 10 * value + (s[0] - 48));
    }
  }

  lemma {:induction false} SpacesSkipped(spaces: seq<Byte>, s: seq<Byte>)
    requires (forall i :: 0 <= i < |spaces| ==> IsSpace(spaces[i])) && (s == [] || !IsSpace(s[0]))
    ensures SkipSpace(spaces + s) == s
  {
    if spaces == [] {
      assert spaces + s == s;
    } else {
      assert (spaces + s)[1..] == spaces[1..] + s;
      SpacesSkipped(spaces[1..], s);
    }
  }

  /** Reading a number passes over white space and takes a sign, stops after the digits, and gives
      nothing for numbers that do not fit. */
  lemma AtoiReads(spaces: seq<Byte>, sign: seq<Byte>, n: nat, rest: seq<Byte>)
    requires (forall i :: 0 <= i < |spaces| ==> IsSpace(spaces[i])) && (sign == [] || sign == [43] || sign == [45])
    requires rest == [] || !IsDigit(rest[0])
    ensures Atoi(spaces + (sign + (Decimal(n) + rest)))
         == if n >= 0x8000_0000 then None else Some(if sign == [45] then 0 - n else n)
  {
    var digits := Decimal(n) + rest;
    assert digits[0] == Decimal(n)[0];
    SpacesSkipped(spaces, sign + digits);
    DigitsStop(Decimal(n), rest, 0);
    DigitsOfDecimal(n);
    if sign == [] {
      assert sign + digits == digits;
    } else {
      assert (sign + digits)[1..] == digits;
    }
  }

  lemma {:induction false} DecimalLength(n: nat, k: nat, bound: nat)
    requires n < bound && k > 0 && bound == Pow10(k)
    ensures |Decimal(n)| <= k
    decreases k
  {
    if n >= 10 {
      assert k > 1;
      DecimalLength(n / 10, k - 1, Pow10(k - 1));
    }
  }

  function Pow10(k: nat): nat {
    if k == 0 then 1 else 10 * Pow10(k - 1)
  }

  /** A port has at most ten digits. */
  lemma PortLength(port: nat)
    requires port < 0x8000_0000
    ensures |Decimal(port)| <= 10
  {
    DecimalLength(port, 10, Pow10(10));
  }

  // ----- parsing

  /** A length-prefixed field at a position, and the position after it. A negative length fails,
      and so does a field that is not all there. */
  function Field(serial: seq<Byte>, at: nat, signed: bool): Option<(seq<Byte>, nat)> {
    if at >= |serial| then None
    else
      var len := ToInt(serial[at], signed);
      if len < 0 || at + 1 + len > |serial| then None
      else Some((serial[at + 1..at + 1 + len], at + 1 + len))
  }

  /** The record at the front of a string: a receive buffer, or a reply of just its own length. */
  function Parse(serial: seq<Byte>, signed: bool): Option<NodeRecord> {
    match Field(serial, 0, signed)
    case None => None
    case Some((name, p)) =>
      match Field(serial, p, signed)
      case None => None
      case Some((host, q)) =>
        match Field(serial, q, signed)
        case None => None
        case Some((digits, _)) =>
          Record(name, host, digits)
  }

  /** The port is the number in the digits before any zero character. An empty name fails: the
      identifier is derived from the name, and the hash object takes no empty chunk. */
  function Record(name: seq<Byte>, host: seq<Byte>, digits: seq<Byte>): Option<NodeRecord> {
    if name == [] then None
    else
      match Atoi(CString(digits))
      case None => None
      case Some(v) => Some(NodeRecord(name, host, v % 0x1_0000_0000))
  }

  /** The characters before the first zero. */
  function CString(s: seq<Byte>): seq<Byte> {
    if s == [] || s[0] == 0 then [] else [s[0]] + CString(s[1..])
  }

  lemma {:induction false} CStringOfText(s: seq<Byte>)
    requires forall i :: 0 <= i < |s| ==> s[i] != 0
    ensures CString(s) == s
  {
    if s != [] {
      CStringOfText(s[1..]);
    }
  }

  /** The parsing constructor: a position moves over the three fields. */
  method ParseNode(serial: seq<Byte>, signed: bool) returns (r: Option<NodeRecord>)
    ensures r == Parse(serial, signed)
  {
    var position := 0;
    if position >= |serial| { return None; }
    var nameLen := ToInt(serial[position], signed);
    position := position + 1;
    if nameLen < 0 || position + nameLen > |serial| { return None; }
    var name := serial[position..position + nameLen];
    position := position + nameLen;
    ghost var p := position;
    FirstField(serial, signed, name, p);
    if position >= |serial| { return None; }
    var hostLen := ToInt(serial[position], signed);
    position := position + 1;
    if hostLen < 0 || position + hostLen > |serial| { return None; }
    var host := serial[position..position + hostLen];
    position := position + hostLen;
    ghost var q := position;
    TwoFields(serial, signed, name, p, host, q);
    if position >= |serial| { return None; }
    var portLen := ToInt(serial[position], signed);
    position := position + 1;
    if portLen < 0 || position + portLen > |serial| { return None; }
    var port := serial[position..position + portLen];
    ThreeFields(serial, signed, name, p, host, q, port, position + portLen);
    return Record(name, host, port);
  }

  lemma FirstField(b: seq<Byte>, signed: bool, name: seq<Byte>, p: nat)
    requires Field(b, 0, signed) == Some((name, p))
    ensures Field(b, p, signed).None? ==> Parse(b, signed).None?
  {
  }

  lemma TwoFields(b: seq<Byte>, signed: bool, name: seq<Byte>, p: nat, host: seq<Byte>, q: nat)
    requires Field(b, 0, signed) == Some((name, p)) && Field(b, p, signed) == Some((host, q))
    ensures Field(b, q, signed).None? ==> Parse(b, signed).None?
  {
  }

  /** A buffer of the given size that starts with s and is zero after it. */
  function Padded(s: seq<Byte>, size: nat): (b: seq<Byte>)
    ensures |b| >= size && |b| >= |s|
  {
    s + seq(if |s| < size then size - |s| else 0, _ => 0)
  }

  lemma WrongLength(serial: seq<Byte>, at: nat, signed: bool, len: nat)
    requires at < |serial| && serial[at] == Char(len)
    ensures len > MaxLength(signed) ==>
      Field(serial, at, signed).None? || |Field(serial, at, signed).value.0| != len
  {
  }

  /** A length-prefixed field stands at a position. */
  predicate FieldAt(b: seq<Byte>, at: nat, x: seq<Byte>) {
    at + 1 + |x| <= |b| && b[at] == Char(|x|) && b[at + 1..at + 1 + |x|] == x
  }

  /** Where the three fields stand in a printed record. */
  lemma Layout(n: NodeRecord, b: seq<Byte>, tail: seq<Byte>)
    requires b == Serialize(n) + tail
    ensures FieldAt(b, 0, n.name) && FieldAt(b, 1 + |n.name|, n.host)
    ensures FieldAt(b, 2 + |n.name| + |n.host|, Decimal(n.port))
  {
    var x, y, z := Prefixed(n.name), Prefixed(n.host), Prefixed(Decimal(n.port));
    Regroup(x, y, z, tail);
    Stacked(n.name, n.host, Decimal(n.port), tail);
  }

  lemma LayoutAlone(n: NodeRecord)
    ensures FieldAt(Serialize(n), 0, n.name) && FieldAt(Serialize(n), 1 + |n.name|, n.host)
  {
    var tail: seq<Byte> := [];
    assert Serialize(n) + tail == Serialize(n);
    Layout(n, Serialize(n), tail);
  }

  lemma Regroup(x: seq<Byte>, y: seq<Byte>, z: seq<Byte>, w: seq<Byte>)
    ensures x + y + z + w == x + (y + (z + w))
  {
  }

  lemma Stacked(x: seq<Byte>, y: seq<Byte>, z: seq<Byte>, tail: seq<Byte>)
    ensures var b := Prefixed(x) + (Prefixed(y) + (Prefixed(z) + tail));
      FieldAt(b, 0, x) && FieldAt(b, 1 + |x|, y) && FieldAt(b, 2 + |x| + |y|, z)
  {
    var rest := Prefixed(y) + (Prefixed(z) + tail);
    StackedTwo(y, z, tail);
    FieldInFront(x, rest);
    FieldBehind(Prefixed(x), rest, 0, y);
    FieldBehind(Prefixed(x), rest, 1 + |y|, z);
  }

  lemma StackedTwo(y: seq<Byte>, z: seq<Byte>, tail: seq<Byte>)
    ensures var b := Prefixed(y) + (Prefixed(z) + tail); FieldAt(b, 0, y) && FieldAt(b, 1 + |y|, z)
  {
    FieldInFront(y, Prefixed(z) + tail);
    FieldInFront(z, tail);
    FieldBehind(Prefixed(y), Prefixed(z) + tail, 0, z);
  }

  lemma FieldInFront(x: seq<Byte>, rest: seq<Byte>)
    ensures FieldAt(Prefixed(x) + rest, 0, x)
  {
  }

  lemma FieldBehind(a: seq<Byte>, b: seq<Byte>, at: nat, x: seq<Byte>)
    requires FieldAt(b, at, x)
    ensures FieldAt(a + b, |a| + at, x)
  {
    var i := |a| + at + 1;
    assert (a + b)[i..i + |x|] == b[at + 1..at + 1 + |x|];
  }

  /** Three readable fields make a record. */
  lemma ThreeFields(b: seq<Byte>, signed: bool, name: seq<Byte>, p: nat, host: seq<Byte>, q: nat, digits: seq<Byte>,
      e: nat)
    requires Field(b, 0, signed) == Some((name, p)) && Field(b, p, signed) == Some((host, q))
    requires Field(b, q, signed) == Some((digits, e))
    ensures Parse(b, signed) == Record(name, host, digits)
  {
  }

  lemma RecordOfDecimal(n: NodeRecord)
    requires n.port < 0x8000_0000 && n.name != []
    ensures |Decimal(n.port)| <= 10 && Record(n.name, n.host, Decimal(n.port)) == Some(n)
  {
    PortLength(n.port);
    AtoiOfDecimal(n.port);
    CStringOfText(Decimal(n.port));
  }

  /** A string parses exactly if three fields of lengths a char carries follow one another, the first
      is not empty and the last is a number; the record is then what they say. */
  lemma ParseMeans(b: seq<Byte>, signed: bool, n: NodeRecord)
    ensures Parse(b, signed) == Some(n) <==>
      && 0 < |n.name| <= MaxLength(signed) && FieldAt(b, 0, n.name)
      && |n.host| <= MaxLength(signed) && FieldAt(b, 1 + |n.name|, n.host)
      && exists digits :: |digits| <= MaxLength(signed) && FieldAt(b, 2 + |n.name| + |n.host|, digits)
                          && Atoi(CString(digits)).Some? && n.port == Atoi(CString(digits)).value % 0x1_0000_0000
  {
    if Parse(b, signed) == Some(n) {
      var digits := ParsedDigits(b, signed, n);
    }
    if 0 < |n.name| <= MaxLength(signed) && FieldAt(b, 0, n.name)
       && |n.host| <= MaxLength(signed) && FieldAt(b, 1 + |n.name|, n.host) {
      forall digits | |digits| <= MaxLength(signed) && FieldAt(b, 2 + |n.name| + |n.host|, digits)
        ensures Parse(b, signed) == Record(n.name, n.host, digits)
      {
        FieldsParse(n.name, n.host, digits, signed, b);
      }
    }
  }

  lemma ParsedDigits(b: seq<Byte>, signed: bool, n: NodeRecord) returns (digits: seq<Byte>)
    requires Parse(b, signed) == Some(n)
    ensures 0 < |n.name| <= MaxLength(signed) && FieldAt(b, 0, n.name)
    ensures |n.host| <= MaxLength(signed) && FieldAt(b, 1 + |n.name|, n.host)
    ensures |digits| <= MaxLength(signed) && FieldAt(b, 2 + |n.name| + |n.host|, digits)
    ensures Record(n.name, n.host, digits) == Some(n)
  {
    FieldReads(b, 0, signed);
    var (name, p) := Field(b, 0, signed).value;
    FieldReads(b, p, signed);
    var (host, q) := Field(b, p, signed).value;
    FieldReads(b, q, signed);
    digits := Field(b, q, signed).value.0;
    ThreeFields(b, signed, name, p, host, q, digits, q + 1 + |digits|);
  }

  lemma FieldReads(b: seq<Byte>, at: nat, signed: bool)
    ensures Field(b, at, signed).Some? ==>
      var (x, e) := Field(b, at, signed).value;
      FieldAt(b, at, x) && |x| <= MaxLength(signed) && e == at + 1 + |x|
  {
  }

  /** A record whose lengths fit is read back. */
  lemma ParsesBack(n: NodeRecord, signed: bool, b: seq<Byte>, tail: seq<Byte>)
    requires n.port < 0x8000_0000 && n.name != [] && b == Serialize(n) + tail
    requires |n.name| <= MaxLength(signed) && |n.host| <= MaxLength(signed)
    ensures Parse(b, signed) == Some(n)
  {
    Layout(n, b, tail);
    RecordOfDecimal(n);
    FieldsParse(n.name, n.host, Decimal(n.port), signed, b);
  }

  lemma FieldsParse(name: seq<Byte>, host: seq<Byte>, digits: seq<Byte>, signed: bool, b: seq<Byte>)
    requires |name| <= MaxLength(signed) && |host| <= MaxLength(signed) && |digits| <= MaxLength(signed)
    requires FieldAt(b, 0, name) && FieldAt(b, 1 + |name|, host) && FieldAt(b, 2 + |name| + |host|, digits)
    ensures Parse(b, signed) == Record(name, host, digits)
  {
    FieldRead(b, 0, name, signed);
    FieldRead(b, 1 + |name|, host, signed);
    FieldRead(b, 2 + |name| + |host|, digits, signed);
    ThreeFields(b, signed, name, 1 + |name|, host, 2 + |name| + |host|, digits, 3 + |name| + |host| + |digits|);
  }

  lemma FieldRead(b: seq<Byte>, at: nat, x: seq<Byte>, signed: bool)
    requires FieldAt(b, at, x) && |x| <= MaxLength(signed)
    ensures Field(b, at, signed) == Some((x, at + 1 + |x|))
  {
  }

  lemma NamesAreNotEmpty(b: seq<Byte>, signed: bool)
    ensures Parse(b, signed).Some? ==> Parse(b, signed).value.name != []
  {
  }

  /** A record with an empty name or a length that does not fit is not. */
  lemma ParsesWrong(n: NodeRecord, signed: bool, b: seq<Byte>, tail: seq<Byte>)
    requires b == Serialize(n) + tail
    requires n.name == [] || |n.name| > MaxLength(signed) || |n.host| > MaxLength(signed)
    ensures Parse(b, signed) != Some(n)
  {
    Layout(n, b, tail);
    if n.name == [] {
      NamesAreNotEmpty(b, signed);
    } else if |n.name| > MaxLength(signed) {
      WrongLength(b, 0, signed, |n.name|);
    } else {
      FieldRead(b, 0, n.name, signed);
      WrongLength(b, 1 + |n.name|, signed, |n.host|);
    }
  }

  /** Parsing inverts printing exactly for names that are not empty and names and hosts whose lengths
      a char carries, whatever follows the record: nothing, as in a reply, or the rest of a receive
      buffer. */
  lemma ParseInvertsSerializeIff(n: NodeRecord, signed: bool, tail: seq<Byte>)
    requires n.port < 0x8000_0000
    ensures Parse(Serialize(n) + tail, signed) == Some(n)
      <==> n.name != [] && |n.name| <= MaxLength(signed) && |n.host| <= MaxLength(signed)
  {
    if n.name != [] && |n.name| <= MaxLength(signed) && |n.host| <= MaxLength(signed) {
      ParsesBack(n, signed, Serialize(n) + tail, tail);
    } else {
      ParsesWrong(n, signed, Serialize(n) + tail, tail);
    }
  }

  /** A reply holds the record and no more. */
  lemma ReplyParsesBack(n: NodeRecord, signed: bool)
    requires n.port < 0x8000_0000 && 0 < |n.name| <= MaxLength(signed) && |n.host| <= MaxLength(signed)
    ensures Parse(Serialize(n), signed) == Some(n)
  {
    ParsesBack(n, signed, Serialize(n), []);
  }

  // ----- frames

  /** Reading a frame from a stream: nothing at the end of the stream, or where the length is
      negative or promises more than there is. */
  function ReadFrame(stream: seq<Byte>, signed: bool): (r: Option<Frame>)
    ensures r.Some? ==> |r.value.buffer| >= MAX_DATA_LENGTH
  {
    if stream == [] then None
    else
      var n := ToInt(stream[0], signed);
      if n < 0 || |stream| - 1 < n then None
      else
        var buffer := Padded(stream[1..1 + n], MAX_DATA_LENGTH);
        Some(Frame(buffer[0], n, buffer))
  }

  /** A frame carries its payload intact exactly when a char carries the frame's length. */
  lemma FrameIntactIff(code: Byte, payload: seq<Byte>, signed: bool)
    ensures var r := ReadFrame(CreateMessage(code, payload), signed);
      r == Some(Frame(code, 1 + |payload|, Padded([code] + payload, MAX_DATA_LENGTH)))
      <==> 1 + |payload| <= MaxLength(signed)
  {
    var m := CreateMessage(code, payload);
    assert m[1..] == [code] + payload;
    assert m[1..1 + (1 + |payload|)] == [code] + payload;
  }

  /** A node sent in a frame that a char can measure arrives as it was. */
  lemma NodeArrives(code: Byte, n: NodeRecord, signed: bool)
    requires n.port < 0x8000_0000 && n.name != [] && 1 + |Serialize(n)| <= MaxLength(signed)
    ensures var r := ReadFrame(CreateMessage(code, Serialize(n)), signed);
      && r.Some? && r.value.code == code && r.value.length == 1 + |Serialize(n)|
      && Parse(r.value.buffer[1..], signed) == Some(n)
  {
    FrameIntactIff(code, Serialize(n), signed);
    LengthsFit(n);
    ReceivedTail(code, Serialize(n));
    var buffer := Padded([code] + Serialize(n), MAX_DATA_LENGTH);
    ParsesBack(n, signed, buffer[1..], buffer[1 + |Serialize(n)|..]);
  }

  // ----- chat messages

  const RECEIVE: Byte := 12

  /** What the recipient's server hands to its receive function for a chat message that was sent
      as a frame; nothing if there is no frame or no code in it. */
  function Heard(message: seq<Byte>, signed: bool): Option<seq<Byte>> {
    match ReadFrame(CreateMessage(RECEIVE, message), signed)
    case None => None
    case Some(f) => if f.length == 0 || f.code != RECEIVE then None else Some(f.buffer[1..f.length])
  }

  /** A chat message is heard as it was sent exactly when a char carries the frame's length. */
  lemma HeardIff(message: seq<Byte>, signed: bool)
    ensures Heard(message, signed) == Some(message) <==> 1 + |message| <= MaxLength(signed)
  {
    var m := CreateMessage(RECEIVE, message);
    var r := ReadFrame(m, signed);
    if 1 + |message| <= MaxLength(signed) {
      FrameIntactIff(RECEIVE, message, signed);
      assert r.value.buffer[1..1 + |message|] == message;
    }
  }

  /** Otherwise nothing is heard, or less than was sent: a proper prefix. */
  lemma HeardIsCut(message: seq<Byte>, signed: bool)
    requires 1 + |message| > MaxLength(signed)
    ensures var h := Heard(message, signed);
      && (h.Some? <==> 0 < Char(1 + |message|) <= MaxLength(signed))
      && (h.Some? ==> |h.value| == Char(1 + |message|) - 1 && h.value < message)
  {
    var m := CreateMessage(RECEIVE, message);
    var c := Char(1 + |message|);
    if 0 < c <= MaxLength(signed) {
      assert m[1..] == [RECEIVE] + message;
      assert m[1..1 + c] == [RECEIVE] + message[..c - 1];
      assert Padded(m[1..1 + c], MAX_DATA_LENGTH)[1..c] == message[..c - 1];
    }
  }

  /** What is heard of a message that is too long. */
  lemma HeardPrefix(message: seq<Byte>, signed: bool)
    requires 1 + |message| > MaxLength(signed)
    ensures var c := Char(1 + |message|);
      Heard(message, signed) == if 0 < c <= MaxLength(signed) then Some(message[..c - 1]) else None
  {
    HeardIsCut(message, signed);
    var h := Heard(message, signed);
    assert h.Some? ==> h.value == message[..|h.value|];
  }

  /** With signed chars nothing is heard of a message of 127 bytes. */
  lemma LongMessageIsLost(message: seq<Byte>)
    requires |message| == 127
    ensures Heard(message, true).None?
  {
    HeardIsCut(message, true);
  }

  // ----- frames that are cut short

  /** How much of a payload of the given length gets through: the char holds the frame's length
      modulo 256. */
  function Received(length: nat): (k: nat)
    ensures k < 255
  {
    var c := Char(1 + length);
    if c == 0 then 0 else c - 1
  }

  /** The part of a printed record that is cut off holds only zeros up to the port, and the port is
      0, which an empty field also stands for. */
  predicate ZerosStandIn(n: NodeRecord, signed: bool) {
    var s := Serialize(n);
    && n.port == 0 && |n.name| <= MaxLength(signed) && |n.host| <= MaxLength(signed)
    && Char(1 + |s|) <= MaxLength(signed)
    && (forall i :: Received(|s|) <= i < 2 + |n.name| + |n.host| && i < |s| ==> s[i] == 0)
  }

  /** What a parse says of the buffer. */
  lemma ParsedFrom(b: seq<Byte>, signed: bool, n: NodeRecord)
    requires Parse(b, signed) == Some(n)
    ensures |n.name| <= MaxLength(signed) && |n.host| <= MaxLength(signed)
    ensures FieldAt(b, 0, n.name) && FieldAt(b, 1 + |n.name|, n.host) && 2 + |n.name| + |n.host| < |b|
    ensures b[2 + |n.name| + |n.host|] == 0 ==> n.port == 0
    ensures Field(b, 2 + |n.name| + |n.host|, signed).Some?
  {
  }

  lemma SerializedLength(n: NodeRecord)
    requires n.port < 0x8000_0000
    ensures |n.name| + |n.host| + 3 < |Serialize(n)| <= |n.name| + |n.host| + 13
  {
    PortLength(n.port);
  }

  /** Fields that stand in one string stand in another that agrees with it. */
  lemma SameField(b: seq<Byte>, b': seq<Byte>, at: nat, x: seq<Byte>)
    requires FieldAt(b, at, x) && at + 1 + |x| <= |b'|
    requires forall i :: at <= i < at + 1 + |x| ==> b[i] == b'[i]
    ensures FieldAt(b', at, x)
  {
  }

  /** Two strings with the same two fields in front agree there. */
  lemma SameFront(b: seq<Byte>, b': seq<Byte>, x: seq<Byte>, y: seq<Byte>)
    requires FieldAt(b, 0, x) && FieldAt(b, 1 + |x|, y)
    requires FieldAt(b', 0, x) && FieldAt(b', 1 + |x|, y)
    ensures forall i :: 0 <= i < 2 + |x| + |y| ==> b[i] == b'[i]
  {
    forall i | 0 <= i < 2 + |x| + |y| ensures b[i] == b'[i] {
      if 0 < i < 1 + |x| {
        assert b[1..1 + |x|][i - 1] == b'[1..1 + |x|][i - 1];
      } else if i > 1 + |x| {
        var p := 1 + |x|;
        assert b[p + 1..p + 1 + |y|][i - p - 1] == b'[p + 1..p + 1 + |y|][i - p - 1];
      }
    }
  }

  /** A buffer in which at least the last 255 bytes of a record are replaced by zeros. */
  predicate CutAfter(b: seq<Byte>, s: seq<Byte>, k: nat) {
    && |b| >= MAX_DATA_LENGTH - 1 && |s| >= k + 255
    && (forall i :: 0 <= i < |b| ==> b[i] == if i < k then s[i] else 0)
  }

  lemma CutParses(n: NodeRecord, signed: bool, b: seq<Byte>)
    requires n.port < 0x8000_0000 && CutAfter(b, Serialize(n), Received(|Serialize(n)|)) && ZerosStandIn(n, signed)
    requires n.name != []
    ensures Parse(b, signed) == Some(n)
  {
    CutFields(n, signed, b);
    EmptyPort(n.name, n.host);
    FieldsParse(n.name, n.host, [], signed, b);
  }

  lemma EmptyPort(name: seq<Byte>, host: seq<Byte>)
    requires name != []
    ensures Record(name, host, []) == Some(NodeRecord(name, host, 0))
  {
  }

  lemma CutFields(n: NodeRecord, signed: bool, b: seq<Byte>)
    requires n.port < 0x8000_0000 && CutAfter(b, Serialize(n), Received(|Serialize(n)|)) && ZerosStandIn(n, signed)
    ensures FieldAt(b, 0, n.name) && FieldAt(b, 1 + |n.name|, n.host) && FieldAt(b, 2 + |n.name| + |n.host|, [])
  {
    LayoutAlone(n);
    StandsInFor(n, signed, b);
    SameTwoFields(Serialize(n), b, n.name, n.host);
  }

  lemma SameTwoFields(b: seq<Byte>, b': seq<Byte>, x: seq<Byte>, y: seq<Byte>)
    requires FieldAt(b, 0, x) && FieldAt(b, 1 + |x|, y) && 2 + |x| + |y| <= |b'|
    requires forall i :: 0 <= i < 2 + |x| + |y| ==> b[i] == b'[i]
    ensures FieldAt(b', 0, x) && FieldAt(b', 1 + |x|, y)
  {
    SameField(b, b', 0, x);
    SameField(b, b', 1 + |x|, y);
  }

  lemma StandsInFor(n: NodeRecord, signed: bool, b: seq<Byte>)
    requires n.port < 0x8000_0000 && CutAfter(b, Serialize(n), Received(|Serialize(n)|)) && ZerosStandIn(n, signed)
    ensures var s, q := Serialize(n), 2 + |n.name| + |n.host|;
      q < |s| && q < |b| && (forall i :: 0 <= i < q ==> b[i] == s[i]) && FieldAt(b, q, [])
  {
    SerializedLength(n);
  }

  lemma CutParsedStandsIn(n: NodeRecord, signed: bool, b: seq<Byte>)
    requires n.port < 0x8000_0000 && CutAfter(b, Serialize(n), Received(|Serialize(n)|))
    requires Char(1 + |Serialize(n)|) <= MaxLength(signed) && Parse(b, signed) == Some(n)
    ensures ZerosStandIn(n, signed)
  {
    LayoutAlone(n);
    ParsedFrom(b, signed, n);
    SerializedLength(n);
    ZerosBehind(b, Serialize(n), Received(|Serialize(n)|), n.name, n.host);
  }

  lemma ZerosBehind(b: seq<Byte>, s: seq<Byte>, k: nat, x: seq<Byte>, y: seq<Byte>)
    requires CutAfter(b, s, k)
    requires FieldAt(b, 0, x) && FieldAt(b, 1 + |x|, y) && FieldAt(s, 0, x) && FieldAt(s, 1 + |x|, y)
    ensures forall i :: k <= i < 2 + |x| + |y| ==> s[i] == 0
    ensures 2 + |x| + |y| >= k && 2 + |x| + |y| < |b| ==> b[2 + |x| + |y|] == 0
  {
    SameFront(b, s, x, y);
  }

  /** What is in the buffer after a frame whose length a char does not carry. */
  lemma CutFrame(code: Byte, s: seq<Byte>, signed: bool)
    requires 1 + |s| > MaxLength(signed)
    ensures var r := ReadFrame(CreateMessage(code, s), signed);
      && (r.Some? <==> Char(1 + |s|) <= MaxLength(signed))
      && (r.Some? ==> CutAfter(r.value.buffer[1..], s, Received(|s|)))
  {
    var m := CreateMessage(code, s);
    var c := Char(1 + |s|);
    if c <= MaxLength(signed) {
      assert m[1..] == [code] + s && |s| >= 255 + c;
      var b := Padded(m[1..1 + c], MAX_DATA_LENGTH)[1..];
      forall i | 0 <= i < |b| ensures b[i] == if i < Received(|s|) then s[i] else 0 {
        if i < Received(|s|) { assert m[1..1 + c][i + 1] == m[i + 2] == s[i]; }
      }
    }
  }

  /** A node with a name arrives as it was exactly when a char carries the frame's length, or zeros
      stand in for what is cut off. */
  lemma NodeArrivesIff(code: Byte, n: NodeRecord, signed: bool)
    requires n.port < 0x8000_0000
    ensures var r := ReadFrame(CreateMessage(code, Serialize(n)), signed);
      r.Some? && Parse(r.value.buffer[1..], signed) == Some(n)
      <==> n.name != [] && (1 + |Serialize(n)| <= MaxLength(signed) || ZerosStandIn(n, signed))
  {
    var s := Serialize(n);
    var r := ReadFrame(CreateMessage(code, s), signed);
    if n.name == [] {
      if r.Some? { NamesAreNotEmpty(r.value.buffer[1..], signed); }
    } else if 1 + |s| <= MaxLength(signed) {
      NodeArrives(code, n, signed);
    } else {
      CutFrame(code, s, signed);
      if r.Some? && Parse(r.value.buffer[1..], signed) == Some(n) {
        CutParsedStandsIn(n, signed, r.value.buffer[1..]);
      } else if ZerosStandIn(n, signed) {
        CutParses(n, signed, r.value.buffer[1..]);
      }
    }
  }

  predicate ZeroFree(s: seq<Byte>) {
    forall i :: 0 <= i < |s| ==> s[i] != 0
  }

  /** Zeros never stand in where chars are signed, nor in a record without zero characters. */
  lemma ZerosStandInNever(n: NodeRecord, signed: bool)
    requires n.port < 0x8000_0000 && 1 + |Serialize(n)| > MaxLength(signed)
    requires signed || (ZeroFree(n.name) && ZeroFree(n.host))
    ensures !ZerosStandIn(n, signed)
  {
    LastCharacters(n);
    SerializedLength(n);
    if Char(1 + |Serialize(n)|) <= MaxLength(signed) {
      CutLength(|Serialize(n)|, signed);
    }
  }

  lemma CutLength(length: nat, signed: bool)
    requires 1 + length > MaxLength(signed) && Char(1 + length) <= MaxLength(signed)
    ensures length >= Received(length) + 255
  {
  }

  lemma LastCharacters(n: NodeRecord)
    ensures var s, p := Serialize(n), 1 + |n.name|;
      && |s| > p + |n.host|
      && (|n.name| > 0 ==> s[p - 1] == n.name[|n.name| - 1])
      && (|n.host| > 0 ==> s[p] == Char(|n.host|) && s[p + |n.host|] == n.host[|n.host| - 1])
  {
    var s, p := Serialize(n), 1 + |n.name|;
    LayoutAlone(n);
    assert |n.name| > 0 ==> s[1..p][|n.name| - 1] == s[p - 1];
    assert |n.host| > 0 ==> s[p + 1..p + 1 + |n.host|][|n.host| - 1] == s[p + |n.host|];
  }

  /** With signed chars any frame whose length a char does not carry loses its node: here the
      record of a user with a name of 127 letters. */
  lemma LongNameIsLost(code: Byte) returns (n: NodeRecord)
    ensures |n.name| == 127 && ZeroFree(n.name) && |n.host| == 9 && n.port == 8000
    ensures var r := ReadFrame(CreateMessage(code, Serialize(n)), true);
      !(r.Some? && Parse(r.value.buffer[1..], true) == Some(n))
  {
    n := NodeRecord(seq(127, _ => 97), seq(9, _ => 104), 8000);
    SerializedLength(n);
    ZerosStandInNever(n, true);
    NodeArrivesIff(code, n, true);
  }

  /** Where chars are unsigned a node full of zero characters survives being cut short. */
  lemma ZerosArriveAnyway(code: Byte, n: NodeRecord)
    requires |n.name| == 255 && (forall i :: 0 <= i < 255 ==> n.name[i] == 0) && n.host == [] && n.port == 0
    ensures 1 + |Serialize(n)| > MaxLength(false)
    ensures var r := ReadFrame(CreateMessage(code, Serialize(n)), false);
      r.Some? && Parse(r.value.buffer[1..], false) == Some(n)
  {
    var s := Serialize(n);
    assert |Decimal(n.port)| == 1 && |s| == 259;
    assert ZerosStandIn(n, false);
    NodeArrivesIff(code, n, false);
  }

  // ----- replies

  /** A reply has its length in front and no code; nothing is sent unless the length is positive. */
  function CreateReply(payload: seq<Byte>, signed: bool): seq<Byte> {
    if ToInt(Char(|payload|), signed) > 0 then [Char(|payload|)] + payload else []
  }

  /** What the client reads: a string of the promised length. */
  function ReadReply(stream: seq<Byte>, signed: bool): Option<seq<Byte>> {
    if stream == [] then None
    else
      var n := ToInt(stream[0], signed);
      if n < 0 || |stream| - 1 < n then None else Some(stream[1..1 + n])
  }

  /** A reply's payload arrives whole if a char carries its length, otherwise a proper prefix of it
      or nothing. */
  lemma ReplyRead(s: seq<Byte>, signed: bool)
    ensures var r := ReadReply(CreateReply(s, signed), signed);
      && (0 < |s| <= MaxLength(signed) ==> r == Some(s))
      && (0 < Char(|s|) <= MaxLength(signed) ==> r == Some(s[..Char(|s|)]))
      && (r.Some? ==> 0 < Char(|s|) <= MaxLength(signed))
      && (|s| > MaxLength(signed) && r.Some? ==> |r.value| < |s| && r.value == s[..|r.value|])
  {
    var m := [Char(|s|)] + s;
    assert m[1..] == s;
    assert m[1..1 + |s|] == s;
    assert forall c :: 0 <= c <= |s| ==> m[1..1 + c] == s[..c];
  }

  /** A node with a name arrives in a reply as it was exactly when a char carries the reply's
      length. */
  lemma ReplyArrivesIff(n: NodeRecord, signed: bool)
    requires n.port < 0x8000_0000
    ensures var r := ReadReply(CreateReply(Serialize(n), signed), signed);
      r.Some? && Parse(r.value, signed) == Some(n) <==> n.name != [] && |Serialize(n)| <= MaxLength(signed)
  {
    var s := Serialize(n);
    var r := ReadReply(CreateReply(s, signed), signed);
    ReplyRead(s, signed);
    LengthsFit(n);
    if n.name == [] {
      if r.Some? { NamesAreNotEmpty(r.value, signed); }
    } else if |s| <= MaxLength(signed) {
      ReplyParsesBack(n, signed);
    } else if r.Some? {
      PrefixDoesNotParse(n, signed, |r.value|);
    }
  }

  /** A record that lacks its last characters is not read back. */
  lemma PrefixDoesNotParse(n: NodeRecord, signed: bool, k: nat)
    requires n.port < 0x8000_0000 && k < |Serialize(n)|
    ensures Parse(Serialize(n)[..k], signed) != Some(n)
  {
    var s, q := Serialize(n), 2 + |n.name| + |n.host|;
    PortAlone(n);
    if Parse(s[..k], signed) == Some(n) {
      ParsedFrom(s[..k], signed, n);
    }
  }

  lemma PortAlone(n: NodeRecord)
    requires n.port < 0x8000_0000
    ensures var s, q := Serialize(n), 2 + |n.name| + |n.host|;
      q < |s| && |s| == q + 1 + s[q] && s[q] <= 10
  {
    var tail: seq<Byte> := [];
    assert Serialize(n) + tail == Serialize(n);
    Layout(n, Serialize(n), tail);
    PortLength(n.port);
  }

  lemma LengthsFit(n: NodeRecord)
    ensures |n.name| < |Serialize(n)| && |n.host| < |Serialize(n)|
  {
  }

  lemma ReceivedTail(code: Byte, s: seq<Byte>)
    ensures var b := Padded([code] + s, MAX_DATA_LENGTH);
      |b| >= 1 + |s| && b[1..] == s + b[1 + |s|..]
  {
  }
}
