/** The Protocol Buffers wire format as the repository index is read from it
    (`backend/internal/repository/protobuf.go`): varints, tags, lengths, and a message as a series of
    fields. Encoding follows the "Encoding" section of the Protocol Buffers documentation. */
module Wire {
  import opened Text

  type Bytes = string

  // ---------------------------------------------------------------- reading

  /** `protowire.ConsumeVarint` after i bytes: at most ten in all, and the tenth at most 1. */
  function ConsumeVarint(b: Bytes, i: nat): (r: Option<(nat, Bytes)>)
    ensures r.Some? ==> |r.value.1| < |b| && r.value.1 == b[|b| - |r.value.1|..]
    decreases |b|
  {
    if b == "" || i >= 10 then None
    else
      var x := b[0] as int;
      if x < 128 then (if i == 9 && x >= 2 then None else Some((x, b[1..])))
      else match ConsumeVarint(b[1..], i + 1)
           case None => None
           case Some((v, rest)) => Some((x - 128 + 128 * v, rest))
  }

  /** `protowire.ConsumeTag`: field numbers run from 1 to the largest int32. */
  function ConsumeTag(b: Bytes): (r: Option<((nat, nat), Bytes)>)
    ensures r.Some? ==> |r.value.1| < |b|
  {
    match ConsumeVarint(b, 0)
    case None => None
    case Some((v, rest)) => if 1 <= v / 8 <= 0x7FFF_FFFF then Some(((v / 8, v % 8), rest)) else None
  }

  function ConsumeBytes(b: Bytes): (r: Option<(Bytes, Bytes)>)
    ensures r.Some? ==> |r.value.1| < |b|
  {
    match ConsumeVarint(b, 0)
    case None => None
    case Some((n, rest)) => if n <= |rest| then Some((rest[..n], rest[n..])) else None
  }

  /** `skipField`: it asks for field number 0, so a group, whose end must carry its own number, is
      always an error. */
  function SkipField(b: Bytes, typ: nat): (r: Option<Bytes>)
    ensures r.Some? ==> |r.value| < |b|
  {
    match typ
    case 0 => (match ConsumeVarint(b, 0) case None => None case Some((_, rest)) => Some(rest))
    case 1 => if |b| >= 8 then Some(b[8..]) else None
    case 2 => (match ConsumeBytes(b) case None => None case Some((_, rest)) => Some(rest))
    case 5 => if |b| >= 4 then Some(b[4..]) else None
    case _ => None
  }

  /** How a message reads a field number: as a length and bytes, as a varint, or not at all. The
      wire type in the tag only counts for fields that are not read. */
  datatype Shape = AsBytes | AsVarint | Unread

  type Shapes = nat -> Shape

  datatype Event = Data(num: nat, data: Bytes) | Number(num: nat, v: nat) | Skipped

  function Step(shapes: Shapes, b: Bytes): (r: Option<(Event, Bytes)>)
    ensures r.Some? ==> |r.value.1| < |b|
  {
    match ConsumeTag(b)
    case None => None
    case Some(((num, typ), rest)) =>
      match shapes(num)
      case AsBytes => (match ConsumeBytes(rest) case None => None case Some((d, r)) => Some((Data(num, d), r)))
      case AsVarint => (match ConsumeVarint(rest, 0) case None => None case Some((v, r)) => Some((Number(num, v), r)))
      case Unread => (match SkipField(rest, typ) case None => None case Some(r) => Some((Skipped, r)))
  }

  /** Reading a message into r, field by field; `apply` may fail on a message inside. */
  function Decode<R>(shapes: Shapes, apply: (R, Event) -> Option<R>, r: R, b: Bytes): Option<R>
    decreases |b|
  {
    if b == "" then Some(r)
    else match Step(shapes, b)
         case None => None
         case Some((e, rest)) =>
           match apply(r, e)
           case None => None
           case Some(next) => Decode(shapes, apply, next, rest)
  }

  // ---------------------------------------------------------------- more input behind

  lemma {:induction false} VarintMore(b: Bytes, more: Bytes, i: nat)
    requires ConsumeVarint(b, i).Some?
    ensures var (v, rest) := ConsumeVarint(b, i).value; ConsumeVarint(b + more, i) == Some((v, rest + more))
    decreases |b|
  {
    assert (b + more)[1..] == b[1..] + more;
    if b[0] as int < 128 {
    } else {
      VarintMore(b[1..], more, i + 1);
    }
  }

  lemma BytesMore(b: Bytes, more: Bytes)
    requires ConsumeBytes(b).Some?
    ensures var (d, rest) := ConsumeBytes(b).value; ConsumeBytes(b + more) == Some((d, rest + more))
  {
    VarintMore(b, more, 0);
    var (n, rest) := ConsumeVarint(b, 0).value;
    assert (rest + more)[..n] == rest[..n] && (rest + more)[n..] == rest[n..] + more;
  }

  lemma SkipMore(b: Bytes, more: Bytes, typ: nat)
    requires SkipField(b, typ).Some?
    ensures SkipField(b + more, typ) == Some(SkipField(b, typ).value + more)
  {
    match typ
    case 0 => VarintMore(b, more, 0);
    case 1 => assert (b + more)[8..] == b[8..] + more;
    case 2 => BytesMore(b, more);
    case 5 => assert (b + more)[4..] == b[4..] + more;
    case _ =>
  }

  lemma StepMore(shapes: Shapes, b: Bytes, more: Bytes)
    requires Step(shapes, b).Some?
    ensures var (e, rest) := Step(shapes, b).value; Step(shapes, b + more) == Some((e, rest + more))
  {
    VarintMore(b, more, 0);
    var ((num, typ), rest) := ConsumeTag(b).value;
    match shapes(num)
    case AsBytes => BytesMore(rest, more);
    case AsVarint => VarintMore(rest, more, 0);
    case Unread => SkipMore(rest, more, typ);
  }

  /** A message that can be read, followed by more: reading goes on from where it was. */
  lemma {:induction false} DecodeConcat<R>(shapes: Shapes, apply: (R, Event) -> Option<R>, r: R, a: Bytes, b: Bytes)
    requires Decode(shapes, apply, r, a).Some?
    ensures Decode(shapes, apply, r, a + b) == Decode(shapes, apply, Decode(shapes, apply, r, a).value, b)
    decreases |a|
  {
    if a == "" {
      assert a + b == b;
    } else {
      StepMore(shapes, a, b);
      var (e, rest) := Step(shapes, a).value;
      DecodeConcat(shapes, apply, apply(r, e).value, rest, b);
    }
  }

  // ---------------------------------------------------------------- writing

  const TWO64: int := 0x1_0000_0000_0000_0000

  function EncodeVarint(v: nat): Bytes {
    if v < 128 then [v as char] else [(v % 128 + 128) as char] + EncodeVarint(v / 128)
  }

  /** What fits in the bytes from the i-th on. */
  function Room(i: nat): nat
    requires i <= 9
    decreases 9 - i
  {
    if i == 9 then 2 else 128 * Room(i + 1)
  }

  lemma {:induction false} VarintBack(v: nat, rest: Bytes, i: nat)
    requires i <= 9 && v < Room(i)
    ensures ConsumeVarint(EncodeVarint(v) + rest, i) == Some((v, rest))
    decreases 9 - i
  {
    var b := EncodeVarint(v) + rest;
    if v < 128 {
      assert b[1..] == rest;
    } else {
      assert b[1..] == EncodeVarint(v / 128) + rest;
      VarintBack(v / 128, rest, i + 1);
    }
  }

  lemma RoomForAll()
    ensures Room(0) == TWO64
  {
    assert Room(8) == 128 * 2 && Room(7) == 128 * Room(8) && Room(6) == 128 * Room(7);
    assert Room(5) == 128 * Room(6) && Room(4) == 128 * Room(5) && Room(3) == 128 * Room(4);
    assert Room(2) == 128 * Room(3) && Room(1) == 128 * Room(2);
  }

  /** A field as an encoder writes it; groups are not written. */
  datatype Field =
    | VarintField(num: nat, v: nat)
    | Fixed64Field(num: nat, raw: Bytes)
    | BytesField(num: nat, data: Bytes)
    | Fixed32Field(num: nat, raw: Bytes)
  {
    ghost predicate Valid() {
      && 1 <= num <= 0x7FFF_FFFF
      && match this
         case VarintField(_, v) => v < TWO64
         case Fixed64Field(_, raw) => |raw| == 8
         case BytesField(_, data) => |data| < TWO64
         case Fixed32Field(_, raw) => |raw| == 4
    }

    /** A field a message reads has the wire type the message reads it with. */
    ghost predicate Fits(shapes: Shapes) {
      match shapes(num)
      case AsBytes => BytesField?
      case AsVarint => VarintField?
      case Unread => true
    }

    function Type(): nat {
      match this
      case VarintField(_, _) => 0
      case Fixed64Field(_, _) => 1
      case BytesField(_, _) => 2
      case Fixed32Field(_, _) => 5
    }

    function Body(): Bytes {
      match this
      case VarintField(_, v) => EncodeVarint(v)
      case Fixed64Field(_, raw) => raw
      case BytesField(_, data) => EncodeVarint(|data|) + data
      case Fixed32Field(_, raw) => raw
    }

    function Encode(): Bytes { EncodeVarint(num * 8 + Type()) + Body() }

    function Read(shapes: Shapes): Event {
      if shapes(num) == Unread then Skipped
      else match this
           case BytesField(_, data) => Data(num, data)
           case VarintField(_, v) => Number(num, v)
           case _ => Skipped
    }
  }

  function EncodeAll(fs: seq<Field>): Bytes {
    if fs == [] then "" else fs[0].Encode() + EncodeAll(fs[1..])
  }

  lemma BytesBack(d: Bytes, rest: Bytes)
    requires |d| < TWO64
    ensures ConsumeBytes(EncodeVarint(|d|) + d + rest) == Some((d, rest))
  {
    RoomForAll();
    VarintBack(|d|, d + rest, 0);
    hide ConsumeVarint, EncodeVarint;
    assert EncodeVarint(|d|) + d + rest == EncodeVarint(|d|) + (d + rest);
    assert (d + rest)[..|d|] == d && (d + rest)[|d|..] == rest;
  }

  lemma SkipBack(f: Field, rest: Bytes)
    requires f.Valid()
    ensures SkipField(f.Body() + rest, f.Type()) == Some(rest)
  {
    RoomForAll();
    match f
    case VarintField(_, v) => VarintBack(v, rest, 0);
    case Fixed64Field(_, raw) => assert (raw + rest)[8..] == rest;
    case BytesField(_, data) => BytesBack(data, rest);
    case Fixed32Field(_, raw) => assert (raw + rest)[4..] == rest;
  }

  lemma TagBack(f: Field, rest: Bytes)
    requires f.Valid()
    ensures ConsumeTag(f.Encode() + rest) == Some(((f.num, f.Type()), f.Body() + rest))
  {
    RoomForAll();
    var t := f.num * 8 + f.Type();
    assert f.Encode() + rest == EncodeVarint(t) + (f.Body() + rest);
    VarintBack(t, f.Body() + rest, 0);
    assert t / 8 == f.num && t % 8 == f.Type();
  }

  /** One encoded field is one step. */
  lemma StepBack(shapes: Shapes, f: Field, rest: Bytes)
    requires f.Valid() && f.Fits(shapes)
    ensures Step(shapes, f.Encode() + rest) == Some((f.Read(shapes), rest))
  {
    TagBack(f, rest);
    match shapes(f.num)
    case AsBytes => BytesBack(f.data, rest);
    case AsVarint =>
      RoomForAll();
      VarintBack(f.v, rest, 0);
    case Unread => SkipBack(f, rest);
  }

  /** A field the message reads is read as the message reads it, whatever wire type its tag names. */
  lemma WireTypeIgnored(shapes: Shapes, num: nat, typ: nat, typ': nat, rest: Bytes)
    requires 1 <= num <= 0x7FFF_FFFF && typ < 8 && typ' < 8 && shapes(num) != Unread
    ensures Step(shapes, EncodeVarint(num * 8 + typ) + rest) == Step(shapes, EncodeVarint(num * 8 + typ') + rest)
  {
    TagRead(num, typ, rest);
    TagRead(num, typ', rest);
    hide EncodeVarint, ConsumeTag, ConsumeVarint, ConsumeBytes, SkipField;
  }

  lemma TagRead(num: nat, typ: nat, rest: Bytes)
    requires 1 <= num <= 0x7FFF_FFFF && typ < 8
    ensures ConsumeTag(EncodeVarint(num * 8 + typ) + rest) == Some(((num, typ), rest))
  {
    RoomForAll();
    VarintBack(num * 8 + typ, rest, 0);
    hide EncodeVarint, ConsumeVarint;
    assert (num * 8 + typ) / 8 == num && (num * 8 + typ) % 8 == typ;
  }

  /** A tag whose field number is 0, or too large for one, ends the reading. */
  lemma BadNumberFails<R>(shapes: Shapes, apply: (R, Event) -> Option<R>, r: R, v: nat, rest: Bytes)
    requires v < TWO64 && (v / 8 == 0 || v / 8 > 0x7FFF_FFFF)
    ensures Decode(shapes, apply, r, EncodeVarint(v) + rest) == None
  {
    RoomForAll();
    VarintBack(v, rest, 0);
    hide ConsumeVarint, EncodeVarint;
    assert ConsumeTag(EncodeVarint(v) + rest) == None;
    assert EncodeVarint(v) + rest != "" by { VarintNotEmpty(v); }
  }

  lemma VarintNotEmpty(v: nat)
    ensures EncodeVarint(v) != ""
  {
  }

  /** The number seven bits a byte, the lowest first. */
  function Base128(b: Bytes): nat {
    if b == "" then 0 else b[0] as int % 128 + 128 * Base128(b[1..])
  }

  /** The first n bytes are a varint that began i bytes before: each but the last has its high bit set, and
      there are ten at most, the tenth at most 1. */
  ghost predicate IsVarint(b: Bytes, i: nat, n: nat) {
    && 1 <= n <= |b| && i + n <= 10 && b[n - 1] as int < 128 && (i + n == 10 ==> b[n - 1] as int < 2)
    && forall k | 0 <= k < n - 1 :: b[k] as int >= 128
  }

  lemma ShortVarint(b: Bytes, i: nat)
    requires b != "" && b[0] as int < 128 && i < 10
    ensures forall n :: IsVarint(b, i, n) <==> n == 1 && (i == 9 ==> b[0] as int < 2)
    ensures Base128(b[..1]) == b[0] as int
  {
    assert b[..1][1..] == "";
  }

  lemma LongVarint(b: Bytes, i: nat, n: nat)
    requires b != "" && 128 <= b[0] as int < 256
    ensures IsVarint(b, i, n + 1) <==> IsVarint(b[1..], i + 1, n)
    ensures !IsVarint(b, i, 0)
    ensures n < |b| ==> Base128(b[..n + 1]) == b[0] as int - 128 + 128 * Base128(b[1..][..n])
                        && b[n + 1..] == b[1..][n..]
  {
    assert forall k | 0 <= k < |b[1..]| :: b[1..][k] == b[k + 1];
    if IsVarint(b[1..], i + 1, n) {
      forall k | 0 <= k < n ensures b[k] as int >= 128 {
        if k > 0 { assert b[1..][k - 1] as int >= 128; }
      }
    }
    if n < |b| { assert b[..n + 1][1..] == b[1..][..n]; }
  }

  ghost predicate ReadAs(b: Bytes, i: nat, r: Option<(nat, Bytes)>) {
    match r
    case None => forall n :: !IsVarint(b, i, n)
    case Some((v, rest)) => exists n: nat :: IsVarint(b, i, n) && v == Base128(b[..n]) && rest == b[n..]
  }

  /** Whatever is a varint is read, shortest or not, as the number it stands for; nothing else is. */
  lemma {:induction false} VarintExactly(b: Bytes, i: nat)
    requires IsBytes(b)
    ensures ReadAs(b, i, ConsumeVarint(b, i))
    decreases |b|
  {
    if b == "" || i >= 10 {
    } else if b[0] as int < 128 {
      ShortVarint(b, i);
      hide IsVarint, Base128;
      assert b[..1] == b[..1] && (IsVarint(b, i, 1) <==> (i == 9 ==> b[0] as int < 2));
    } else {
      assert IsByte(b[0]);
      VarintExactly(b[1..], i + 1);
      LongReadAs(b, i);
    }
  }

  lemma LongReadAs(b: Bytes, i: nat)
    requires b != "" && 128 <= b[0] as int < 256 && i < 10
    requires ReadAs(b[1..], i + 1, ConsumeVarint(b[1..], i + 1))
    ensures ReadAs(b, i, ConsumeVarint(b, i))
  {
    var r := ConsumeVarint(b[1..], i + 1);
    assert ConsumeVarint(b, i) == match r
                                  case None => None
                                  case Some((v, rest)) => Some((b[0] as int - 128 + 128 * v, rest));
    hide ConsumeVarint, IsVarint, Base128;
    match r
    case None =>
      forall n: nat ensures !IsVarint(b, i, n) {
        if n > 0 { LongVarint(b, i, n - 1); } else { LongVarint(b, i, 0); }
      }
    case Some((v, rest)) =>
      var n: nat :| IsVarint(b[1..], i + 1, n) && v == Base128(b[1..][..n]) && rest == b[1..][n..];
      LongVarint(b, i, n);
      assert IsVarint(b, i, n + 1);
  }

  /** A length must be met by the input behind it, to the byte. */
  lemma BytesExactly(b: Bytes)
    requires IsBytes(b)
    ensures match ConsumeBytes(b)
            case None => forall n: nat :: !(IsVarint(b, 0, n) && Base128(b[..n]) <= |b| - n)
            case Some((d, rest)) =>
              exists n: nat :: IsVarint(b, 0, n) && |d| == Base128(b[..n]) && b[n..] == d + rest
  {
    hide ConsumeVarint, Base128;
    VarintExactly(b, 0);
    if ConsumeVarint(b, 0).Some? {
      var (l, rest) := ConsumeVarint(b, 0).value;
      var n: nat :| IsVarint(b, 0, n) && l == Base128(b[..n]) && rest == b[n..];
      if l <= |rest| {
        assert rest == rest[..l] + rest[l..];
      } else {
        forall m: nat | IsVarint(b, 0, m) ensures m == n { OneVarint(b, 0, m, n); }
      }
    }
  }

  lemma OneVarint(b: Bytes, i: nat, m: nat, n: nat)
    requires IsVarint(b, i, m) && IsVarint(b, i, n)
    ensures m == n
  {
  }

  /** An unknown field of any other wire type, a group above all, ends the reading, whatever follows. */
  lemma OtherTypesFail<R>(shapes: Shapes, apply: (R, Event) -> Option<R>, r: R, num: nat, typ: nat, rest: Bytes)
    requires 1 <= num <= 0x7FFF_FFFF && shapes(num) == Unread && typ in {3, 4, 6, 7}
    ensures Decode(shapes, apply, r, EncodeVarint(num * 8 + typ) + rest) == None
  {
    RoomForAll();
    var t := num * 8 + typ;
    VarintBack(t, rest, 0);
    hide ConsumeVarint, EncodeVarint;
    assert t / 8 == num && t % 8 == typ;
    assert ConsumeTag(EncodeVarint(t) + rest) == Some(((num, typ), rest));
  }

  /** Taking the fields in one after the other. */
  function Fold<R>(shapes: Shapes, apply: (R, Event) -> Option<R>, r: R, fs: seq<Field>): Option<R> {
    if fs == [] then Some(r)
    else match apply(r, fs[0].Read(shapes))
         case None => None
         case Some(next) => Fold(shapes, apply, next, fs[1..])
  }

  ghost predicate Writable(shapes: Shapes, fs: seq<Field>) {
    forall i | 0 <= i < |fs| :: fs[i].Valid() && fs[i].Fits(shapes)
  }

  /** Reading what was written takes in exactly the fields, in order. */
  lemma {:induction false} DecodeEncoded<R>(shapes: Shapes, apply: (R, Event) -> Option<R>, r: R, fs: seq<Field>)
    requires Writable(shapes, fs)
    ensures Decode(shapes, apply, r, EncodeAll(fs)) == Fold(shapes, apply, r, fs)
    decreases |fs|
  {
    if fs == [] {
    } else {
      StepBack(shapes, fs[0], EncodeAll(fs[1..]));
      match apply(r, fs[0].Read(shapes))
      case None =>
      case Some(next) => DecodeEncoded(shapes, apply, next, fs[1..]);
    }
  }

  /** The fields a message reads. */
  function Known(shapes: Shapes, fs: seq<Field>): seq<Field> {
    if fs == [] then []
    else if shapes(fs[0].num) == Unread then Known(shapes, fs[1..])
    else [fs[0]] + Known(shapes, fs[1..])
  }

  /** Fields a message does not read make no difference, wherever they stand. */
  lemma {:induction false} FoldKnown<R>(shapes: Shapes, apply: (R, Event) -> Option<R>, r: R, fs: seq<Field>)
    requires forall x :: apply(x, Skipped) == Some(x)
    ensures Fold(shapes, apply, r, fs) == Fold(shapes, apply, r, Known(shapes, fs))
    decreases |fs|
  {
    if fs == [] {
    } else {
      match apply(r, fs[0].Read(shapes))
      case None =>
      case Some(next) =>
        FoldKnown(shapes, apply, next, fs[1..]);
        assert Known(shapes, [fs[0]] + fs[1..]) == Known(shapes, fs);
    }
  }
}
