/** Where the tags of an RTDE recipe lie in the shared payloads (`init_rtde_session`), and reading and writing
    them there (`rtde_tag_set` and the RTDE branch of the read functions), oip_comms.cpp. */
module RtdeLayout {
  import opened Bytes
  import opened Powers
  import opened RtdeNumbers

  // ----- Field types -----

  datatype FieldType =
    | Bool | Uint8 | Uint32 | Uint64 | Int32 | Double
    | Vector3D | Vector6D | Vector6Int32 | Vector6Uint32
    | Unknown | NotFound | InUse

  function Size(t: FieldType): nat {
    match t
    case Bool | Uint8 => 1
    case Uint32 | Int32 => 4
    case Uint64 | Double => 8
    case Vector3D => 24
    case Vector6D => 48
    case Vector6Int32 | Vector6Uint32 => 24
    case _ => 0
  }

  function Arity(t: FieldType): nat {
    match t
    case Vector3D => 3
    case Vector6D | Vector6Int32 | Vector6Uint32 => 6
    case Unknown | NotFound => 0
    case _ => 1
  }

  function ScalarSize(t: FieldType): nat {
    match t
    case Bool | Uint8 => 1
    case Uint32 | Int32 | Vector6Int32 | Vector6Uint32 => 4
    case Uint64 | Double | Vector3D | Vector6D => 8
    case _ => 0
  }

  function ElementType(t: FieldType): FieldType {
    match t
    case Vector3D | Vector6D => Double
    case Vector6Int32 => Int32
    case Vector6Uint32 => Uint32
    case _ => t
  }

  predicate Usable(t: FieldType) {
    t != Unknown && t != NotFound && t != InUse
  }

  // ----- Tags -----

  /** A tag as registered: variable name, index in brackets, direction. */
  datatype Tag = Tag(base: string, index: int, brackets: bool, isInput: bool)

  /** A registered tag with what the last layout made of it: the type of its variable, whether it is taken for a bit
      of a number, the type of its scalar, and its place in the payload. */
  datatype Entry = Entry(
    tag: Tag, fieldType: FieldType, isBit: bool, scalar: FieldType, offset: nat, initialized: bool)

  predicate Unsigned(t: FieldType) {
    t == Uint8 || t == Uint32 || t == Uint64
  }

  /** The tag is a bit of an unsigned number. */
  predicate ActiveBit(e: Entry) {
    e.isBit && Unsigned(e.fieldType)
  }

  /** The tag is still taken for a bit, as it was in an earlier session, but its variable is no unsigned number now. */
  predicate Stale(e: Entry) {
    e.isBit && !Unsigned(e.fieldType)
  }

  function TotalSize(types: seq<FieldType>): nat {
    if types == [] then 0 else TotalSize(types[..|types| - 1]) + Size(types[|types| - 1])
  }

  /** The bytes the tag's scalar takes. */
  function Width(e: Entry): nat {
    if e.isBit then ScalarSize(e.fieldType) else ScalarSize(e.scalar)
  }

  /** The entry is a scalar of a usable field, or a bit of an unsigned one; only the flag may be left over. */
  predicate Sound(e: Entry) {
    && Usable(e.fieldType) && e.tag.index >= 0
    && (e.isBit ==> e.tag.brackets) && (e.tag.brackets && Unsigned(e.fieldType) ==> e.isBit)
    && (if ActiveBit(e) then e.scalar == Bool && e.tag.index < 8 * ScalarSize(e.fieldType)
        else e.scalar == ElementType(e.fieldType) && e.tag.index < Arity(e.fieldType))
  }

  /** The entry lies in field `k` of the recipe. */
  predicate Placed(e: Entry, names: seq<string>, types: seq<FieldType>, k: nat) {
    && k < |names| == |types| && names[k] == e.tag.base && types[k] == e.fieldType && Sound(e)
    && e.offset == TotalSize(types[..k]) + if ActiveBit(e) then 0 else e.tag.index * ScalarSize(e.fieldType)
  }

  predicate Apart(e: Entry, f: Entry) {
    e.offset + Width(e) <= f.offset || f.offset + Width(f) <= e.offset
  }

  predicate Distinct(names: seq<string>) {
    forall j, k :: 0 <= j < k < |names| ==> names[j] != names[k]
  }

  /** A field is its scalars side by side. */
  lemma SizeIsArity(t: FieldType)
    requires Usable(t)
    ensures Size(t) == Arity(t) * ScalarSize(t) && ScalarSize(ElementType(t)) == ScalarSize(t) > 0
  {
  }

  lemma {:induction false} TotalMore(types: seq<FieldType>, k: nat)
    requires k < |types|
    ensures TotalSize(types[..k]) + Size(types[k]) == TotalSize(types[..k + 1]) <= TotalSize(types)
    decreases |types|
  {
    var init := types[..|types| - 1];
    if k < |init| {
      TotalMore(init, k);
      assert init[..k] == types[..k] && init[..k + 1] == types[..k + 1];
    } else {
      assert types[..k + 1] == types && types[..k] == init && types[..k + 1][..k] == init;
    }
  }

  /** The bytes of an entry lie in its field. */
  lemma InField(e: Entry, names: seq<string>, types: seq<FieldType>, k: nat)
    requires Placed(e, names, types, k)
    ensures TotalSize(types[..k]) <= e.offset
    ensures e.offset + Width(e) <= TotalSize(types[..k + 1]) <= TotalSize(types)
  {
    TotalMore(types, k);
    SizeIsArity(e.fieldType);
    if !ActiveBit(e) {
      MulNonNegative(e.tag.index, ScalarSize(e.fieldType));
      MulLe(e.tag.index + 1, Arity(e.fieldType), ScalarSize(e.fieldType));
      assert (e.tag.index + 1) * ScalarSize(e.fieldType)
          == e.tag.index * ScalarSize(e.fieldType) + ScalarSize(e.fieldType);
    }
  }

  lemma {:induction false} TotalGrows(types: seq<FieldType>, j: nat, k: nat)
    requires j <= k <= |types|
    ensures TotalSize(types[..j]) <= TotalSize(types[..k])
    decreases k
  {
    if j < k {
      TotalMore(types, k - 1);
      TotalGrows(types, j, k - 1);
    }
  }

  /** Entries of different fields, and different elements of one field, do not overlap. */
  lemma EntriesApart(e: Entry, f: Entry, names: seq<string>, types: seq<FieldType>, j: nat, k: nat)
    requires Distinct(names) && Placed(e, names, types, j) && Placed(f, names, types, k)
    requires e.tag.base != f.tag.base || (!ActiveBit(e) && !ActiveBit(f) && e.tag.index != f.tag.index)
    ensures Apart(e, f)
  {
    InField(e, names, types, j);
    InField(f, names, types, k);
    if j < k {
      TotalGrows(types, j + 1, k);
    } else if k < j {
      TotalGrows(types, k + 1, j);
    } else {
      SizeIsArity(e.fieldType);
      ElementsApart(e.tag.index, f.tag.index, ScalarSize(e.fieldType));
    }
  }

  lemma ElementsApart(i: int, j: int, w: nat)
    requires i != j
    ensures i * w + w <= j * w || j * w + w <= i * w
  {
    if i < j {
      MulLe(i + 1, j, w);
      assert (i + 1) * w == i * w + w;
    } else {
      MulLe(j + 1, i, w);
      assert (j + 1) * w == j * w + w;
    }
  }

  // ----- Values in the payload -----

  /** A value to be written: what it casts to as a truth value, as a 64-bit integer and as the bits of a double. */
  datatype Variant = Variant(asBool: bool, asInt: int, asBits: nat)

  /** A value read, before the cast to the type that was asked for. */
  datatype Reading = Truth(b: bool) | Integer(n: int) | DoubleBits(bits: nat)

  const TWO_TO_THE_64: int := 0x1_0000_0000_0000_0000

  predicate Fits(e: Entry, p: seq<byte>) {
    Sound(e) && e.offset + Width(e) <= |p|
  }

  /** The number now in the entry's bytes. */
  function Current(e: Entry, p: seq<byte>): nat
    requires Fits(e, p)
  {
    Number(p[e.offset..e.offset + Width(e)])
  }

  /** The number a write leaves in the entry's bytes; a stale entry has no case for it. */
  function NewNumber(e: Entry, p: seq<byte>, v: Variant): int
    requires Fits(e, p)
  {
    if ActiveBit(e) then WithBit(Current(e, p), e.tag.index, v.asBool)
    else if e.isBit then Current(e, p)
    else match e.scalar
      case Bool => if v.asBool then 1 else 0
      case Uint8 => v.asInt % 256
      case Int32 | Uint32 => v.asInt % TWO_TO_THE_32
      case Uint64 => v.asInt % TWO_TO_THE_64
      case _ => v.asBits % TWO_TO_THE_64
  }

  /** What a read gives; of a stale entry it is always zero, in whatever type was asked for. */
  function Read(e: Entry, p: seq<byte>): Reading
    requires Fits(e, p)
  {
    var n := Current(e, p);
    if ActiveBit(e) then Truth(Bit(n, e.tag.index))
    else if e.isBit then Zero(e.scalar)
    else match e.scalar
      case Bool => Truth(n != 0)
      case Int32 => Integer(AsInt(n))
      case Double => DoubleBits(n)
      case _ => Integer(n)
  }

  function Zero(t: FieldType): Reading {
    match t
    case Bool => Truth(false)
    case Double => DoubleBits(0)
    case _ => Integer(0)
  }

  /** What is read back of a value: the value cut to the tag's type. */
  function Cut(e: Entry, v: Variant): Reading {
    match e.scalar
    case Bool => Truth(v.asBool)
    case Uint8 => Integer(v.asInt % 256)
    case Int32 => Integer(AsInt(v.asInt % TWO_TO_THE_32))
    case Uint32 => Integer(v.asInt % TWO_TO_THE_32)
    case Uint64 => Integer(v.asInt % TWO_TO_THE_64)
    case _ => DoubleBits(v.asBits % TWO_TO_THE_64)
  }

  lemma BytePowers(w: nat)
    ensures Pow(256, w) == Pow2(8 * w)
    ensures Pow(256, 1) == 256 && Pow(256, 4) == TWO_TO_THE_32 && Pow(256, 8) == TWO_TO_THE_64
  {
    assert Pow(2, 8) == 256;
    PowPow(2, 8, w);
    assert Pow(256, 2) == 65536;
    PowAdd(256, 2, 2);
    PowAdd(256, 4, 4);
  }

  lemma NewNumberFits(e: Entry, p: seq<byte>, v: Variant)
    requires Fits(e, p)
    ensures 0 <= NewNumber(e, p, v) < Pow(256, Width(e))
  {
    BytePowers(Width(e));
    if ActiveBit(e) {
      WithBitBound(Current(e, p), e.tag.index, v.asBool, 8 * Width(e));
    } else if !e.isBit {
      ScalarWidths(e);
    }
  }

  lemma ScalarWidths(e: Entry)
    requires Sound(e) && !ActiveBit(e)
    ensures match e.scalar
            case Bool | Uint8 => Width(e) == 1
            case Int32 | Uint32 => Width(e) == 4
            case Uint64 | Double => Width(e) == 8
            case _ => false
  {
  }

  /** The payload after a write. */
  function Written(e: Entry, p: seq<byte>, v: Variant): (q: seq<byte>)
    requires Fits(e, p)
    ensures |q| == |p|
  {
    NewNumberFits(e, p, v);
    Put(p, e.offset, ToBytes(NewNumber(e, p, v), Width(e)))
  }

  lemma WrittenNumber(e: Entry, p: seq<byte>, v: Variant)
    requires Fits(e, p)
    ensures Current(e, Written(e, p, v)) == NewNumber(e, p, v)
  {
    NewNumberFits(e, p, v);
    var b := ToBytes(NewNumber(e, p, v), Width(e));
    PutThere(p, e.offset, b);
    NumberToBytes(NewNumber(e, p, v), Width(e));
  }

  /** Writing to a stale entry changes nothing. */
  lemma StaleWrite(e: Entry, p: seq<byte>, v: Variant)
    requires Fits(e, p) && Stale(e)
    ensures Written(e, p, v) == p && Read(e, p) == Zero(e.scalar)
  {
    ToBytesOfNumber(p[e.offset..e.offset + Width(e)]);
    PutSame(p, e.offset, Width(e));
  }

  /** A value written is read back, cut to the type of the tag. */
  lemma ReadWritten(e: Entry, p: seq<byte>, v: Variant)
    requires Fits(e, p) && !Stale(e)
    ensures Read(e, Written(e, p, v)) == Cut(e, v)
  {
    WrittenNumber(e, p, v);
    if e.isBit {
      BitsAfter(Current(e, p), e.tag.index, v.asBool, e.tag.index);
    } else {
      ScalarWidths(e);
    }
  }

  /** Every value written is read back exactly when the entry is not stale. */
  lemma ReadBackIff(e: Entry, p: seq<byte>)
    requires Fits(e, p)
    ensures (forall v: Variant :: Read(e, Written(e, p, v)) == Cut(e, v)) <==> !Stale(e)
  {
    if Stale(e) {
      var one := Variant(true, 1, 1);
      StaleWrite(e, p, one);
      ScalarWidths(e);
      assert Read(e, Written(e, p, one)) != Cut(e, one);
    } else {
      forall v: Variant ensures Read(e, Written(e, p, v)) == Cut(e, v) {
        ReadWritten(e, p, v);
      }
    }
  }

  /** Two different bits of one number. */
  predicate OtherBit(e: Entry, f: Entry) {
    && ActiveBit(e) && ActiveBit(f) && e.fieldType == f.fieldType && e.offset == f.offset
    && e.tag.index != f.tag.index
  }

  /** A write changes no tag that does not overlap, and no other bit of the same number; no write changes what is read
      of a stale entry, and a write to one changes nothing at all. */
  lemma OthersKept(e: Entry, f: Entry, p: seq<byte>, v: Variant)
    requires Fits(e, p) && Fits(f, p) && (Apart(e, f) || OtherBit(e, f) || Stale(e) || Stale(f))
    ensures Read(f, Written(e, p, v)) == Read(f, p)
  {
    if Stale(e) {
      StaleWrite(e, p, v);
    } else if Stale(f) {
      // zero before and after
    } else if OtherBit(e, f) {
      OtherBitKept(e, f, p, v);
    } else {
      ApartKept(e, f, p, v);
    }
  }

  lemma OtherBitKept(e: Entry, f: Entry, p: seq<byte>, v: Variant)
    requires Fits(e, p) && Fits(f, p) && OtherBit(e, f)
    ensures Read(f, Written(e, p, v)) == Read(f, p)
  {
    hide Written;
    WrittenNumber(e, p, v);
    BitsAfter(Current(e, p), e.tag.index, v.asBool, f.tag.index);
  }

  lemma SameReading(f: Entry, p: seq<byte>, q: seq<byte>)
    requires Fits(f, p) && Fits(f, q) && Current(f, p) == Current(f, q)
    ensures Read(f, p) == Read(f, q)
  {
    hide Current, Fits;
  }

  lemma CurrentIs(e: Entry, p: seq<byte>)
    requires Fits(e, p)
    ensures e.offset + Width(e) <= |p| && Current(e, p) == Number(p[e.offset..e.offset + Width(e)])
  {
    hide Width, Sound, Number;
  }

  lemma FitsKept(e: Entry, p: seq<byte>, q: seq<byte>)
    requires Fits(e, p) && |p| == |q|
    ensures Fits(e, q)
  {
    hide Width, Sound;
  }

  lemma ApartIs(e: Entry, f: Entry)
    requires Apart(e, f)
    ensures e.offset + Width(e) <= f.offset || f.offset + Width(f) <= e.offset
  {
    hide Width;
  }

  lemma CurrentApart(e: Entry, f: Entry, p: seq<byte>, b: seq<byte>)
    requires Fits(e, p) && Fits(f, p) && Apart(e, f) && |b| == Width(e)
    ensures Current(f, Put(p, e.offset, b)) == Current(f, p)
  {
    hide *;
    CurrentIs(e, p);
    CurrentIs(f, p);
    ApartIs(e, f);
    PutElsewhere(p, e.offset, b, f.offset, f.offset + Width(f));
    FitsKept(f, p, Put(p, e.offset, b));
    CurrentIs(f, Put(p, e.offset, b));
  }

  lemma ApartKept(e: Entry, f: Entry, p: seq<byte>, v: Variant)
    requires Fits(e, p) && Fits(f, p) && Apart(e, f)
    ensures Read(f, Written(e, p, v)) == Read(f, p)
  {
    hide Read, NewNumber, Put, Current, Apart;
    NewNumberFits(e, p, v);
    CurrentApart(e, f, p, ToBytes(NewNumber(e, p, v), Width(e)));
    SameReading(f, Written(e, p, v), p);
  }

  // ----- Bytes on the wire -----

  /** The bytes a value leaves in a payload that holds nothing else, by the type of the variable. */
  lemma WireBytes(e: Entry, p: seq<byte>, v: Variant)
    requires Fits(e, p) && !e.isBit && e.offset == 0 && 0 <= v.asBits < TWO_TO_THE_64
    ensures e.fieldType == FieldType.Bool && |p| == 1 ==> Written(e, p, v) == [if v.asBool then 1 else 0]
    ensures e.fieldType == Uint8 && |p| == 1 ==> Written(e, p, v) == [v.asInt % 256]
    ensures e.fieldType in {Int32, Uint32} && |p| == 4 ==> Written(e, p, v) == FourBytes(v.asInt)
    ensures e.fieldType == Uint64 && |p| == 8
            ==> Written(e, p, v) == FourBytes(v.asInt / 0x1_0000_0000) + FourBytes(v.asInt)
    ensures e.fieldType == Double && |p| == 8
            ==> Written(e, p, v) == FourBytes(v.asBits / 0x1_0000_0000) + FourBytes(v.asBits)
  {
    hide NewNumber, ToBytes;
    NewNumberFits(e, p, v);
    NumberOfType(e, p, v);
    Whole(p, ToBytes(NewNumber(e, p, v), Width(e)));
    WordBytes(v.asInt);
    WordBytes(v.asBits);
    ByteBytes(NewNumber(e, p, v));
  }

  lemma NumberOfType(e: Entry, p: seq<byte>, v: Variant)
    requires Fits(e, p) && !e.isBit && 0 <= v.asBits < TWO_TO_THE_64
    ensures Width(e) == ScalarSize(e.fieldType)
    ensures e.fieldType == FieldType.Bool ==> NewNumber(e, p, v) == if v.asBool then 1 else 0
    ensures e.fieldType == Uint8 ==> NewNumber(e, p, v) == v.asInt % 256
    ensures e.fieldType in {Int32, Uint32} ==> NewNumber(e, p, v) == v.asInt % 0x1_0000_0000
    ensures e.fieldType == Uint64 ==> NewNumber(e, p, v) == v.asInt % 0x1_0000_0000_0000_0000
    ensures e.fieldType == Double ==> NewNumber(e, p, v) == v.asBits % 0x1_0000_0000_0000_0000
  {
  }

  lemma Whole(p: seq<byte>, b: seq<byte>)
    ensures |b| == |p| ==> Put(p, 0, b) == b
  {
  }

  lemma ByteBytes(n: nat)
    ensures n < 256 ==> ToBytes(n, 1) == [n]
  {
    assert ToBytes(n / 256, 0) == [];
  }

  lemma WordBytes(x: int)
    ensures ToBytes(x % 0x1_0000_0000, 4) == FourBytes(x)
    ensures ToBytes(x % 0x1_0000_0000_0000_0000, 8) == FourBytes(x / 0x1_0000_0000) + FourBytes(x)
  {
    FourOf(x);
    FourOf(x / 0x1_0000_0000);
    Low(x, 0x1_0000_0000, 0x1_0000_0000);
    hide ToBytes, FourBytes, Be32;
    Be32IsToBytes(x % 0x1_0000_0000);
    Be64IsToBytes(x % 0x1_0000_0000_0000_0000);
  }

  lemma FourOf(x: int)
    ensures Be32(x % 0x1_0000_0000) == FourBytes(x)
  {
    Low(x, 0x100_0000, 256);
    Low(x, 0x1_0000, 0x1_0000);
    Low(x, 0x100, 0x100_0000);
    var y := x % 0x1_0000_0000;
    assert y / 0x100_0000 == x / 0x100_0000 % 256;
    Twice(x / 0x1_0000, 0x1_0000);
    Twice(x / 0x100, 0x100_0000);
    Twice(x, 0x1_0000_0000);
  }

  lemma Twice(x: int, m: int)
    requires m in {0x1_0000, 0x100_0000, 0x1_0000_0000}
    ensures x % m % 256 == x % 256
  {
  }

  /** The low part of a number, divided. */
  lemma Low(x: int, d: nat, m: nat)
    requires d > 0 && m > 0
    ensures d * m > 0 && x % (d * m) / d == x / d % m && x % (d * m) % d == x % d
  {
    MulPositive(d, m);
    var q, r := DivParts(x, d);
    var q2, r2 := DivParts(q, m);
    Regrouped(q2, m, r2, d, r);
    LowBound(r2, m, d, r);
    Commute(m, d);
    DivUnique(x, d * m, q2, r2 * d + r);
    DivUnique(r2 * d + r, d, r2, r);
  }

  lemma Regrouped(q: int, m: int, r: int, d: int, s: int)
    ensures (q * m + r) * d + s == q * (m * d) + (r * d + s)
  {
    Distribute(q * m, r, d);
    Assoc(q, m, d);
  }

  lemma LowBound(r: int, m: int, d: int, s: int)
    requires 0 <= r < m && 0 <= s < d
    ensures 0 <= r * d + s < m * d
  {
    MulLe(r + 1, m, d);
    Distribute(r, 1, d);
    MulNonNegative(r, d);
  }

  function FourBytes(v: int): (b: seq<byte>)
    ensures |b| == 4
  {
    [v / 0x100_0000 % 256, v / 0x1_0000 % 256, v / 0x100 % 256, v % 256]
  }

  /** -1 written to a variable or an element of one: four bytes of 0xFF, read as -1 where the type is signed. */
  lemma MinusOne(e: Entry, p: seq<byte>, v: Variant)
    requires Fits(e, p) && !e.isBit && v.asInt == -1
    ensures e.fieldType in {Int32, Vector6Int32} ==> Read(e, Written(e, p, v)) == Integer(-1)
    ensures e.fieldType in {Uint32, Vector6Uint32} ==> Read(e, Written(e, p, v)) == Integer(0xFFFF_FFFF)
    ensures e.fieldType in {Double, Vector3D, Vector6D} ==> Read(e, Written(e, p, v)).DoubleBits?
  {
    ReadWritten(e, p, v);
    hide Written, Read;
  }

  /** What is read of a byte the controller sent: any byte but 0 is true. */
  lemma ByteRead(e: Entry, p: seq<byte>)
    requires Fits(e, p) && !e.isBit
    ensures e.fieldType == FieldType.Bool ==> Read(e, p) == Truth(p[e.offset] != 0)
    ensures e.fieldType == Uint8 ==> Read(e, p) == Integer(p[e.offset])
  {
    if e.fieldType in {FieldType.Bool, Uint8} {
      var s := p[e.offset..e.offset + Width(e)];
      assert s == [p[e.offset]] && s[..0] == [];
      assert Number(s) == Number(s[..0]) * 256 + s[0];
    }
  }

  /** A bit written to an unsigned number in brackets changes the number by its place value, or not at all. */
  lemma BitNumber(e: Entry, p: seq<byte>, v: Variant)
    requires Fits(e, p) && e.tag.brackets && e.fieldType in {Uint8, Uint32, Uint64}
    ensures var old0, new1 := Current(e, p), Current(e, Written(e, p, v)); var place := Pow2(e.tag.index);
      && (v.asBool ==> new1 == old0 || new1 == old0 + place)
      && (!v.asBool ==> new1 == old0 || new1 == old0 - place)
      && (new1 / place % 2 == 1 <==> v.asBool)
      && Read(e, Written(e, p, v)) == Truth(v.asBool)
  {
    BitOfNumber(e);
    hide *;
    FitsKept(e, p, Written(e, p, v));
    WrittenNumber(e, p, v);
    ReadWritten(e, p, v);
    BitWritten(e, p, v);
    BitPlace(Current(e, p), e.tag.index, v.asBool);
  }

  lemma BitOfNumber(e: Entry)
    requires Sound(e) && e.tag.brackets && e.fieldType in {Uint8, Uint32, Uint64}
    ensures e.tag.index >= 0 && ActiveBit(e) && !Stale(e)
    ensures forall v :: Cut(e, v) == Truth(v.asBool)
  {
  }

  lemma BitWritten(e: Entry, p: seq<byte>, v: Variant)
    requires Fits(e, p) && ActiveBit(e)
    ensures NewNumber(e, p, v) == WithBit(Current(e, p), e.tag.index, v.asBool)
  {
    hide Current, WithBit, Width;
  }

  lemma BitPlace(n: nat, i: nat, b: bool)
    ensures Pow2(i) > 0
    ensures b ==> WithBit(n, i, b) == n || WithBit(n, i, b) == n + Pow2(i)
    ensures !b ==> WithBit(n, i, b) == n || WithBit(n, i, b) == n - Pow2(i)
    ensures WithBit(n, i, b) / Pow2(i) % 2 == 1 <==> b
  {
    BitsAfter(n, i, b, i);
  }

  /** A vector is so many numbers side by side, and the types without a size are the ones that are refused. */
  lemma VectorLaw(t: FieldType)
    ensures Size(Vector3D) == 3 * Size(Double) && Size(Vector6D) == 6 * Size(Double)
    ensures Size(Vector6Int32) == 6 * Size(Int32) && Size(Vector6Uint32) == 6 * Size(Uint32)
    ensures Usable(t) <==> Size(t) > 0
  {
  }

  // ----- Offsets -----

  /** The first variable is at the start, every other directly behind the one before, and the elements of one follow
      each other. */
  lemma OffsetLaw(e: Entry, f: Entry, names: seq<string>, types: seq<FieldType>, k: nat)
    requires Placed(e, names, types, k)
    ensures k == 0 && (e.tag.index == 0 || ActiveBit(e)) ==> e.offset == 0
    ensures Placed(f, names, types, k + 1) && (e.tag.index == 0 || ActiveBit(e)) && (f.tag.index == 0 || ActiveBit(f))
            ==> f.offset == e.offset + Size(e.fieldType)
    ensures Placed(f, names, types, k) && !ActiveBit(e) && !ActiveBit(f) && f.tag.index == e.tag.index + 1
            ==> f.offset == e.offset + ScalarSize(e.fieldType)
  {
    TotalMore(types, k);
    if Placed(f, names, types, k) && f.tag.index == e.tag.index + 1 {
      Distribute(e.tag.index, 1, ScalarSize(e.fieldType));
    }
  }
}
