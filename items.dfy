/**
 * The item classes of TableDefinition.py: one `Kind` per class, the item
 * attributes a schema record sets, the name-to-class factory, and each
 * class's `cast`, `display`, `mini`/`maxi`, `bytesSize` and single-value
 * `encode`/`decode`.
 */
module Items {
  import opened Common
  import opened Text
  import opened Packing

  /** One Python item class. */
  datatype Kind =
    | Uint8Item | Int8Item | Uint16Item | Uint32Item | Uint64Item
    | FloatItem | LongFloatItem | StringItem
    | Enum8Item | Enum32Item | Enum16Item

  /** The `datatype` attribute each class's constructor sets; the 16-bit
      enumeration class sets "enum32". */
  function DatatypeName(k: Kind): string
  {
    match k
    case Uint8Item => "uint8"
    case Int8Item => "int8"
    case Uint16Item => "uint16"
    case Uint32Item => "uint32"
    case Uint64Item => "uint64"
    case FloatItem => "float"
    case LongFloatItem => "longfloat"
    case StringItem => "string"
    case Enum8Item => "enum8"
    case Enum32Item => "enum32"
    case Enum16Item => "enum32"
  }

  /** The classes derived from the unsigned 8-bit class, floats included. */
  predicate IsNumeric(k: Kind)
  {
    k in {Uint8Item, Int8Item, Uint16Item, Uint32Item, Uint64Item, FloatItem, LongFloatItem}
  }

  predicate IsInteger(k: Kind)
  {
    k in {Uint8Item, Int8Item, Uint16Item, Uint32Item, Uint64Item}
  }

  predicate IsEnum(k: Kind)
  {
    k in {Enum8Item, Enum16Item, Enum32Item}
  }

  /** A JSON object from label to value as `json.load` leaves it: each label
      once, in key order (a repeated key keeps its last value). */
  type LabelMap = pairs: seq<(string, int)> | DistinctLabels(pairs) witness []

  /** `datarange`: a JSON list (an integer item's `[mini, maxi]`), or an
      enumeration's JSON object from label to value. */
  datatype Range = RangeList(elements: seq<Value>) | RangeDict(pairs: LabelMap)

  /** One schema record after `json.load`, every key absent from it holding
      the default the generic item's constructor gives. */
  datatype Record = Record(
    name: string,
    dataType: string,
    defaultValue: Value,
    description: string,
    length: nat,
    datarange: Range,
    editable: int,
    displayType: string)

  /** One item object: its class and its attributes. */
  datatype Item = Item(
    kind: Kind,
    name: string,
    dataType: string,
    defaultValue: Value,
    description: string,
    length: nat,
    datarange: Range,
    editable: int,
    displayType: string)

  /** The `encoding` attribute; a string item's is `"{length}s"`. */
  function Encoding(item: Item): Format
  {
    match item.kind
    case Uint8Item => UInt8
    case Int8Item => Int8
    case Uint16Item => UInt16
    case Uint32Item => UInt32
    case Uint64Item => UInt64
    case FloatItem => Float32
    case LongFloatItem => Float64
    case StringItem => Chars(item.length)
    case Enum8Item => UInt8
    case Enum32Item => UInt32
    case Enum16Item => UInt16
  }

  /** `bytesSize()`: `struct.calcsize(encoding)`. */
  function ItemSize(item: Item): (r: nat)
    ensures item.kind == StringItem ==> r == item.length
    ensures item.kind in {Uint8Item, Int8Item, Enum8Item} ==> r == 1
    ensures item.kind in {Uint16Item, Enum16Item} ==> r == 2
    ensures item.kind in {Uint32Item, Enum32Item, FloatItem} ==> r == 4
    ensures item.kind in {Uint64Item, LongFloatItem} ==> r == 8
  {
    Size(Encoding(item))
  }

  /** The largest finite IEEE single and double, from their bit patterns
      0x7f7fffff and 0x7fefffffffffffff. */
  const Float32Max: real := (16777215 * Pow256(13)) as real
  const Float64Max: real := (9007199254740991 * 8 * Pow256(121)) as real

  /** `mini()`; the generic class returns None. */
  function Mini(item: Item): (r: Value)
    ensures IsInteger(item.kind) ==> r.Int? && r.i <= 0
    ensures item.kind in {FloatItem, LongFloatItem} ==> r.Float? && r.r < 0.0
    ensures !IsNumeric(item.kind) ==> r == Nil
  {
    match item.kind
    case Int8Item => Int(-128)
    case FloatItem => Float(-Float32Max)
    case LongFloatItem => Float(-Float64Max)
    case _ => if IsInteger(item.kind) then Int(0) else Nil
  }

  /** `maxi()`: `2 ** (8 * bytesSize()) - 1` for unsigned classes. */
  function Maxi(item: Item): (r: Value)
    ensures IsInteger(item.kind) ==> r.Int? && Mini(item).Int? && r.i - Mini(item).i == Pow256(ItemSize(item)) - 1
    ensures item.kind in {FloatItem, LongFloatItem} ==> r.Float? && Mini(item) == Float(-r.r)
    ensures !IsNumeric(item.kind) ==> r == Nil
  {
    match item.kind
    case Int8Item => Int(127)
    case FloatItem => Float(Float32Max)
    case LongFloatItem => Float(Float64Max)
    case _ => if IsInteger(item.kind) then Int(Pow256(ItemSize(item)) - 1) else Nil
  }

  /** The unsigned classes span all values of their width. */
  lemma UnsignedBounds(item: Item)
    requires IsInteger(item.kind) && item.kind != Int8Item
    ensures Mini(item) == Int(0)
    ensures item.kind == Uint8Item ==> Maxi(item) == Int(255) && ItemSize(item) == 1
    ensures item.kind == Uint16Item ==> Maxi(item) == Int(65535) && ItemSize(item) == 2
    ensures item.kind == Uint32Item ==> Maxi(item) == Int(4294967295) && ItemSize(item) == 4
    ensures item.kind == Uint64Item ==> Maxi(item) == Int(18446744073709551615) && ItemSize(item) == 8
  {
    assert Pow256(2) == 65536 by { assert Pow256(1) == 256; }
    assert Pow256(4) == 4294967296 by { assert Pow256(3) == 16777216; }
    assert Pow256(8) == 18446744073709551616 by {
      assert Pow256(6) == 281474976710656 by { assert Pow256(5) == 1099511627776; }
      assert Pow256(7) == 72057594037927936;
    }
  }

  /** The item classes in the order the factory lists them. */
  const Registry: seq<Kind> := [
    Uint8Item, Uint16Item, Uint32Item, FloatItem, StringItem, Enum8Item,
    LongFloatItem, Int8Item, Enum32Item, Enum16Item, Uint64Item]

  /** A dictionary built from `Registry` keeps, for each name, the last
      class that has it. */
  function LastRegistered(reg: seq<Kind>, name: string): (r: Option<Kind>)
    ensures r.Some? ==> r.value in reg && DatatypeName(r.value) == name
    ensures r.None? <==> forall k :: k in reg ==> DatatypeName(k) != name
  {
    if reg == [] then None
    else if DatatypeName(reg[|reg| - 1]) == name then Some(reg[|reg| - 1])
    else LastRegistered(reg[..|reg| - 1], name)
  }

  /** The keys of the factory's dictionary; "enum16" is not one. */
  const KnownDatatypes: set<string> :=
    {"uint8", "uint16", "uint32", "float", "string", "enum8", "longfloat", "int8", "enum32", "uint64"}

  /** Every class is in the registry, so the dictionary's keys are the
      names of the classes. */
  lemma RegistryNames(name: string)
    ensures (forall k :: k in Registry ==> DatatypeName(k) != name) <==> name !in KnownDatatypes
  {
    if name in KnownDatatypes {
      var k := NamedKind(name);
      AllKindsRegistered();
      assert k in Registry;
    } else {
      forall k | k in Registry
        ensures DatatypeName(k) != name
      {
        KindNameKnown(k);
      }
    }
  }

  lemma AllKindsRegistered()
    ensures forall k: Kind :: k in Registry
  {
    forall k: Kind
      ensures k in Registry
    {
      var i := match k
        case Uint8Item => 0 case Uint16Item => 1 case Uint32Item => 2
        case FloatItem => 3 case StringItem => 4 case Enum8Item => 5
        case LongFloatItem => 6 case Int8Item => 7 case Enum32Item => 8
        case Enum16Item => 9 case Uint64Item => 10;
      assert Registry[i] == k;
    }
  }

  /** A class carrying each known name. */
  lemma NamedKind(name: string) returns (k: Kind)
    requires name in KnownDatatypes
    ensures DatatypeName(k) == name
  {
    if name == "uint8" { k := Uint8Item; }
    else if name == "uint16" { k := Uint16Item; }
    else if name == "uint32" { k := Uint32Item; }
    else if name == "float" { k := FloatItem; }
    else if name == "string" { k := StringItem; }
    else if name == "enum8" { k := Enum8Item; }
    else if name == "longfloat" { k := LongFloatItem; }
    else if name == "int8" { k := Int8Item; }
    else if name == "enum32" { k := Enum32Item; }
    else { k := Uint64Item; }
  }

  /** Every class's name is a known datatype name. */
  lemma KindNameKnown(k: Kind)
    ensures DatatypeName(k) in KnownDatatypes
  {
  }

  /** `self.tdefs[name]`: the class the factory instantiates for a datatype
      name, or None where the lookup raises KeyError. */
  function KindOf(name: string): (r: Option<Kind>)
    ensures r.Some? ==> DatatypeName(r.value) == name
    ensures r.None? <==> name !in KnownDatatypes
    ensures r != Some(Enum32Item)
  {
    Enum32Shadowed(name);
    RegistryNames(name);
    LastRegistered(Registry, name)
  }

  /** The 16-bit class comes after the 32-bit one and takes its name. */
  lemma Enum32Shadowed(name: string)
    ensures LastRegistered(Registry, name) != Some(Enum32Item)
  {
    if name == "enum32" {
      assert Registry[|Registry| - 1] == Uint64Item;
      assert Registry[..|Registry| - 1][|Registry| - 2] == Enum16Item;
    }
  }

  /** "enum32" builds the two-byte class and "enum16" is not a datatype. */
  lemma EnumNames()
    ensures KindOf("enum32") == Some(Enum16Item)
    ensures KindOf("enum16") == None
  {
    assert Registry[..10][9] == Enum16Item;
    assert LastRegistered(Registry[..10], "enum32") == Some(Enum16Item);
  }

  /** The class's `parse`: every record key becomes an attribute; a numeric
      class then overwrites `datarange` with `[mini, maxi]`; an enumeration
      class builds its reverse map, which fails on a list. */
  function Parse(k: Kind, rec: Record): (r: Result<Item>)
    ensures r.Ok? <==> !(IsEnum(k) && rec.datarange.RangeList?)
    ensures r.Ok? ==> (r.value.kind == k && r.value.name == rec.name && r.value.dataType == rec.dataType
                       && r.value.defaultValue == rec.defaultValue && r.value.length == rec.length
                       && r.value.displayType == rec.displayType
                       && r.value.description == rec.description && r.value.editable == rec.editable)
    ensures r.Ok? && IsNumeric(k) ==> r.value.datarange == RangeList([Mini(r.value), Maxi(r.value)])
    ensures r.Ok? && !IsNumeric(k) ==> r.value.datarange == rec.datarange
    ensures !r.Ok? ==> r == Err(AttributeError)
  {
    var item := Item(k, rec.name, rec.dataType, rec.defaultValue, rec.description,
                     rec.length, rec.datarange, rec.editable, rec.displayType);
    if IsNumeric(k) then Ok(item.(datarange := RangeList([Mini(item), Maxi(item)])))
    else if IsEnum(k) && rec.datarange.RangeList? then Err(AttributeError)
    else Ok(item)
  }

  /** `TableDefinitionItemFactory.create`: None for an unknown datatype. */
  function Create(rec: Record): (r: Result<Option<Item>>)
    ensures r == Ok(None) <==> rec.dataType !in KnownDatatypes
    ensures r.Ok? && r.value.Some? ==>
      KindOf(rec.dataType) == Some(r.value.value.kind) && r.value.value.name == rec.name
      && r.value.value.dataType == DatatypeName(r.value.value.kind)
    ensures r.Err? ==> r == Err(AttributeError)
  {
    match KindOf(rec.dataType)
    case None => Ok(None)
    case Some(k) =>
      match Parse(k, rec)
      case Ok(item) => Ok(Some(item))
      case Err(e) => Err(e)
  }

  /** The integer classes' `cast` of text. */
  function CastIntegerText(s: string): (r: Result<Value>)
    ensures s == "" ==> r == Ok(Int(0))
    ensures r.Ok? ==> r.value.Int?
    ensures HasHexPrefix(s) && r.Ok? ==> r.value.i >= 0
    ensures r.Err? ==> r == (if HasHexPrefix(s) then Err(NotModelled) else Err(ValueError))
  {
    if HasHexPrefix(s) then
      match EvalHexLiteral(s)
      case Ok(n) => Ok(Int(n))
      case Err(e) => Err(e)
    else if s != "" then
      match ParseInt(s)
      case Ok(n) => Ok(Int(n))
      case Err(e) => Err(e)
    else Ok(Int(0))
  }

  /** The largest integer magnitude up to which every integer is a double. */
  const ExactFloatInt: int := 9007199254740992

  /** The float classes' `cast`: `float(v)`, or 0.0 for empty text. An
      integer converts exactly only up to 2^53; beyond, `float` rounds or
      overflows, which is not modelled. */
  function CastFloat(v: Value): (r: Result<Value>)
    ensures v == Text("") ==> r == Ok(Float(0.0))
    ensures v.Int? ==> (r.Ok? <==> -ExactFloatInt <= v.i <= ExactFloatInt)
    ensures v.Int? && r.Ok? ==> r.value.Float? && r.value.r == v.i as real
    ensures r.Ok? ==> r.value.Float?
  {
    match v
    case Text(s) => if s == "" then Ok(Float(0.0)) else Err(NotModelled)
    case Int(i) => if -ExactFloatInt <= i <= ExactFloatInt then Ok(Float(i as real)) else Err(NotModelled)
    case Float(_) => Ok(v)
    case Nil => Err(TypeError)
    case Bytes(_) => Err(NotModelled)
  }

  /** `datarange[label]` of an enumeration's label-to-value pairs. */
  function LookupLabel(pairs: seq<(string, int)>, key: string): (r: Result<Value>)
    ensures r.Ok? <==> exists k :: 0 <= k < |pairs| && pairs[k].0 == key
    ensures r.Ok? ==> r.value.Int? && exists k :: 0 <= k < |pairs| && pairs[k] == (key, r.value.i)
    ensures r.Err? ==> r == Err(KeyError)
  {
    if pairs == [] then Err(KeyError)
    else if pairs[0].0 == key then Ok(Int(pairs[0].1))
    else
      var rest := LookupLabel(pairs[1..], key);
      assert rest.Ok? ==> exists k :: 0 <= k < |pairs| && pairs[k] == (key, rest.value.i) by {
        if rest.Ok? {
          var k :| 0 <= k < |pairs[1..]| && pairs[1..][k] == (key, rest.value.i);
          assert pairs[k + 1] == (key, rest.value.i);
        }
      }
      assert rest.Err? ==> forall k :: 0 <= k < |pairs| ==> pairs[k].0 != key by {
        if rest.Err? {
          forall k | 0 <= k < |pairs| ensures pairs[k].0 != key {
            if k > 0 { assert pairs[k] == pairs[1..][k - 1]; }
          }
        }
      }
      rest
  }

  /** `cast(valuestr)`: text is converted by the class's rule, any other
      value is returned unchanged (floats convert everything). */
  function Cast(item: Item, v: Value): (r: Result<Value>)
    ensures item.kind !in {FloatItem, LongFloatItem} && !v.Text? ==> r == Ok(v)
    ensures item.kind == StringItem ==> r == Ok(v)
    ensures IsInteger(item.kind) && v == Text("") ==> r == Ok(Int(0))
    ensures item.kind in {FloatItem, LongFloatItem} && v == Text("") ==> r == Ok(Float(0.0))
    ensures item.kind in {FloatItem, LongFloatItem} && v.Int? ==>
      (r.Ok? <==> -ExactFloatInt <= v.i <= ExactFloatInt) && (r.Ok? ==> r == Ok(Float(v.i as real)))
    ensures (IsInteger(item.kind) || IsEnum(item.kind)) && v.Text? && r.Ok? ==> r.value.Int?
    ensures IsEnum(item.kind) && v.Text? && item.datarange.RangeDict? ==>
      (r.Ok? <==> exists k :: 0 <= k < |item.datarange.pairs| && item.datarange.pairs[k].0 == v.s)
      && (r.Err? ==> r == Err(KeyError))
  {
    if item.kind.FloatItem? || item.kind.LongFloatItem? then CastFloat(v)
    else if !v.Text? || item.kind == StringItem then Ok(v)
    else if IsEnum(item.kind) then
      match item.datarange
      case RangeList(_) => Err(TypeError)
      case RangeDict(pairs) => LookupLabel(pairs, v.s)
    else CastIntegerText(v.s)
  }

  /** Whether a reverse-map key equals `v` as Python compares numbers. */
  predicate SameNumber(v: Value, x: int)
  {
    (v.Int? && v.i == x) || (v.Float? && v.r == x as real)
  }

  /** `reverse[v]`, where `reverse = {v: k for k, v in datarange.items()}`:
      the last label mapped to `v`. */
  function ReverseLookup(pairs: seq<(string, int)>, v: Value): (r: Option<string>)
    ensures r.Some? ==> exists k :: 0 <= k < |pairs| && pairs[k].0 == r.value && SameNumber(v, pairs[k].1)
    ensures r.None? <==> forall k :: 0 <= k < |pairs| ==> !SameNumber(v, pairs[k].1)
  {
    if pairs == [] then None
    else if SameNumber(v, pairs[|pairs| - 1].1) then Some(pairs[|pairs| - 1].0)
    else
      var r := ReverseLookup(pairs[..|pairs| - 1], v);
      assert forall k :: 0 <= k < |pairs| - 1 ==> pairs[..|pairs| - 1][k] == pairs[k];
      r
  }

  /** `str(v)`, for the values whose text this model covers. */
  function Str(v: Value): Result<string>
  {
    match v
    case Text(s) => Ok(s)
    case Int(i) => Ok(DecimalText(i))
    case Nil => Ok("None")
    case Float(_) => Err(NotModelled)
    case Bytes(_) => Err(NotModelled)
  }

  /** `display(value)`. The numeric classes give the value itself, or
      `hex(value)` when `displaytype` is "hex"; enumerations give the label,
      or "ERROR" for an unmapped value; the rest give `str(value)`. */
  function Display(item: Item, v: Value): (r: Result<Value>)
    ensures IsNumeric(item.kind) && Lower(item.displayType) != "hex" ==> r == Ok(v)
    ensures IsNumeric(item.kind) && Lower(item.displayType) == "hex" ==>
      (r.Ok? <==> v.Int?) && (r.Ok? ==> r.value.Text? && (v.i >= 0 ==> HasHexPrefix(r.value.s)))
    ensures IsEnum(item.kind) && item.datarange.RangeDict? ==> r.Ok? && r.value.Text?
    ensures !IsNumeric(item.kind) && !IsEnum(item.kind) && v.Text? ==> r == Ok(v)
    ensures !IsNumeric(item.kind) && r.Ok? ==> r.value.Text?
  {
    if IsNumeric(item.kind) then
      if Lower(item.displayType) == "hex" then
        if v.Int? then Ok(Text(HexText(v.i))) else Err(TypeError)
      else Ok(v)
    else if IsEnum(item.kind) then
      match item.datarange
      case RangeList(_) => Err(AttributeError)
      case RangeDict(pairs) =>
        match ReverseLookup(pairs, v)
        case Some(key) => Ok(Text(key))
        case None => Ok(Text("ERROR"))
    else
      match Str(v)
      case Ok(s) => Ok(Text(s))
      case Err(e) => Err(e)
  }

  /** The item's own `encode`: a string item turns text into UTF-8 bytes. */
  function ItemEncode(item: Item, v: Value): (r: Result<Value>)
    ensures item.kind != StringItem ==> r == Ok(v)
    ensures item.kind == StringItem ==> (r.Ok? <==> v.Text? && IsAscii(v.s))
    ensures item.kind == StringItem && r.Ok? ==> r.value.Bytes? && |r.value.b| == |v.s|
  {
    if item.kind != StringItem then Ok(v)
    else if !v.Text? then Err(TypeError)
    else
      match EncodeUtf8(v.s)
      case Ok(b) => Ok(Bytes(b))
      case Err(e) => Err(e)
  }

  /** The item's own `decode`: a string item turns bytes into text with
      every NUL removed. */
  function ItemDecode(item: Item, v: Value): (r: Result<Value>)
    ensures item.kind != StringItem || !v.Bytes? ==> r == Ok(v)
    ensures item.kind == StringItem && v.Bytes? ==> (r.Ok? <==> forall k :: 0 <= k < |v.b| ==> v.b[k] < 128)
    ensures item.kind == StringItem && v.Bytes? && r.Ok? ==> r.value.Text? && |r.value.s| <= |v.b| && '\0' !in r.value.s
  {
    if item.kind != StringItem || !v.Bytes? then Ok(v)
    else
      match DecodeUtf8(v.b)
      case Ok(s) => Ok(Text(RemoveNul(s)))
      case Err(e) => Err(e)
  }

  /** `struct.pack(order + item.encoding, item.encode(value))`. */
  function EncodeValue(item: Item, v: Value, bigEndian: bool): (r: Result<seq<byte>>)
    ensures r.Ok? ==> |r.value| == ItemSize(item)
  {
    match ItemEncode(item, v)
    case Err(e) => Err(e)
    case Ok(u) => Pack(Encoding(item), u, bigEndian)
  }

  /** The values that survive an encode and decode unchanged: integers in
      the format's range, and NUL-free ASCII text that fits a string item. */
  predicate Conforms(item: Item, v: Value)
  {
    if item.kind == StringItem then
      v.Text? && IsAscii(v.s) && '\0' !in v.s && |v.s| <= item.length
    else !IsFloat(Encoding(item)) && PackAccepts(Encoding(item), v)
  }

  /** Packing fails on an integer exactly when it lies outside
      `[mini(), maxi()]`. */
  lemma IntegerEncodeRange(item: Item, i: int, bigEndian: bool)
    requires IsInteger(item.kind)
    ensures Mini(item).Int? && Maxi(item).Int?
    ensures EncodeValue(item, Int(i), bigEndian).Ok? <==> Mini(item).i <= i <= Maxi(item).i
    ensures EncodeValue(item, Int(i), bigEndian).Err? ==> EncodeValue(item, Int(i), bigEndian) == Err(StructError)
  {
  }

  /** A string item keeps at most `length` bytes of ASCII text, and its
      decode removes every NUL. */
  lemma {:induction false} StringRoundTrip(item: Item, s: string, bigEndian: bool)
    requires item.kind == StringItem && IsAscii(s)
    ensures EncodeValue(item, Text(s), bigEndian).Ok?
    ensures var packed := EncodeValue(item, Text(s), bigEndian).value;
      ItemDecode(item, Unpack(Encoding(item), packed, bigEndian).value)
        == Ok(Text(RemoveNul(if |s| <= item.length then s else s[..item.length])))
  {
    var n := item.length;
    var b := EncodeUtf8(s).value;
    UnpackPack(Chars(n), Bytes(b), bigEndian);
    var fitted := Fit(b, n);
    Utf8RoundTrip(s);
    if |s| <= n {
      var nuls: string := seq(n - |s|, _ => '\0');
      var t := DecodeUtf8(fitted).value;
      assert t == s + nuls by {
        assert forall k :: 0 <= k < |s| ==> fitted[k] == b[k];
        assert forall k :: |s| <= k < n ==> fitted[k] == 0;
      }
      RemoveNulAppend(s, nuls);
      RemoveNulOfNuls(nuls);
      assert RemoveNul(s) + [] == RemoveNul(s);
    } else {
      assert DecodeUtf8(fitted).value == s[..n];
    }
  }

  /** Encoding then decoding a conforming value gives it back, under either
      byte order. */
  lemma ValueRoundTrip(item: Item, v: Value, bigEndian: bool)
    requires Conforms(item, v)
    ensures EncodeValue(item, v, bigEndian).Ok?
    ensures ItemDecode(item, Unpack(Encoding(item), EncodeValue(item, v, bigEndian).value, bigEndian).value) == Ok(v)
  {
    if item.kind == StringItem {
      StringRoundTrip(item, v.s, bigEndian);
      RemoveNulOfNulFree(v.s);
    } else {
      UnpackPack(Encoding(item), v, bigEndian);
    }
  }

  /** Every decimal integer, negative ones included, casts to itself: the
      unsigned classes do not reject negative text. */
  lemma IntegerCastOfDecimal(item: Item, n: int)
    requires IsInteger(item.kind)
    ensures Cast(item, Text(DecimalText(n))) == Ok(Int(n))
  {
    var s := DecimalText(n);
    ParseIntOfDecimalText(n);
    DecimalTextIsNotHex(n);
    assert CastIntegerText(s) == Ok(Int(n));
    IntegerCastOfText(item, s);
  }

  /** The integer classes convert text by the integer rule. */
  lemma IntegerCastOfText(item: Item, s: string)
    requires IsInteger(item.kind)
    ensures Cast(item, Text(s)) == CastIntegerText(s)
  {
  }

  /** An integer item's display casts back to the same value: as the value
      itself, or through `hex` for a non-negative value. */
  lemma IntegerCastOfDisplay(item: Item, n: int)
    requires IsInteger(item.kind)
    requires n >= 0 || Lower(item.displayType) != "hex"
    ensures Display(item, Int(n)).Ok?
    ensures Cast(item, Display(item, Int(n)).value) == Ok(Int(n))
  {
    if Lower(item.displayType) == "hex" {
      HexTextEvaluates(n);
    }
  }

  predicate DistinctLabels(pairs: seq<(string, int)>)
  {
    forall j, k :: 0 <= j < k < |pairs| ==> pairs[j].0 != pairs[k].0
  }

  predicate DistinctValues(pairs: seq<(string, int)>)
  {
    forall j, k :: 0 <= j < k < |pairs| ==> pairs[j].1 != pairs[k].1
  }

  /** For an enumeration whose values are distinct, a label casts to its
      value and that value displays as the label. */
  lemma EnumRoundTrip(item: Item, k: nat)
    requires IsEnum(item.kind) && item.datarange.RangeDict?
    requires k < |item.datarange.pairs| && DistinctValues(item.datarange.pairs)
    ensures Cast(item, Text(item.datarange.pairs[k].0)) == Ok(Int(item.datarange.pairs[k].1))
    ensures Display(item, Int(item.datarange.pairs[k].1)) == Ok(Text(item.datarange.pairs[k].0))
  {
    var pairs := item.datarange.pairs;
    EnumCastLooksUp(item, pairs[k].0);
    LabelFindsValue(pairs, k);
    EnumDisplayReverses(item, Int(pairs[k].1));
    ValueFindsLabel(pairs, k);
  }

  /** An enumeration with a dictionary casts text by looking the label up. */
  lemma EnumCastLooksUp(item: Item, key: string)
    requires IsEnum(item.kind) && item.datarange.RangeDict?
    ensures Cast(item, Text(key)) == LookupLabel(item.datarange.pairs, key)
  {
  }

  /** An enumeration with a dictionary displays a value as the label the
      reverse map gives, or "ERROR". */
  lemma EnumDisplayReverses(item: Item, v: Value)
    requires IsEnum(item.kind) && item.datarange.RangeDict?
    ensures ReverseLookup(item.datarange.pairs, v).Some? ==>
      Display(item, v) == Ok(Text(ReverseLookup(item.datarange.pairs, v).value))
    ensures ReverseLookup(item.datarange.pairs, v).None? ==> Display(item, v) == Ok(Text("ERROR"))
  {
  }

  lemma LabelFindsValue(pairs: seq<(string, int)>, k: nat)
    requires k < |pairs| && DistinctLabels(pairs)
    ensures LookupLabel(pairs, pairs[k].0) == Ok(Int(pairs[k].1))
  {
    var r := LookupLabel(pairs, pairs[k].0);
    assert r.Ok?;
    var j :| 0 <= j < |pairs| && pairs[j] == (pairs[k].0, r.value.i);
    assert j == k;
  }

  lemma ValueFindsLabel(pairs: seq<(string, int)>, k: nat)
    requires k < |pairs| && DistinctValues(pairs)
    ensures ReverseLookup(pairs, Int(pairs[k].1)) == Some(pairs[k].0)
  {
    var l := ReverseLookup(pairs, Int(pairs[k].1));
    assert SameNumber(Int(pairs[k].1), pairs[k].1);
    var m :| 0 <= m < |pairs| && pairs[m].0 == l.value && SameNumber(Int(pairs[k].1), pairs[m].1);
    assert m == k;
  }

  /** An unknown label fails the cast and an unmapped value displays "ERROR". */
  lemma EnumMisses(item: Item, key: string, v: Value)
    requires IsEnum(item.kind) && item.datarange.RangeDict?
    requires forall k :: 0 <= k < |item.datarange.pairs| ==> item.datarange.pairs[k].0 != key
    requires forall k :: 0 <= k < |item.datarange.pairs| ==> !SameNumber(v, item.datarange.pairs[k].1)
    ensures Cast(item, Text(key)).Err?
    ensures Display(item, v) == Ok(Text("ERROR"))
  {
    EnumCastLooksUp(item, key);
    EnumDisplayReverses(item, v);
  }
}
