/**
 * Python's `struct` module as the codec uses it: the format codes of the
 * item classes, standard sizes with no alignment (the formats always carry
 * an explicit `>` or `<`), and packing and unpacking of one value or of a
 * concatenated format.
 */
module Packing {
  import opened Common

  /** One `struct` format code: `B`, `b`, `H`, `I`, `Q`, `f`, `d` and `{n}s`. */
  datatype Format = UInt8 | Int8 | UInt16 | UInt32 | UInt64 | Float32 | Float64 | Chars(n: nat)

  /** `struct.calcsize` of one code with an explicit byte order. */
  function Size(f: Format): nat
  {
    match f
    case UInt8 => 1
    case Int8 => 1
    case UInt16 => 2
    case UInt32 => 4
    case UInt64 => 8
    case Float32 => 4
    case Float64 => 8
    case Chars(n) => n
  }

  predicate IsUnsigned(f: Format)
  {
    f.UInt8? || f.UInt16? || f.UInt32? || f.UInt64?
  }

  predicate IsFloat(f: Format)
  {
    f.Float32? || f.Float64?
  }

  /** `struct.calcsize` of a concatenated format: no padding between codes. */
  function TotalSize(fs: seq<Format>): nat
  {
    if fs == [] then 0 else TotalSize(fs[..|fs| - 1]) + Size(fs[|fs| - 1])
  }

  lemma {:induction false} TotalSizeAppend(a: seq<Format>, b: seq<Format>)
    ensures TotalSize(a + b) == TotalSize(a) + TotalSize(b)
    decreases |b|
  {
    if b == [] {
      assert a + b == a;
    } else {
      assert (a + b)[..|a + b| - 1] == a + b[..|b| - 1];
      TotalSizeAppend(a, b[..|b| - 1]);
    }
  }

  function Pow256(w: nat): (r: nat)
    ensures r >= 1
  {
    if w == 0 then 1 else 256 * Pow256(w - 1)
  }

  /** The `w` little-endian bytes of `n`. */
  function LittleEndian(n: nat, w: nat): (r: seq<byte>)
    requires n < Pow256(w)
    ensures |r| == w
  {
    if w == 0 then [] else [n % 256] + LittleEndian(n / 256, w - 1)
  }

  /** The number whose little-endian bytes are `bs`. */
  function FromLittleEndian(bs: seq<byte>): (n: nat)
    ensures n < Pow256(|bs|)
  {
    if bs == [] then 0 else bs[0] + 256 * FromLittleEndian(bs[1..])
  }

  lemma {:induction false} FromToLittleEndian(n: nat, w: nat)
    requires n < Pow256(w)
    ensures FromLittleEndian(LittleEndian(n, w)) == n
  {
    if w > 0 {
      var bs := LittleEndian(n, w);
      assert bs[1..] == LittleEndian(n / 256, w - 1);
      FromToLittleEndian(n / 256, w - 1);
    }
  }

  lemma {:induction false} ToFromLittleEndian(bs: seq<byte>)
    ensures LittleEndian(FromLittleEndian(bs), |bs|) == bs
  {
    if bs != [] {
      var n := FromLittleEndian(bs);
      assert n % 256 == bs[0] && n / 256 == FromLittleEndian(bs[1..]);
      ToFromLittleEndian(bs[1..]);
    }
  }

  function Reverse(bs: seq<byte>): (r: seq<byte>)
    ensures |r| == |bs|
    ensures forall k :: 0 <= k < |bs| ==> r[k] == bs[|bs| - 1 - k]
  {
    if bs == [] then [] else Reverse(bs[1..]) + [bs[0]]
  }

  lemma ReverseReverse(bs: seq<byte>)
    ensures Reverse(Reverse(bs)) == bs
  {
  }

  /** Byte `k` of `n`, counting from the least significant. */
  function ByteOf(n: nat, k: nat): byte
  {
    (n / Pow256(k)) % 256
  }

  /** Little-endian byte `k` is byte `k` of the number. */
  lemma {:induction false} LittleEndianAt(n: nat, w: nat, k: nat)
    requires n < Pow256(w) && k < w
    ensures LittleEndian(n, w)[k] == ByteOf(n, k)
    decreases w
  {
    if k > 0 {
      LittleEndianAt(n / 256, w - 1, k - 1);
      DivDiv(n, Pow256(k - 1));
    }
  }

  lemma DivDiv(n: nat, p: nat)
    requires p >= 1
    ensures (n / 256) / p == n / (256 * p)
  {
    var q, r := n / 256, n % 256;
    var q2, r2 := q / p, q % p;
    assert n == 256 * (p * q2 + r2) + r;
    assert n == (256 * p) * q2 + (256 * r2 + r);
    assert 0 <= 256 * r2 + r < 256 * p;
    DivUnique(n, 256 * p, q2, 256 * r2 + r);
  }

  lemma DivUnique(n: nat, d: nat, q: nat, r: nat)
    requires d >= 1 && n == d * q + r && r < d
    ensures n / d == q
  {
    var q0, r0 := n / d, n % d;
    assert d * (q0 - q) == r - r0 by {
      assert d * q0 + r0 == d * q + r;
      assert d * (q0 - q) == d * q0 - d * q;
    }
    if q0 > q {
      MulAtLeast(d, q0 - q);
    } else if q0 < q {
      MulAtLeast(d, q - q0);
    }
  }

  lemma MulAtLeast(d: nat, x: nat)
    requires x >= 1
    ensures d * x >= d
  {
  }

  /** The `w` bytes of `n` in the chosen order: `>` puts the most significant
      byte first, `<` the least significant. */
  function UnsignedBytes(n: nat, w: nat, bigEndian: bool): (r: seq<byte>)
    requires n < Pow256(w)
    ensures |r| == w
    ensures !bigEndian ==> forall k :: 0 <= k < w ==> r[k] == ByteOf(n, k)
    ensures bigEndian ==> forall k :: 0 <= k < w ==> r[w - 1 - k] == ByteOf(n, k)
  {
    var le := LittleEndian(n, w);
    forall k | 0 <= k < w ensures le[k] == ByteOf(n, k) {
      LittleEndianAt(n, w, k);
    }
    if bigEndian then Reverse(le) else le
  }

  function UnsignedValue(bs: seq<byte>, bigEndian: bool): (n: nat)
    ensures n < Pow256(|bs|)
  {
    FromLittleEndian(if bigEndian then Reverse(bs) else bs)
  }

  /** The bytes `struct.pack` gives for `{n}s`: truncated, or NUL-padded. */
  function Fit(b: seq<byte>, n: nat): (r: seq<byte>)
    ensures |r| == n
  {
    if |b| >= n then b[..n] else b + seq(n - |b|, _ => 0)
  }

  /** `struct.pack(order + code, v)`. An integer out of the code's range, or
      a value of the wrong kind, raises struct.error; floats are not modelled. */
  function Pack(f: Format, v: Value, bigEndian: bool): (r: Result<seq<byte>>)
    ensures r.Ok? ==> |r.value| == Size(f)
    ensures r.Ok? <==> !IsFloat(f) && PackAccepts(f, v)
  {
    match f
    case Int8 =>
      if v.Int? && -128 <= v.i < 128 then Ok([if v.i < 0 then v.i + 256 else v.i]) else Err(StructError)
    case Float32 => if v.Int? || v.Float? then Err(NotModelled) else Err(StructError)
    case Float64 => if v.Int? || v.Float? then Err(NotModelled) else Err(StructError)
    case Chars(n) => if v.Bytes? then Ok(Fit(v.b, n)) else Err(StructError)
    case _ =>
      if v.Int? && 0 <= v.i < Pow256(Size(f)) then Ok(UnsignedBytes(v.i, Size(f), bigEndian)) else Err(StructError)
  }

  /** The values a non-float code accepts: integers in range, or bytes for `s`. */
  predicate PackAccepts(f: Format, v: Value)
  {
    match f
    case Int8 => v.Int? && -128 <= v.i <= 127
    case Chars(_) => v.Bytes?
    case _ => v.Int? && 0 <= v.i <= Pow256(Size(f)) - 1
  }

  /** `struct.unpack(order + code, bs)[0]`. */
  function Unpack(f: Format, bs: seq<byte>, bigEndian: bool): (r: Result<Value>)
    requires |bs| == Size(f)
    ensures r.Ok? <==> !IsFloat(f)
  {
    match f
    case Int8 => Ok(Int(if bs[0] >= 128 then bs[0] as int - 256 else bs[0] as int))
    case Float32 => Err(NotModelled)
    case Float64 => Err(NotModelled)
    case Chars(_) => Ok(Bytes(bs))
    case _ => Ok(Int(UnsignedValue(bs, bigEndian)))
  }

  /** Unpacking what was packed gives the value back; for `s` the truncated
      or padded bytes. */
  lemma UnpackPack(f: Format, v: Value, bigEndian: bool)
    requires Pack(f, v, bigEndian).Ok?
    ensures Unpack(f, Pack(f, v, bigEndian).value, bigEndian)
         == Ok(if f.Chars? then Bytes(Fit(v.b, f.n)) else v)
  {
    if IsUnsigned(f) {
      var w := Size(f);
      ReverseReverse(LittleEndian(v.i, w));
      FromToLittleEndian(v.i, w);
    }
  }

  /** Packing what was unpacked gives the bytes back. */
  lemma PackUnpack(f: Format, bs: seq<byte>, bigEndian: bool)
    requires |bs| == Size(f) && !IsFloat(f)
    ensures Pack(f, Unpack(f, bs, bigEndian).value, bigEndian) == Ok(bs)
  {
    if IsUnsigned(f) {
      var o := if bigEndian then Reverse(bs) else bs;
      ToFromLittleEndian(o);
      ReverseReverse(bs);
    } else if f.Chars? {
      assert Fit(bs, f.n) == bs;
    } else {
      assert bs == [bs[0]];
    }
  }

  /** `struct.unpack(order + "".join(fs), buf)`: the buffer must have exactly
      the concatenated size, and each code reads the next `Size` bytes. */
  function UnpackAll(fs: seq<Format>, buf: seq<byte>, bigEndian: bool): (r: Result<seq<Value>>)
    ensures r.Ok? ==> |r.value| == |fs|
    ensures |buf| != TotalSize(fs) ==> r == Err(StructError)
  {
    if |buf| != TotalSize(fs) then Err(StructError)
    else if fs == [] then Ok([])
    else
      var f := fs[|fs| - 1];
      var cut := |buf| - Size(f);
      match UnpackAll(fs[..|fs| - 1], buf[..cut], bigEndian)
      case Err(e) => Err(e)
      case Ok(front) =>
        match Unpack(f, buf[cut..], bigEndian)
        case Err(e) => Err(e)
        case Ok(x) => Ok(front + [x])
  }

  /** Where code `k` starts inside a concatenated format. */
  function Offset(fs: seq<Format>, k: nat): nat
    requires k <= |fs|
  {
    TotalSize(fs[..k])
  }

  lemma {:induction false} OffsetBounds(fs: seq<Format>, k: nat)
    requires k < |fs|
    ensures Offset(fs, k) + Size(fs[k]) <= TotalSize(fs)
    decreases |fs|
  {
    if k < |fs| - 1 {
      assert fs[..|fs| - 1][..k] == fs[..k];
      OffsetBounds(fs[..|fs| - 1], k);
    } else {
      assert fs[..k] == fs[..|fs| - 1];
    }
  }

  /** A concatenated format without floats unpacks, and element `k` is the
      unpacking of its own slice of the buffer. */
  lemma {:induction false} UnpackAllAt(fs: seq<Format>, buf: seq<byte>, bigEndian: bool, k: nat)
    requires |buf| == TotalSize(fs) && k < |fs|
    requires forall j :: 0 <= j < |fs| ==> !IsFloat(fs[j])
    ensures Offset(fs, k) + Size(fs[k]) <= |buf|
    ensures UnpackAll(fs, buf, bigEndian).Ok?
    ensures UnpackAll(fs, buf, bigEndian).value[k]
         == Unpack(fs[k], buf[Offset(fs, k)..Offset(fs, k) + Size(fs[k])], bigEndian).value
    decreases |fs|
  {
    OffsetBounds(fs, k);
    var front := fs[..|fs| - 1];
    var cut := |buf| - Size(fs[|fs| - 1]);
    UnpackAllOk(front, buf[..cut], bigEndian);
    if k < |fs| - 1 {
      assert front[..k] == fs[..k];
      UnpackAllAt(front, buf[..cut], bigEndian, k);
      OffsetBounds(front, k);
      assert buf[..cut][Offset(fs, k)..Offset(fs, k) + Size(fs[k])]
          == buf[Offset(fs, k)..Offset(fs, k) + Size(fs[k])];
    } else {
      assert fs[..k] == front;
      assert buf[Offset(fs, k)..Offset(fs, k) + Size(fs[k])] == buf[cut..];
    }
  }

  lemma {:induction false} UnpackAllOk(fs: seq<Format>, buf: seq<byte>, bigEndian: bool)
    requires |buf| == TotalSize(fs)
    requires forall j :: 0 <= j < |fs| ==> !IsFloat(fs[j])
    ensures UnpackAll(fs, buf, bigEndian).Ok?
    decreases |fs|
  {
    if fs != [] {
      UnpackAllOk(fs[..|fs| - 1], buf[..|buf| - Size(fs[|fs| - 1])], bigEndian);
    }
  }

  /** Unpacking a format with one more code at the end reads one more value
      from the bytes after the front part. */
  lemma UnpackAllSnoc(fs: seq<Format>, f: Format, b1: seq<byte>, b2: seq<byte>, bigEndian: bool)
    requires |b1| == TotalSize(fs) && |b2| == Size(f)
    requires UnpackAll(fs, b1, bigEndian).Ok? && !IsFloat(f)
    ensures UnpackAll(fs + [f], b1 + b2, bigEndian)
         == Ok(UnpackAll(fs, b1, bigEndian).value + [Unpack(f, b2, bigEndian).value])
  {
    var all, buf := fs + [f], b1 + b2;
    assert all[..|all| - 1] == fs && all[|all| - 1] == f;
    TotalSizeAppend(fs, [f]);
    assert TotalSize([f]) == Size(f) by {
      assert [f][..0] == [];
    }
    assert buf[..|buf| - Size(f)] == b1 && buf[|buf| - Size(f)..] == b2;
  }
}
