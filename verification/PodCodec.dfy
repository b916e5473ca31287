/** The ten scalar types as bit patterns, their native-endian bytes, and typed buffers. */
module PodCodec {
  import opened Machine

  datatype PodType = U8 | I8 | U16 | I16 | U32 | I32 | U64 | I64 | F32 | F64

  /** The byte order of the machine; every law below holds for both. */
  datatype Endian = Little | Big

  function Size(t: PodType): (n: nat)
    ensures n > 0
  {
    match t
    case U8 | I8 => 1
    case U16 | I16 => 2
    case U32 | I32 | F32 => 4
    case U64 | I64 | F64 => 8
  }

  function Pow256(n: nat): (p: nat)
    ensures p > 0
  {
    if n == 0 then 1 else 256 * Pow256(n - 1)
  }

  predicate Fits(t: PodType, v: nat) { v < Pow256(Size(t)) }

  predicate AllFit(t: PodType, vs: seq<nat>) {
    forall i :: 0 <= i < |vs| ==> Fits(t, vs[i])
  }

  // ---- One value ----

  function LittleBytes(n: nat, v: nat): (bs: seq<byte>)
    ensures |bs| == n
  {
    if n == 0 then [] else [v % 256] + LittleBytes(n - 1, v / 256)
  }

  function FromLittle(bs: seq<byte>): (v: nat)
    ensures v < Pow256(|bs|)
  {
    if bs == [] then 0 else bs[0] + 256 * FromLittle(bs[1..])
  }

  lemma {:induction false} FromLittleBytes(n: nat, v: nat)
    requires v < Pow256(n)
    ensures FromLittle(LittleBytes(n, v)) == v
  {
    if n > 0 {
      FromLittleBytes(n - 1, v / 256);
      assert LittleBytes(n, v)[1..] == LittleBytes(n - 1, v / 256);
    }
  }

  lemma {:induction false} LittleBytesOf(bs: seq<byte>)
    ensures LittleBytes(|bs|, FromLittle(bs)) == bs
  {
    if bs != [] {
      LittleBytesOf(bs[1..]);
      var rest := FromLittle(bs[1..]);
      assert (bs[0] + 256 * rest) % 256 == bs[0] && (bs[0] + 256 * rest) / 256 == rest;
    }
  }

  function Reverse(bs: seq<byte>): (r: seq<byte>)
    ensures |r| == |bs|
    ensures forall i :: 0 <= i < |bs| ==> r[i] == bs[|bs| - 1 - i]
  {
    if bs == [] then [] else Reverse(bs[1..]) + [bs[0]]
  }

  /** `to_ne_bytes` */
  function ToNeBytes(e: Endian, t: PodType, v: nat): (bs: seq<byte>)
    ensures |bs| == Size(t)
  {
    if e.Little? then LittleBytes(Size(t), v) else Reverse(LittleBytes(Size(t), v))
  }

  /** `Pod::decode`: a byte string of the wrong length is an error. */
  function DecodeOne(e: Endian, t: PodType, bs: seq<byte>): Result<nat> {
    if |bs| != Size(t) then Err(BadByteLength)
    else Ok(if e.Little? then FromLittle(bs) else FromLittle(Reverse(bs)))
  }

  /** The widths, in numbers: bytes on the wire, and values each type can hold. */
  lemma Widths(e: Endian, t: PodType, v: nat)
    ensures |ToNeBytes(e, t, v)| == match t case U8 | I8 => 1 case U16 | I16 => 2
                                            case U32 | I32 | F32 => 4 case U64 | I64 | F64 => 8
    ensures Fits(t, v) <==> v < match t case U8 | I8 => 0x100 case U16 | I16 => 0x1_0000
                                        case U32 | I32 | F32 => 0x1_0000_0000
                                        case U64 | I64 | F64 => 0x1_0000_0000_0000_0000
  {
    assert Pow256(2) == 256 * Pow256(1) == 256 * (256 * Pow256(0));
    assert Pow256(4) == 256 * Pow256(3) == 256 * (256 * Pow256(2));
    assert Pow256(8) == 256 * Pow256(7) == 256 * (256 * Pow256(6));
    assert Pow256(6) == 256 * Pow256(5) == 256 * (256 * Pow256(4));
  }

  lemma DivDiv(v: nat, p: nat, product: nat)
    requires p > 0 && product == 256 * p
    ensures v / 256 / p == v / product
  {
    var a, b := v / 256, v % 256;
    var q, r := a / p, a % p;
    assert a == p * q + r;
    assert v == product * q + (256 * r + b) && 0 <= 256 * r + b < product;
    QuotientIs(v, product, q, 256 * r + b);
  }

  lemma QuotientIs(v: nat, d: nat, q: nat, r: nat)
    requires d > 0 && v == d * q + r && r < d
    ensures v / d == q
  {
    var x, y := v / d, v % d;
    assert v == d * x + y && y < d;
    if x > q {
      OneStepApart(d, q, x);
    } else if x < q {
      OneStepApart(d, x, q);
    }
  }

  lemma {:induction false} OneStepApart(d: nat, a: nat, b: nat)
    requires a < b
    ensures d * a + d <= d * b
    decreases b
  {
    assert d * b == d * (b - 1) + d;
    if a < b - 1 { OneStepApart(d, a, b - 1); }
  }

  lemma {:induction false} LittleByteAt(n: nat, v: nat, k: nat)
    requires k < n
    ensures LittleBytes(n, v)[k] == v / Pow256(k) % 256
  {
    if k > 0 {
      LittleByteAt(n - 1, v / 256, k - 1);
      DivDiv(v, Pow256(k - 1), Pow256(k));
    }
  }

  /** Byte `k` of a value counts `256^k`s: it comes `k`-th in little-endian order, `k`-th from the end
      in big-endian order. */
  lemma ByteOfValue(t: PodType, v: nat, k: nat)
    requires k < Size(t)
    ensures ToNeBytes(Little, t, v)[k] == v / Pow256(k) % 256
    ensures ToNeBytes(Big, t, v)[Size(t) - 1 - k] == v / Pow256(k) % 256
  {
    var bytes := LittleBytes(Size(t), v);
    LittleByteAt(Size(t), v, k);
    assert Reverse(bytes)[|bytes| - 1 - k] == bytes[k];
  }

  /** The f64 value 1.0 on the wire. */
  lemma OneAsF64()
    ensures Encode(Little, F64, [0x3FF0_0000_0000_0000]) == [0, 0, 0, 0, 0, 0, 0xF0, 0x3F]
    ensures Encode(Big, F64, [0x3FF0_0000_0000_0000]) == [0x3F, 0xF0, 0, 0, 0, 0, 0, 0]
  {
    OneBytes();
    var v, bytes := 0x3FF0_0000_0000_0000, LittleBytes(8, 0x3FF0_0000_0000_0000);
    var reversed := Reverse(bytes);
    assert reversed == [0x3F, 0xF0, 0, 0, 0, 0, 0, 0];
    EncodeOne(Little, F64, v);
    EncodeOne(Big, F64, v);
  }

  lemma OneBytes()
    ensures LittleBytes(8, 0x3FF0_0000_0000_0000) == [0, 0, 0, 0, 0, 0, 0xF0, 0x3F]
  {
    LowZeros(0x3FF0_0000_0000, 6);
    LowZeros(0x3FF0_0000, 4);
    LowZeros(0x3FF0, 2);
    assert LittleBytes(2, 0x3FF0) == [0xF0] + LittleBytes(1, 0x3F);
    assert LittleBytes(1, 0x3F) == [0x3F] + LittleBytes(0, 0);
  }

  lemma LowZeros(high: nat, n: nat)
    ensures LittleBytes(n + 2, 0x1_0000 * high) == [0, 0] + LittleBytes(n, high)
  {
    assert 0x1_0000 * high / 256 == 0x100 * high;
    assert LittleBytes(n + 2, 0x1_0000 * high) == [0] + LittleBytes(n + 1, 0x100 * high);
    assert LittleBytes(n + 1, 0x100 * high) == [0] + LittleBytes(n, high);
  }

  lemma EncodeOne(e: Endian, t: PodType, v: nat)
    ensures Encode(e, t, [v]) == ToNeBytes(e, t, v)
  {
    assert [v][1..] == [];
  }

  lemma ValueRoundTrip(e: Endian, t: PodType, v: nat)
    requires Fits(t, v)
    ensures DecodeOne(e, t, ToNeBytes(e, t, v)) == Ok(v)
  {
    var bs := LittleBytes(Size(t), v);
    FromLittleBytes(Size(t), v);
    assert Reverse(Reverse(bs)) == bs;
  }

  lemma BytesRoundTrip(e: Endian, t: PodType, bs: seq<byte>)
    requires |bs| == Size(t)
    ensures var r := DecodeOne(e, t, bs);
            r.Ok? && Fits(t, r.value) && ToNeBytes(e, t, r.value) == bs
  {
    LittleBytesOf(bs);
    LittleBytesOf(Reverse(bs));
    assert Reverse(Reverse(bs)) == bs;
  }

  // ---- Typed buffers ----

  /** Concatenation of the values' bytes. */
  function Encode(e: Endian, t: PodType, vs: seq<nat>): seq<byte> {
    if vs == [] then [] else ToNeBytes(e, t, vs[0]) + Encode(e, t, vs[1..])
  }

  lemma OneMore(n: nat, w: nat)
    requires n > 0
    ensures n * w == w + (n - 1) * w && (n - 1) * w >= 0
  {
  }

  lemma {:induction false} EncodeLength(e: Endian, t: PodType, vs: seq<nat>)
    ensures |Encode(e, t, vs)| == |vs| * Size(t)
  {
    if vs != [] {
      EncodeLength(e, t, vs[1..]);
      OneMore(|vs|, Size(t));
    }
  }

  /** `chunks_exact`: full chunks of `n`, a shorter remainder is dropped. */
  function ChunksExact(bs: seq<byte>, n: nat): (cs: seq<seq<byte>>)
    requires n > 0
    ensures forall i :: 0 <= i < |cs| ==> |cs[i]| == n
  {
    if |bs| < n then [] else [bs[..n]] + ChunksExact(bs[n..], n)
  }

  /** Decode every chunk, stopping at the first error. */
  function DecodeChunks(e: Endian, t: PodType, cs: seq<seq<byte>>): Result<seq<nat>> {
    if cs == [] then Ok([])
    else
      var v :- DecodeOne(e, t, cs[0]);
      var vs :- DecodeChunks(e, t, cs[1..]);
      Ok([v] + vs)
  }

  /** `bytes.chunks_exact(SIZE).map(decode).collect()` */
  function DecodeAll(e: Endian, t: PodType, bs: seq<byte>): Result<seq<nat>> {
    DecodeChunks(e, t, ChunksExact(bs, Size(t)))
  }

  lemma DecodeCons(e: Endian, t: PodType, head: seq<byte>, tail: seq<byte>)
    requires |head| == Size(t) && DecodeAll(e, t, tail).Ok?
    ensures DecodeOne(e, t, head).Ok?
    ensures DecodeAll(e, t, head + tail) == Ok([DecodeOne(e, t, head).value] + DecodeAll(e, t, tail).value)
  {
    var bs := head + tail;
    assert bs[..Size(t)] == head && bs[Size(t)..] == tail;
    var cs := ChunksExact(bs, Size(t));
    assert cs == [head] + ChunksExact(tail, Size(t));
    assert cs[1..] == ChunksExact(tail, Size(t));
  }

  /** Decoding what was encoded gives the values back, whatever the type and byte order. */
  lemma {:induction false} DecodeOfEncode(e: Endian, t: PodType, vs: seq<nat>)
    requires AllFit(t, vs)
    ensures DecodeAll(e, t, Encode(e, t, vs)) == Ok(vs)
  {
    if vs != [] {
      var v, rest := vs[0], vs[1..];
      assert vs == [v] + rest;
      ValueRoundTrip(e, t, v);
      DecodeOfEncode(e, t, rest);
      DecodeCons(e, t, ToNeBytes(e, t, v), Encode(e, t, rest));
    }
  }

  lemma EncodeCons(e: Endian, t: PodType, v: nat, vs: seq<nat>)
    ensures Encode(e, t, [v] + vs) == ToNeBytes(e, t, v) + Encode(e, t, vs)
  {
    assert ([v] + vs)[1..] == vs;
  }

  /** Any whole number of chunks decodes, and encoding the values gives the bytes back. */
  lemma {:induction false} EncodeOfDecode(e: Endian, t: PodType, bs: seq<byte>, n: nat)
    requires |bs| == n * Size(t)
    ensures var r := DecodeAll(e, t, bs);
            r.Ok? && |r.value| == n && AllFit(t, r.value) && Encode(e, t, r.value) == bs
    decreases n
  {
    if n > 0 {
      OneMore(n, Size(t));
      var head, tail := bs[..Size(t)], bs[Size(t)..];
      assert bs == head + tail;
      BytesRoundTrip(e, t, head);
      EncodeOfDecode(e, t, tail, n - 1);
      DecodeCons(e, t, head, tail);
      EncodeCons(e, t, DecodeOne(e, t, head).value, DecodeAll(e, t, tail).value);
    }
  }

  /** Any byte string decodes: to the values of its whole chunks, a shorter remainder being dropped. */
  lemma {:induction false} DecodeDropsRemainder(e: Endian, t: PodType, bs: seq<byte>)
    ensures var r := DecodeAll(e, t, bs);
            && r.Ok? && AllFit(t, r.value)
            && Encode(e, t, r.value) <= bs && |bs| < |Encode(e, t, r.value)| + Size(t)
    decreases |bs|
  {
    if |bs| >= Size(t) {
      var head, tail := bs[..Size(t)], bs[Size(t)..];
      assert bs == head + tail;
      BytesRoundTrip(e, t, head);
      DecodeDropsRemainder(e, t, tail);
      DecodeCons(e, t, head, tail);
      EncodeCons(e, t, DecodeOne(e, t, head).value, DecodeAll(e, t, tail).value);
    }
  }

  lemma {:induction false} EncodeConcat(e: Endian, t: PodType, us: seq<nat>, vs: seq<nat>)
    ensures Encode(e, t, us + vs) == Encode(e, t, us) + Encode(e, t, vs)
  {
    if us == [] {
      assert us + vs == vs;
    } else {
      assert (us + vs)[1..] == us[1..] + vs;
      EncodeConcat(e, t, us[1..], vs);
    }
  }

  /** Decoding distributes over whole chunks. */
  lemma DecodeConcat(e: Endian, t: PodType, a: seq<byte>, n: nat, b: seq<byte>, m: nat)
    requires |a| == n * Size(t) && |b| == m * Size(t)
    ensures DecodeAll(e, t, a).Ok? && DecodeAll(e, t, b).Ok?
    ensures DecodeAll(e, t, a + b) == Ok(DecodeAll(e, t, a).value + DecodeAll(e, t, b).value)
  {
    EncodeOfDecode(e, t, a, n);
    EncodeOfDecode(e, t, b, m);
    var us, vs := DecodeAll(e, t, a).value, DecodeAll(e, t, b).value;
    EncodeConcat(e, t, us, vs);
    DecodeOfEncode(e, t, us + vs);
  }

  /** Those values are the only ones whose encoding leaves less than one chunk of the bytes. */
  lemma DecodedUniquely(e: Endian, t: PodType, bs: seq<byte>, vs: seq<nat>)
    requires AllFit(t, vs) && Encode(e, t, vs) <= bs && |bs| < |Encode(e, t, vs)| + Size(t)
    ensures DecodeAll(e, t, bs) == Ok(vs)
  {
    DecodeDropsRemainder(e, t, bs);
    var us := DecodeAll(e, t, bs).value;
    EncodeLength(e, t, us);
    EncodeLength(e, t, vs);
    SameCount(|us|, |vs|, Size(t), |bs|);
    assert Encode(e, t, us) == bs[..|us| * Size(t)] == Encode(e, t, vs);
    DecodeOfEncode(e, t, us);
    DecodeOfEncode(e, t, vs);
  }

  lemma {:induction false} SameCount(n: nat, m: nat, w: nat, total: nat)
    requires n * w <= total < n * w + w && m * w <= total < m * w + w
    ensures n == m
  {
    if n > 0 && m > 0 {
      OneMore(n, w);
      OneMore(m, w);
      SameCount(n - 1, m - 1, w, total - w);
    } else if n > 0 {
      OneMore(n, w);
    } else if m > 0 {
      OneMore(m, w);
    }
  }

  lemma EncodeSnoc(e: Endian, t: PodType, vs: seq<nat>, i: nat)
    requires i < |vs|
    ensures Encode(e, t, vs[..i + 1]) == Encode(e, t, vs[..i]) + ToNeBytes(e, t, vs[i])
  {
    assert vs[..i + 1] == vs[..i] + [vs[i]];
    EncodeAppend(e, t, vs[..i], vs[i]);
  }

  /** One more chunk decoded: the done part still encodes to the bytes consumed. */
  lemma DecodeStep(e: Endian, t: PodType, done: seq<nat>, chunk: seq<byte>, tail: seq<byte>, v: nat)
    requires AllFit(t, done) && |chunk| == Size(t) && DecodeOne(e, t, chunk) == Ok(v)
    ensures AllFit(t, done + [v]) && Encode(e, t, done + [v]) + tail == Encode(e, t, done) + (chunk + tail)
  {
    BytesRoundTrip(e, t, chunk);
    EncodeAppend(e, t, done, v);
    Regroup(Encode(e, t, done), chunk, tail, chunk + tail);
  }

  lemma EncodeAppend(e: Endian, t: PodType, vs: seq<nat>, v: nat)
    ensures Encode(e, t, vs + [v]) == Encode(e, t, vs) + ToNeBytes(e, t, v)
  {
    EncodeConcat(e, t, vs, [v]);
    assert [v][1..] == [];
  }

  lemma Regroup(a: seq<byte>, b: seq<byte>, c: seq<byte>, bc: seq<byte>)
    requires bc == b + c
    ensures a + b + c == a + bc
  {
  }

  /** `Pod::encode` on each value in turn, appending to one buffer. */
  method EncodeBuffer(e: Endian, t: PodType, vs: seq<nat>) returns (r: Result<seq<byte>>)
    ensures r == if |vs| * Size(t) > USIZE_MAX then Err(LengthOverflow) else Ok(Encode(e, t, vs))
    ensures r.Ok? ==> |r.value| == |vs| * match t case U8 | I8 => 1 case U16 | I16 => 2
                                                  case U32 | I32 | F32 => 4 case U64 | I64 | F64 => 8
  {
    if |vs| * Size(t) > USIZE_MAX { return Err(LengthOverflow); }
    var bytes: seq<byte> := [];
    for i := 0 to |vs|
      invariant bytes == Encode(e, t, vs[..i])
    {
      EncodeSnoc(e, t, vs, i);
      bytes := bytes + ToNeBytes(e, t, vs[i]);
    }
    assert vs[..|vs|] == vs;
    EncodeLength(e, t, vs);
    r := Ok(bytes);
  }

  /** Overwrite a slice with decoded bytes; any other byte length is refused without writing. */
  method DecodeBuffer(e: Endian, t: PodType, bytes: seq<byte>, values: array<nat>) returns (r: Result<()>)
    modifies values
    ensures values.Length * Size(t) > USIZE_MAX ==> r == Err(LengthOverflow)
    ensures values.Length * Size(t) <= USIZE_MAX ==>
              r == if |bytes| == values.Length * Size(t) then Ok(()) else Err(BadByteLength)
    ensures r.Ok? ==> AllFit(t, values[..]) && Encode(e, t, values[..]) == bytes
    ensures r.Err? ==> values[..] == old(values[..])
  {
    var n, w := values.Length, Size(t);
    if n * w > USIZE_MAX { return Err(LengthOverflow); }
    if |bytes| != n * w { return Err(BadByteLength); }
    var rest := bytes;
    ghost var done: seq<nat> := [];
    for i := 0 to n
      invariant |rest| == (n - i) * w
      invariant |done| == i && values[..i] == done
      invariant AllFit(t, done) && Encode(e, t, done) + rest == bytes
    {
      OneMore(n - i, w);
      assert rest == rest[..w] + rest[w..];
      var value := DecodeOne(e, t, rest[..w]).value;
      DecodeStep(e, t, done, rest[..w], rest[w..], value);
      values[i] := value;
      done := done + [value];
      rest := rest[w..];
    }
    assert values[..n] == values[..];
    r := Ok(());
  }

  // ---- The zero-copy view ----

  /** Address, from the start of a slice, of byte `j` of element `i`. */
  function Slot(i: nat, width: nat, j: nat): nat { i * width + j }

  function ByteOf(bs: seq<byte>, k: nat): Option<byte> {
    if k < |bs| then Some(bs[k]) else None
  }

  /** The memory image of a slice: its elements' object representations, one after another. */
  ghost predicate IsMemoryImage(e: Endian, t: PodType, vs: seq<nat>, bs: seq<byte>) {
    && |bs| == |vs| * Size(t)
    && forall i, j :: 0 <= i < |vs| && 0 <= j < Size(t) ==>
         ByteOf(bs, Slot(i, Size(t), j)) == Some(ToNeBytes(e, t, vs[i])[j])
  }

  /** The bytes of element `i` of an encoded buffer sit at `i * SIZE`. */
  lemma {:induction false} EncodedByte(e: Endian, t: PodType, vs: seq<nat>, i: nat, j: nat)
    requires i < |vs| && j < Size(t)
    ensures ByteOf(Encode(e, t, vs), Slot(i, Size(t), j)) == Some(ToNeBytes(e, t, vs[i])[j])
  {
    var head, tail := ToNeBytes(e, t, vs[0]), Encode(e, t, vs[1..]);
    if i == 0 {
      assert Slot(0, Size(t), j) == j;
    } else {
      EncodedByte(e, t, vs[1..], i - 1, j);
      NextSlot(i, Size(t), j);
      ByteOfTail(head, tail, Slot(i - 1, Size(t), j), Slot(i, Size(t), j));
    }
  }

  lemma NextSlot(i: nat, w: nat, j: nat)
    requires i > 0
    ensures Slot(i, w, j) == w + Slot(i - 1, w, j)
  {
  }

  lemma ByteOfTail(head: seq<byte>, tail: seq<byte>, k: nat, sum: nat)
    requires sum == |head| + k
    ensures ByteOf(head + tail, sum) == ByteOf(tail, k)
  {
  }

  lemma Locate(k: nat, n: nat, w: nat) returns (i: nat, j: nat)
    requires w > 0 && k < n * w
    ensures i < n && j < w && Slot(i, w, j) == k
    decreases n
  {
    OneMore(n, w);
    if k < w {
      i, j := 0, k;
    } else {
      i, j := Locate(k - w, n - 1, w);
      i := i + 1;
      OneMore(i, w);
    }
  }

  lemma SameByte(e: Endian, t: PodType, vs: seq<nat>, bs: seq<byte>, k: nat)
    requires IsMemoryImage(e, t, vs, bs) && k < |bs|
    ensures ByteOf(bs, k) == ByteOf(Encode(e, t, vs), k)
  {
    var i, j := Locate(k, |vs|, Size(t));
    EncodedByte(e, t, vs, i, j);
  }

  /** The zero-copy view and the encode loop send the same bytes: an image of a slice is its encoding. */
  lemma MemoryImageIsEncoding(e: Endian, t: PodType, vs: seq<nat>, bs: seq<byte>)
    ensures IsMemoryImage(e, t, vs, bs) <==> bs == Encode(e, t, vs)
  {
    EncodeLength(e, t, vs);
    forall i, j | 0 <= i < |vs| && 0 <= j < Size(t)
      ensures ByteOf(Encode(e, t, vs), Slot(i, Size(t), j)) == Some(ToNeBytes(e, t, vs[i])[j])
    {
      EncodedByte(e, t, vs, i, j);
    }
    if IsMemoryImage(e, t, vs, bs) {
      forall k: nat | k < |bs|
        ensures bs[k] == Encode(e, t, vs)[k]
      {
        SameByte(e, t, vs, bs, k);
        assert ByteOf(bs, k) == Some(bs[k]);
      }
    }
  }
}
