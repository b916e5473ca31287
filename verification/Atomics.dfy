/** Atomic memory operations: two's-complement bit patterns, order independence, and tickets. */
module Atomics {
  import opened Machine
  import opened PodCodec
  import opened Rma

  /** The types with atomics. A cell always holds unsigned bits; values may be signed. */
  datatype AtomicType = AtomicU32 | AtomicI32 | AtomicU64 | AtomicI64

  function Modulus(t: AtomicType): (m: nat)
    ensures m > 0 && m % 2 == 0
  {
    match t
    case AtomicU32 | AtomicI32 => 0x1_0000_0000
    case AtomicU64 | AtomicI64 => 0x1_0000_0000_0000_0000
  }

  /** The bit-pattern type of the cell. */
  function CellType(t: AtomicType): PodType {
    match t
    case AtomicU32 | AtomicI32 => U32
    case AtomicU64 | AtomicI64 => U64
  }

  lemma CellHoldsModulus(t: AtomicType)
    ensures Pow256(Size(CellType(t))) == Modulus(t)
  {
    assert Pow256(4) == 256 * (256 * (256 * (256 * Pow256(0))));
    assert Pow256(8) == 256 * (256 * (256 * (256 * Pow256(4))));
  }

  predicate Signed(t: AtomicType) { t.AtomicI32? || t.AtomicI64? }

  predicate InRange(t: AtomicType, x: int) {
    if Signed(t) then -(Modulus(t) / 2) <= x < Modulus(t) / 2 else 0 <= x < Modulus(t)
  }

  /** The four types in numbers: width of the cell and range of the value. */
  lemma AtomicWidths(e: Endian, t: AtomicType, x: int, bits: nat)
    ensures |ToNeBytes(e, CellType(t), bits)| == match t case AtomicU32 | AtomicI32 => 4 case AtomicU64 | AtomicI64 => 8
    ensures InRange(t, x) <==>
              match t
              case AtomicU32 => 0 <= x < 0x1_0000_0000
              case AtomicI32 => -0x8000_0000 <= x < 0x8000_0000
              case AtomicU64 => 0 <= x < 0x1_0000_0000_0000_0000
              case AtomicI64 => -0x8000_0000_0000_0000 <= x < 0x8000_0000_0000_0000
  {
  }

  /** `as` to the unsigned type of the same width. */
  function Bits(t: AtomicType, x: int): (b: nat)
    requires InRange(t, x)
    ensures b < Modulus(t)
  {
    if x >= 0 then x else x + Modulus(t)
  }

  /** `as` back from the unsigned type. */
  function FromBits(t: AtomicType, b: nat): (x: int)
    requires b < Modulus(t)
    ensures InRange(t, x)
  {
    if Signed(t) && b >= Modulus(t) / 2 then b - Modulus(t) else b
  }

  lemma BitsRoundTrip(t: AtomicType, x: int, b: nat)
    requires InRange(t, x) && b < Modulus(t)
    ensures FromBits(t, Bits(t, x)) == x
    ensures Bits(t, FromBits(t, b)) == b
  {
  }

  /** `n` modulo `m`: WrapIsResidue. */
  function Wrap(m: nat, n: nat): (r: nat)
    requires m > 0
    ensures r < m
    decreases n
  {
    if n < m then n else Wrap(m, n - m)
  }

  lemma {:induction false} WrapIsResidue(m: nat, n: nat) returns (k: nat)
    requires m > 0
    ensures n == k * m + Wrap(m, n)
    decreases n
  {
    if n < m {
      k := 0;
    } else {
      k := WrapIsResidue(m, n - m);
      assert (k + 1) * m == k * m + m;
      k := k + 1;
    }
  }

  lemma {:induction false} WrapAdd(m: nat, a: nat, b: nat)
    requires m > 0
    ensures Wrap(m, Wrap(m, a) + b) == Wrap(m, a + b)
    decreases a
  {
    if a >= m { WrapAdd(m, a - m, b); }
  }

  /** Numbers less than `m` apart have different residues. */
  lemma {:induction false} WrapApart(m: nat, a: nat, b: nat)
    requires m > 0 && a < b < a + m
    ensures Wrap(m, a) != Wrap(m, b)
    decreases a
  {
    if a >= m { WrapApart(m, a - m, b - m); }
  }

  /** Wrapping addition at the value's own type: the value in range congruent to the sum. */
  function WrappingAdd(t: AtomicType, x: int, y: int): (r: int)
    requires InRange(t, x) && InRange(t, y)
    ensures InRange(t, r) && (r == x + y || r == x + y - Modulus(t) || r == x + y + Modulus(t))
  {
    if InRange(t, x + y) then x + y
    else if x + y < 0 then x + y + Modulus(t) else x + y - Modulus(t)
  }

  /** One unsigned wrapping add on the bits is the wrapping add of the signed (or unsigned) values. */
  lemma AddOnBits(t: AtomicType, x: int, y: int)
    requires InRange(t, x) && InRange(t, y)
    ensures FromBits(t, Wrap(Modulus(t), Bits(t, x) + Bits(t, y))) == WrappingAdd(t, x, y)
  {
    var m, sum := Modulus(t), Bits(t, x) + Bits(t, y);
    assert Wrap(m, sum) == if sum < m then sum else sum - m;
  }

  // ---- Bitwise operations ----

  datatype BitOp = Xor | And | Or

  function OnBit(op: BitOp, a: nat, b: nat): (r: nat)
    ensures r < 2
  {
    match op
    case Xor => if a % 2 == b % 2 then 0 else 1
    case And => if a % 2 == 1 && b % 2 == 1 then 1 else 0
    case Or => if a % 2 == 1 || b % 2 == 1 then 1 else 0
  }

  /** Bit by bit, least significant first. */
  function Bitwise(op: BitOp, a: nat, b: nat): nat
    decreases a + b
  {
    if a == 0 && b == 0 then 0 else OnBit(op, a, b) + 2 * Bitwise(op, a / 2, b / 2)
  }

  lemma BitwiseParts(op: BitOp, a: nat, b: nat)
    ensures Bitwise(op, a, b) % 2 == OnBit(op, a, b) && Bitwise(op, a, b) / 2 == Bitwise(op, a / 2, b / 2)
  {
  }

  /** Bit `k` of the result is the operation's truth table on bits `k`. */
  lemma {:induction false} BitwiseAt(op: BitOp, a: nat, b: nat, k: nat)
    ensures BitAt(Bitwise(op, a, b), k) == 1 <==>
              match op
              case Xor => BitAt(a, k) != BitAt(b, k)
              case And => BitAt(a, k) == 1 && BitAt(b, k) == 1
              case Or => BitAt(a, k) == 1 || BitAt(b, k) == 1
    decreases k
  {
    BitwiseParts(op, a, b);
    if k > 0 {
      BitwiseAt(op, a / 2, b / 2, k - 1);
    }
  }

  function Pow2(w: nat): (p: nat)
    ensures p > 0
  {
    if w == 0 then 1 else 2 * Pow2(w - 1)
  }

  /** A cell never outgrows its width. */
  lemma {:induction false} BitwiseFits(op: BitOp, a: nat, b: nat, w: nat)
    requires a < Pow2(w) && b < Pow2(w)
    ensures Bitwise(op, a, b) < Pow2(w)
  {
    if w > 0 && (a > 0 || b > 0) {
      BitwiseFits(op, a / 2, b / 2, w - 1);
    }
  }

  /** Applying `x` then `y` to a cell is applying `y` then `x`. */
  lemma {:induction false} BitwiseSwap(op: BitOp, c: nat, x: nat, y: nat)
    ensures Bitwise(op, Bitwise(op, c, x), y) == Bitwise(op, Bitwise(op, c, y), x)
    decreases c + x + y
  {
    if c > 0 || x > 0 || y > 0 {
      BitwiseSwap(op, c / 2, x / 2, y / 2);
      var cx, cy := Bitwise(op, c, x), Bitwise(op, c, y);
      BitwiseParts(op, c, x);
      BitwiseParts(op, c, y);
      BitwiseParts(op, cx, y);
      BitwiseParts(op, cy, x);
      assert OnBit(op, cx, y) == OnBit(op, cy, x);
    }
  }

  // ---- One cell under any interleaving ----

  /** What an operation does to a cell. */
  datatype Amo = AddBits(v: nat) | Bit(op: BitOp, v: nat) | Swap(v: nat) | CompareSwap(expected: nat, replacement: nat)

  function AddTo(m: nat, cell: nat, v: nat): nat
    requires m > 0
  {
    Wrap(m, cell + v)
  }

  function Apply(m: nat, cell: nat, op: Amo): nat
    requires m > 0
  {
    match op
    case AddBits(v) => AddTo(m, cell, v)
    case Bit(b, v) => Bitwise(b, cell, v)
    case Swap(v) => v
    case CompareSwap(expected, replacement) => if cell == expected then replacement else cell
  }

  /** The cell after operations arrive in this order, whoever issued them. */
  function ApplyAll(m: nat, cell: nat, ops: seq<Amo>): nat
    requires m > 0
    decreases |ops|
  {
    if ops == [] then cell else ApplyAll(m, Apply(m, cell, ops[0]), ops[1..])
  }

  /** The kinds that commute with themselves: add, and each bitwise operation. */
  datatype Kind = Adding | Combining(op: BitOp)

  predicate IsKind(k: Kind, a: Amo) {
    match a
    case AddBits(_) => k == Adding
    case Bit(op, _) => k == Combining(op)
    case _ => false
  }

  predicate OneKind(k: Kind, ops: seq<Amo>) {
    forall i :: 0 <= i < |ops| ==> IsKind(k, ops[i])
  }

  lemma AddSwap(m: nat, c: nat, x: nat, y: nat)
    requires m > 0
    ensures AddTo(m, AddTo(m, c, x), y) == AddTo(m, AddTo(m, c, y), x)
  {
    WrapAdd(m, c + x, y);
    WrapAdd(m, c + y, x);
    assert c + x + y == c + y + x;
  }

  lemma Commute(m: nat, c: nat, k: Kind, a: Amo, b: Amo)
    requires m > 0 && IsKind(k, a) && IsKind(k, b)
    ensures Apply(m, Apply(m, c, a), b) == Apply(m, Apply(m, c, b), a)
  {
    if a.AddBits? { AddSwap(m, c, a.v, b.v); } else { BitwiseSwap(a.op, c, a.v, b.v); }
  }

  function Without(ops: seq<Amo>, i: nat): (r: seq<Amo>)
    requires i < |ops|
    ensures |r| == |ops| - 1
  {
    ops[..i] + ops[i + 1..]
  }

  /** Any one operation may be taken to have come first. */
  lemma {:induction false} MoveToFront(m: nat, cell: nat, k: Kind, ops: seq<Amo>, i: nat)
    requires m > 0 && i < |ops| && OneKind(k, ops)
    ensures ApplyAll(m, cell, ops) == ApplyAll(m, Apply(m, cell, ops[i]), Without(ops, i))
    decreases |ops|
  {
    if i == 0 {
      assert Without(ops, 0) == ops[1..];
    } else {
      MoveToFront(m, Apply(m, cell, ops[0]), k, ops[1..], i - 1);
      Commute(m, cell, k, ops[0], ops[i]);
      var others := Without(ops, i);
      assert others[0] == ops[0] && others[1..] == Without(ops[1..], i - 1);
    }
  }

  lemma WithoutMultiset(ops: seq<Amo>, i: nat)
    requires i < |ops|
    ensures multiset(Without(ops, i)) == multiset(ops) - multiset{ops[i]}
  {
    assert ops == ops[..i] + ([ops[i]] + ops[i + 1..]);
  }

  lemma WithoutKind(k: Kind, ops: seq<Amo>, i: nat)
    requires i < |ops| && OneKind(k, ops)
    ensures OneKind(k, Without(ops, i))
  {
  }

  lemma SameMultisetIndex(xs: seq<Amo>, ys: seq<Amo>) returns (i: nat)
    requires multiset(xs) == multiset(ys) && xs != []
    ensures i < |ys| && ys[i] == xs[0]
  {
    assert xs[0] in multiset(xs);
    assert xs[0] in multiset(ys);
    i :| 0 <= i < |ys| && ys[i] == xs[0];
  }

  /** Order independence: any interleaving of the same adds (or xors, ands, ors) leaves one value. */
  lemma {:induction false} AnyInterleaving(m: nat, cell: nat, k: Kind, xs: seq<Amo>, ys: seq<Amo>)
    requires m > 0 && OneKind(k, xs) && OneKind(k, ys) && multiset(xs) == multiset(ys)
    ensures ApplyAll(m, cell, xs) == ApplyAll(m, cell, ys)
    decreases |xs|
  {
    if xs == [] {
      assert |multiset(ys)| == |ys|;
    } else {
      var i := SameMultisetIndex(xs, ys);
      MoveToFront(m, cell, k, xs, 0);
      MoveToFront(m, cell, k, ys, i);
      WithoutMultiset(xs, 0);
      WithoutMultiset(ys, i);
      WithoutKind(k, xs, 0);
      WithoutKind(k, ys, i);
      AnyInterleaving(m, Apply(m, cell, xs[0]), k, Without(xs, 0), Without(ys, i));
    }
  }

  // ---- Compare-and-swap ----

  /** Every operation swaps in its own replacement for one expected value. */
  predicate Contend(ops: seq<Amo>, expected: nat) {
    forall i :: 0 <= i < |ops| ==>
      ops[i].CompareSwap? && ops[i].expected == expected && ops[i].replacement != expected
  }

  /** Exactly one contender wins, the first to arrive: it alone sees the expected value, and its
      replacement is what every later one sees and what stays. */
  lemma {:induction false} OneWinner(m: nat, expected: nat, ops: seq<Amo>, k: nat)
    requires m > 0 && ops != [] && Contend(ops, expected) && k <= |ops|
    ensures ApplyAll(m, expected, ops[..k]) == if k == 0 then expected else ops[0].replacement
    ensures k < |ops| ==> (ApplyAll(m, expected, ops[..k]) == expected <==> k == 0)
  {
    if k > 0 {
      OneWinner(m, expected, ops, k - 1);
      assert ops[..k] == ops[..k - 1] + [ops[k - 1]];
      ApplyLast(m, expected, ops[..k - 1], ops[k - 1]);
    }
  }

  // ---- Fetch-add ----

  function Sum(vs: seq<nat>): nat {
    if vs == [] then 0 else Sum(vs[..|vs| - 1]) + vs[|vs| - 1]
  }

  function Adds(vs: seq<nat>): (ops: seq<Amo>)
    ensures |ops| == |vs| && forall i :: 0 <= i < |vs| ==> ops[i] == AddBits(vs[i])
  {
    seq(|vs|, i requires 0 <= i < |vs| => AddBits(vs[i]))
  }

  /** The reply to the `k`-th fetch-add in arrival order: the cell before it. */
  function Reply(m: nat, cell: nat, vs: seq<nat>, k: nat): nat
    requires m > 0 && k <= |vs|
  {
    ApplyAll(m, cell, Adds(vs[..k]))
  }

  lemma {:induction false} ApplyLast(m: nat, cell: nat, ops: seq<Amo>, last: Amo)
    requires m > 0
    ensures ApplyAll(m, cell, ops + [last]) == Apply(m, ApplyAll(m, cell, ops), last)
    decreases |ops|
  {
    if ops == [] {
      assert [last][1..] == [];
      assert [] + [last] == [last];
    } else {
      assert (ops + [last])[1..] == ops[1..] + [last];
      ApplyLast(m, Apply(m, cell, ops[0]), ops[1..], last);
    }
  }

  /** Fetch-add replies are the prefix sums of the arrival order. */
  lemma {:induction false} RepliesArePrefixSums(m: nat, cell: nat, vs: seq<nat>, k: nat)
    requires m > 0 && cell < m && k <= |vs|
    ensures Reply(m, cell, vs, k) == Wrap(m, cell + Sum(vs[..k]))
  {
    if k > 0 {
      RepliesArePrefixSums(m, cell, vs, k - 1);
      assert vs[..k][..k - 1] == vs[..k - 1];
      assert Adds(vs[..k]) == Adds(vs[..k - 1]) + [AddBits(vs[k - 1])];
      ApplyLast(m, cell, Adds(vs[..k - 1]), AddBits(vs[k - 1]));
      WrapAdd(m, cell + Sum(vs[..k - 1]), vs[k - 1]);
    } else {
      assert Adds(vs[..0]) == [];
    }
  }

  lemma {:induction false} SumOfOnes(vs: seq<nat>)
    requires forall i :: 0 <= i < |vs| ==> vs[i] == 1
    ensures Sum(vs) == |vs|
  {
    if vs != [] { SumOfOnes(vs[..|vs| - 1]); }
  }

  /** Unit fetch-adds hand out distinct tickets if and only if there are at most `2^w` of them. */
  lemma TicketsDistinctIff(m: nat, cell: nat, vs: seq<nat>)
    requires m > 0 && cell < m
    requires forall i :: 0 <= i < |vs| ==> vs[i] == 1
    ensures (forall i, j :: 0 <= i < j < |vs| ==> Reply(m, cell, vs, i) != Reply(m, cell, vs, j)) <==> |vs| <= m
  {
    if |vs| <= m {
      forall i, j | 0 <= i < j < |vs|
        ensures Reply(m, cell, vs, i) != Reply(m, cell, vs, j)
      {
        Ticket(m, cell, vs, i);
        Ticket(m, cell, vs, j);
        WrapApart(m, cell + i, cell + j);
      }
    } else {
      Ticket(m, cell, vs, 0);
      Ticket(m, cell, vs, m);
      assert Reply(m, cell, vs, 0) == Reply(m, cell, vs, m);
    }
  }

  lemma Ticket(m: nat, cell: nat, vs: seq<nat>, k: nat)
    requires m > 0 && cell < m && k < |vs|
    requires forall i :: 0 <= i < |vs| ==> vs[i] == 1
    ensures Reply(m, cell, vs, k) == Wrap(m, cell + k)
  {
    RepliesArePrefixSums(m, cell, vs, k);
    SumOfOnes(vs[..k]);
  }

  // ---- On a PE's memory ----

  lemma {:induction false} Pow2IsPow256(n: nat)
    ensures Pow2(8 * n) == Pow256(n)
  {
    if n > 0 {
      var k := 8 * (n - 1);
      Pow2IsPow256(n - 1);
      assert Pow2(k + 2) == 2 * Pow2(k + 1) == 4 * Pow2(k);
      assert Pow2(k + 4) == 2 * Pow2(k + 3) == 4 * Pow2(k + 2);
      assert Pow2(k + 6) == 2 * Pow2(k + 5) == 4 * Pow2(k + 4);
      assert Pow2(k + 8) == 2 * Pow2(k + 7) == 4 * Pow2(k + 6);
    }
  }

  predicate OpFits(t: AtomicType, op: Amo) {
    match op
    case AddBits(v) => v < Modulus(t)
    case Bit(_, v) => v < Modulus(t)
    case Swap(v) => v < Modulus(t)
    case CompareSwap(expected, replacement) => expected < Modulus(t) && replacement < Modulus(t)
  }

  lemma ApplyFits(t: AtomicType, cell: nat, op: Amo)
    requires cell < Modulus(t) && OpFits(t, op)
    ensures Apply(Modulus(t), cell, op) < Modulus(t)
  {
    if op.Bit? {
      var n := Size(CellType(t));
      CellHoldsModulus(t);
      Pow2IsPow256(n);
      BitwiseFits(op.op, cell, op.v, 8 * n);
    }
  }

  /** What each operation leaves in a cell: the sum modulo the width, the truth table bit by bit, the
      new value, or the replacement if the cell was as expected. */
  lemma ApplyMeaning(t: AtomicType, cell: nat, op: Amo)
    requires cell < Modulus(t) && OpFits(t, op)
    ensures var after := Apply(Modulus(t), cell, op);
            match op
            case AddBits(v) => after < Modulus(t) && (after == cell + v || after == cell + v - Modulus(t))
            case Bit(Xor, v) => forall k: nat :: BitAt(after, k) == 1 <==> BitAt(cell, k) != BitAt(v, k)
            case Bit(And, v) => forall k: nat :: BitAt(after, k) == 1 <==> BitAt(cell, k) == 1 && BitAt(v, k) == 1
            case Bit(Or, v) => forall k: nat :: BitAt(after, k) == 1 <==> BitAt(cell, k) == 1 || BitAt(v, k) == 1
            case Swap(v) => after == v
            case CompareSwap(expected, replacement) => after == if cell == expected then replacement else cell
  {
    var m := Modulus(t);
    match op {
      case AddBits(v) =>
        assert Wrap(m, cell + v) == if cell + v < m then cell + v else Wrap(m, cell + v - m);
      case Bit(b, v) =>
        forall k: nat
          ensures BitAt(Bitwise(b, cell, v), k) == 1 <==>
                    match b
                    case Xor => BitAt(cell, k) != BitAt(v, k)
                    case And => BitAt(cell, k) == 1 && BitAt(v, k) == 1
                    case Or => BitAt(cell, k) == 1 || BitAt(v, k) == 1
        {
          BitwiseAt(b, cell, v, k);
        }
      case _ =>
    }
  }

  /** Bits of the cell at `offset` of a region. */
  function CellAt(e: Endian, t: AtomicType, region: seq<byte>, offset: nat): Result<nat>
    requires offset + Size(CellType(t)) <= |region|
  {
    DecodeOne(e, CellType(t), region[offset..offset + Size(CellType(t))])
  }

  /** Storing a value's bytes at the cell's place sets the cell and nothing else. */
  lemma StoreCell(e: Endian, t: AtomicType, region: seq<byte>, offset: nat, value: nat)
    requires offset + Size(CellType(t)) <= |region| && value < Modulus(t)
    ensures var after := Splice(region, offset, ToNeBytes(e, CellType(t), value));
            CellAt(e, t, after, offset) == Ok(value) && SameOutside(region, after, offset, Size(CellType(t)))
  {
    CellHoldsModulus(t);
    ValueRoundTrip(e, CellType(t), value);
    SpliceReads(region, offset, ToNeBytes(e, CellType(t), value));
  }

  /** Every cell inside a region holds bits of its width. */
  lemma CellIsBits(e: Endian, t: AtomicType, region: seq<byte>, offset: nat)
    requires offset + Size(CellType(t)) <= |region|
    ensures CellAt(e, t, region, offset).Ok? && CellAt(e, t, region, offset).value < Modulus(t)
  {
    CellHoldsModulus(t);
    BytesRoundTrip(e, CellType(t), region[offset..offset + Size(CellType(t))]);
  }

  /** One atomic on a PE's memory, in the order it arrives there: the reply is the cell before it,
      the cell becomes what the operation makes of it, and every other byte of every PE stays. */
  method Atomic(fabric: Fabric, t: AtomicType, pe: usize, offset: usize, op: Amo) returns (reply: Result<nat>)
    requires fabric.Valid() && OpFits(t, op)
    modifies fabric
    ensures fabric.Valid()
    ensures var accepted := PeerAndAddress(fabric.peers, pe, offset, Size(CellType(t)));
            if accepted.Err? then reply == Err(accepted.error)
            else (reply.Ok? <==> offset + Size(CellType(t)) <= |old(fabric.memory)[pe]|)
                 && (reply.Err? ==> reply.error.Foreign?)
    ensures reply.Err? ==> fabric.memory == old(fabric.memory)
    ensures reply.Ok? ==>
      && reply.value < Modulus(t)
      && (forall q :: q in fabric.peers && q != pe ==> fabric.memory[q] == old(fabric.memory)[q])
      && SameOutside(old(fabric.memory)[pe], fabric.memory[pe], offset, Size(CellType(t)))
      && CellAt(fabric.endian, t, old(fabric.memory)[pe], offset) == Ok(reply.value)
      && CellAt(fabric.endian, t, fabric.memory[pe], offset) == Ok(Apply(Modulus(t), reply.value, op))
    ensures reply.Ok? ==>
      var cell, after := reply.value, CellAt(fabric.endian, t, fabric.memory[pe], offset).value;
      match op
      case AddBits(v) => after < Modulus(t) && (after == cell + v || after == cell + v - Modulus(t))
      case Bit(Xor, v) => forall k: nat :: BitAt(after, k) == 1 <==> BitAt(cell, k) != BitAt(v, k)
      case Bit(And, v) => forall k: nat :: BitAt(after, k) == 1 <==> BitAt(cell, k) == 1 && BitAt(v, k) == 1
      case Bit(Or, v) => forall k: nat :: BitAt(after, k) == 1 <==> BitAt(cell, k) == 1 || BitAt(v, k) == 1
      case Swap(v) => after == v
      case CompareSwap(expected, replacement) => after == if cell == expected then replacement else cell
  {
    var pod := CellType(t);
    var address :- PeerAndAddress(fabric.peers, pe, offset, Size(pod));
    assert address - fabric.peers[pe] == offset;
    var bytes :- fabric.TransportGet(pe, address, Size(pod));
    ghost var before := fabric.memory[pe];
    assert bytes == before[offset..offset + Size(pod)];
    CellIsBits(fabric.endian, t, before, offset);
    var cell := DecodeOne(fabric.endian, pod, bytes).value;
    var changed := Apply(Modulus(t), cell, op);
    ApplyFits(t, cell, op);
    ApplyMeaning(t, cell, op);
    StoreCell(fabric.endian, t, before, offset, changed);
    var image := ToNeBytes(fabric.endian, pod, changed);
    var put := fabric.TransportPut(pe, address, image);
    assert fabric.memory[pe] == Splice(before, offset, image);
    reply := Ok(cell);
  }

  // ---- At the value's own type ----

  /** The cell of a region holds the value `x`. */
  ghost predicate HoldsValue(e: Endian, t: AtomicType, region: seq<byte>, offset: nat, x: int) {
    && InRange(t, x) && offset + Size(CellType(t)) <= |region|
    && CellAt(e, t, region, offset) == Ok(Bits(t, x))
  }

  /** One cell of PE `pe` went from the value `x` to the value `y`, and no other byte of any PE changed. */
  ghost predicate CellWent(e: Endian, t: AtomicType, before: map<nat, seq<byte>>, after: map<nat, seq<byte>>,
                           pe: nat, offset: nat, x: int, y: int)
  {
    && before.Keys == after.Keys && pe in before
    && (forall q :: q in before && q != pe ==> after[q] == before[q])
    && SameOutside(before[pe], after[pe], offset, Size(CellType(t)))
    && HoldsValue(e, t, before[pe], offset, x) && HoldsValue(e, t, after[pe], offset, y)
  }

  /** When a fetching call succeeds, and with which error it fails; nothing changes then. */
  ghost predicate FetchAnswers(fabric: Fabric, t: AtomicType, before: map<nat, seq<byte>>,
                               pe: usize, offset: usize, r: Result<int>)
    reads fabric
    requires before.Keys == fabric.peers.Keys
  {
    var accepted := PeerAndAddress(fabric.peers, pe, offset, Size(CellType(t)));
    && (if accepted.Err? then r == Err(accepted.error)
        else (r.Ok? <==> offset + Size(CellType(t)) <= |before[pe]|) && (r.Err? ==> r.error.Foreign?))
    && (r.Err? ==> fabric.memory == before)
  }

  lemma BitsAfterAdd(t: AtomicType, bits: nat, operand: int)
    requires bits < Modulus(t) && InRange(t, operand)
    ensures Bits(t, FromBits(t, bits)) == bits
    ensures AddTo(Modulus(t), bits, Bits(t, operand)) == Bits(t, WrappingAdd(t, FromBits(t, bits), operand))
  {
    var x, sum := FromBits(t, bits), Wrap(Modulus(t), bits + Bits(t, operand));
    BitsRoundTrip(t, x, bits);
    AddOnBits(t, x, operand);
    BitsRoundTrip(t, x, sum);
  }

  /** `atomic_fadd`: the reply is the old value, and the cell then holds the wrapping sum. */
  method FetchAdd(fabric: Fabric, t: AtomicType, pe: usize, offset: usize, operand: int) returns (r: Result<int>)
    requires fabric.Valid() && InRange(t, operand)
    modifies fabric
    ensures fabric.Valid() && FetchAnswers(fabric, t, old(fabric.memory), pe, offset, r)
    ensures r.Ok? ==> InRange(t, r.value)
    ensures r.Ok? ==> CellWent(fabric.endian, t, old(fabric.memory), fabric.memory, pe, offset,
                               r.value, WrappingAdd(t, r.value, operand))
  {
    var reply :- Atomic(fabric, t, pe, offset, AddBits(Bits(t, operand)));
    BitsAfterAdd(t, reply, operand);
    r := Ok(FromBits(t, reply));
  }

  /** `atomic_fswap`: the reply is the old value, and the cell then holds the operand. */
  method FetchSwap(fabric: Fabric, t: AtomicType, pe: usize, offset: usize, operand: int) returns (r: Result<int>)
    requires fabric.Valid() && InRange(t, operand)
    modifies fabric
    ensures fabric.Valid() && FetchAnswers(fabric, t, old(fabric.memory), pe, offset, r)
    ensures r.Ok? ==> CellWent(fabric.endian, t, old(fabric.memory), fabric.memory, pe, offset, r.value, operand)
  {
    var reply :- Atomic(fabric, t, pe, offset, Swap(Bits(t, operand)));
    BitsRoundTrip(t, operand, reply);
    r := Ok(FromBits(t, reply));
  }

  /** `atomic_fcswap`: the reply is the old value, and the cell then holds the replacement if that was
      the expected value, and what it held otherwise. */
  method FetchCompareSwap(fabric: Fabric, t: AtomicType, pe: usize, offset: usize, expected: int, replacement: int)
    returns (r: Result<int>)
    requires fabric.Valid() && InRange(t, expected) && InRange(t, replacement)
    modifies fabric
    ensures fabric.Valid() && FetchAnswers(fabric, t, old(fabric.memory), pe, offset, r)
    ensures r.Ok? ==> CellWent(fabric.endian, t, old(fabric.memory), fabric.memory, pe, offset,
                               r.value, if r.value == expected then replacement else r.value)
  {
    var reply :- Atomic(fabric, t, pe, offset, CompareSwap(Bits(t, expected), Bits(t, replacement)));
    BitsRoundTrip(t, expected, reply);
    r := Ok(FromBits(t, reply));
  }

  /** `atomic_fxor`: the reply is the old value, and the cell's bits then differ from its bits exactly
      where the operand has a one. */
  method FetchXor(fabric: Fabric, t: AtomicType, pe: usize, offset: usize, operand: int)
    returns (r: Result<int>, ghost after: int)
    requires fabric.Valid() && InRange(t, operand)
    modifies fabric
    ensures fabric.Valid() && FetchAnswers(fabric, t, old(fabric.memory), pe, offset, r)
    ensures r.Ok? ==> CellWent(fabric.endian, t, old(fabric.memory), fabric.memory, pe, offset, r.value, after)
    ensures r.Ok? ==> forall k: nat ::
              BitAt(Bits(t, after), k) == 1 <==> BitAt(Bits(t, r.value), k) != BitAt(Bits(t, operand), k)
  {
    var reply := Atomic(fabric, t, pe, offset, Bit(Xor, Bits(t, operand)));
    if reply.Err? { return Err(reply.error), 0; }
    ghost var bits := CellAt(fabric.endian, t, fabric.memory[pe], offset).value;
    CellIsBits(fabric.endian, t, fabric.memory[pe], offset);
    BitsRoundTrip(t, operand, reply.value);
    BitsRoundTrip(t, operand, bits);
    r, after := Ok(FromBits(t, reply.value)), FromBits(t, bits);
  }

  // ---- Sequences of atomics on one cell ----

  predicate CellInside(fabric: Fabric, t: AtomicType, pe: usize, offset: usize)
    reads fabric
  {
    && PeerAndAddress(fabric.peers, pe, offset, Size(CellType(t))).Ok?
    && pe in fabric.memory && offset + Size(CellType(t)) <= |fabric.memory[pe]|
  }

  /** Operations arriving one after another from any PEs leave the cell at their fold, and every
      other byte of every PE as it was. */
  method AtomicEach(fabric: Fabric, t: AtomicType, pe: usize, offset: usize, ops: seq<Amo>)
    requires fabric.Valid() && CellInside(fabric, t, pe, offset)
    requires forall i :: 0 <= i < |ops| ==> OpFits(t, ops[i])
    modifies fabric
    ensures fabric.Valid() && CellInside(fabric, t, pe, offset)
    ensures forall q :: q in fabric.peers && q != pe ==> fabric.memory[q] == old(fabric.memory)[q]
    ensures SameOutside(old(fabric.memory)[pe], fabric.memory[pe], offset, Size(CellType(t)))
    ensures CellAt(fabric.endian, t, old(fabric.memory)[pe], offset).Ok?
    ensures CellAt(fabric.endian, t, fabric.memory[pe], offset)
            == Ok(ApplyAll(Modulus(t), CellAt(fabric.endian, t, old(fabric.memory)[pe], offset).value, ops))
  {
    ghost var before := fabric.memory;
    CellIsBits(fabric.endian, t, before[pe], offset);
    ghost var cell := CellAt(fabric.endian, t, before[pe], offset).value;
    for i := 0 to |ops|
      invariant fabric.Valid() && CellInside(fabric, t, pe, offset)
      invariant forall q :: q in fabric.peers && q != pe ==> fabric.memory[q] == before[q]
      invariant SameOutside(before[pe], fabric.memory[pe], offset, Size(CellType(t)))
      invariant CellAt(fabric.endian, t, fabric.memory[pe], offset) == Ok(ApplyAll(Modulus(t), cell, ops[..i]))
    {
      assert ops[..i + 1] == ops[..i] + [ops[i]];
      ApplyLast(Modulus(t), cell, ops[..i], ops[i]);
      ghost var now := fabric.memory[pe];
      var reply := Atomic(fabric, t, pe, offset, ops[i]);
      SameOutsideTrans(before[pe], now, fabric.memory[pe], offset, Size(CellType(t)));
    }
    assert ops[..|ops|] == ops;
  }

  lemma SameOutsideTrans(a: seq<byte>, b: seq<byte>, c: seq<byte>, at: nat, len: nat)
    requires SameOutside(a, b, at, len) && SameOutside(b, c, at, len)
    ensures SameOutside(a, c, at, len)
  {
  }

  /** Two regions that agree outside a cell and hold the same bits in it are equal. */
  lemma SameCellSameRegion(e: Endian, t: AtomicType, was: seq<byte>, a: seq<byte>, b: seq<byte>, offset: nat)
    requires offset + Size(CellType(t)) <= |was|
    requires SameOutside(was, a, offset, Size(CellType(t))) && SameOutside(was, b, offset, Size(CellType(t)))
    requires CellAt(e, t, a, offset) == CellAt(e, t, b, offset)
    ensures a == b
  {
    var n := Size(CellType(t));
    var x, y := a[offset..offset + n], b[offset..offset + n];
    BytesRoundTrip(e, CellType(t), x);
    BytesRoundTrip(e, CellType(t), y);
    assert x == y;
    forall k | 0 <= k < |a|
      ensures a[k] == b[k]
    {
      if offset <= k < offset + n {
        assert a[k] == x[k - offset] && b[k] == y[k - offset];
      }
    }
  }

  /** Order independence on real memory: the same adds (or xors, ands, ors) arriving in two orders
      leave the memory of all PEs equal, byte for byte. */
  method AtomicsInAnyOrder(a: Fabric, b: Fabric, t: AtomicType, pe: usize, offset: usize,
                           ghost k: Kind, xs: seq<Amo>, ys: seq<Amo>)
    requires a != b && a.Valid() && b.Valid()
    requires a.endian == b.endian && a.peers == b.peers && a.memory == b.memory && CellInside(a, t, pe, offset)
    requires OneKind(k, xs) && OneKind(k, ys) && multiset(xs) == multiset(ys)
    requires (forall i :: 0 <= i < |xs| ==> OpFits(t, xs[i])) && (forall i :: 0 <= i < |ys| ==> OpFits(t, ys[i]))
    modifies a, b
    ensures a.Valid() && b.Valid() && a.memory == b.memory
  {
    ghost var before := a.memory;
    CellIsBits(a.endian, t, before[pe], offset);
    AnyInterleaving(Modulus(t), CellAt(a.endian, t, before[pe], offset).value, k, xs, ys);
    AtomicEach(a, t, pe, offset, xs);
    AtomicEach(b, t, pe, offset, ys);
    SameCellSameRegion(a.endian, t, before[pe], a.memory[pe], b.memory[pe], offset);
    assert forall q :: q in a.memory ==> a.memory[q] == b.memory[q];
  }
}
