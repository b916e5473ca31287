/** Machine words, checked arithmetic and the crate's error type. */
module Machine {

  const USIZE_MAX: int := 0xFFFF_FFFF_FFFF_FFFF
  const U32_LIMIT: int := 0x1_0000_0000

  /** A 64-bit `usize` (and `u64`). Storing a sum in this type is a proof obligation
      that the unchecked `+` of the source does not overflow. */
  type usize = n: int | 0 <= n <= 0xFFFF_FFFF_FFFF_FFFF

  type byte = n: int | 0 <= n < 256

  datatype Option<+T> = None | Some(value: T)

  datatype Error =
    | ZeroSize | SizeOverflow | HeapExhausted | InvalidPointer | HeapTooSmall
    | BelowBase | RemoteOverflow
    | PeOutOfRange | PeNotInJob | AddressOverflow | RangeOverflow | LengthOverflow
    | EmptyBuffer | BadByteLength | RootOutsideTeam | UnsupportedReduction
    | RequestIncomplete | NoResult | MissingBuffer
    | NotInitialized | AlreadyInitialized | JobSizeUnknown | ZeroJobSize
    | EmptyValue | IncompleteMetadata | MissingKey
    | Foreign(code: int)   // a PMIx, UCX or UCC status

  /** The crate's `Result`; `:-` is its `?`. */
  datatype Result<+T> = Ok(value: T) | Err(error: Error) {
    predicate IsFailure() {
      Err?
    }

    function PropagateFailure<U>(): Result<U>
      requires Err?
    {
      Err(error)
    }

    function Extract(): T
      requires Ok?
    {
      value
    }
  }

  function ErrorOf<T>(r: Result<T>): Option<Error> {
    if r.Err? then Some(r.error) else None
  }

  /** A condition that must hold, or else the call gives this error. */
  function Unless(holds: bool, error: Error): Option<Error> {
    if holds then None else Some(error)
  }

  /** `failure` is what the first failing one of these checks gives; None when all pass. */
  ghost predicate IsFirstFailure(checks: seq<Option<Error>>, failure: Option<Error>) {
    if failure.None? then forall i :: 0 <= i < |checks| ==> checks[i].None?
    else exists i :: 0 <= i < |checks| && checks[i] == failure && forall j :: 0 <= j < i ==> checks[j].None?
  }

  function CheckedAdd(a: usize, b: usize): Option<usize> {
    if a + b <= USIZE_MAX then Some(a + b) else None
  }

  function CheckedSub(a: usize, b: usize): Option<usize> {
    if b <= a then Some(a - b) else None
  }

  function CheckedMul(a: usize, b: usize): Option<usize> {
    if a * b <= USIZE_MAX then Some(a * b) else None
  }

  /** Bit `k` of `n`, least significant first. */
  function BitAt(n: nat, k: nat): (b: nat)
    ensures b < 2
  {
    if k == 0 then n % 2 else BitAt(n / 2, k - 1)
  }

  /** `n & !(8 - 1)`: clear the three low bits. MaskBits says it is that mask. */
  function AlignDown(n: nat): (r: nat)
    ensures r % 8 == 0 && r <= n < r + 8
  {
    n - n % 8
  }

  /** AlignDown agrees with the mask `!7` bit for bit. */
  lemma MaskBits(n: nat, k: nat)
    ensures BitAt(AlignDown(n), k) == if k < 3 then 0 else BitAt(n, k)
  {
    var m := AlignDown(n);
    if k == 1 {
      assert BitAt(m, 1) == BitAt(m / 2, 0);
    } else if k == 2 {
      assert BitAt(m, 2) == BitAt(m / 2, 1) == BitAt(m / 2 / 2, 0);
    } else if k >= 3 {
      DropThreeBits(m, k);
      DropThreeBits(n, k);
    }
  }

  lemma DropThreeBits(n: nat, k: nat)
    requires k >= 3
    ensures BitAt(n, k) == BitAt(n / 8, k - 3)
  {
    assert BitAt(n, k) == BitAt(n / 2, k - 1) == BitAt(n / 2 / 2, k - 2) == BitAt(n / 2 / 2 / 2, k - 3);
    assert n / 2 / 2 / 2 == n / 8;
  }

  /** Of two numbers and their sum, any two being multiples of 8 makes the third one. */
  lemma SumAligned(a: nat, b: nat, sum: nat)
    requires sum == a + b
    ensures a % 8 == 0 && b % 8 == 0 ==> sum % 8 == 0
    ensures sum % 8 == 0 && a % 8 == 0 ==> b % 8 == 0
  {
  }
}
