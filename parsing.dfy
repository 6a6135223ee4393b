/** Byte-slice parsing in the style of the nom parser-combinator library that
    every disk format is built on.

    A nom parser returns either the unconsumed input together with a value, or
    one of three kinds of failure.  The kinds matter because the combinators
    branch on them: `many0` stops quietly on a plain error but passes an
    incomplete-input signal on, and `alt` only tries its next branch after a
    plain error.  A Rust `panic!` (an explicit one, an `unwrap` of an error, an
    index out of range) ends the whole program; it is modelled as a fourth
    outcome that every caller passes on unchanged.
 */
module Parsing {

  /** Unsigned machine words, as the Rust parsers return them. */
  type u8 = x: int | 0 <= x < 0x100
  type u16 = x: int | 0 <= x < 0x1_0000
  type u32 = x: int | 0 <= x < 0x1_0000_0000

  datatype Option<+T> = None | Some(value: T)

  /** Why a parser did not produce a value. */
  datatype Failure =
    | Error       // nom::Err::Error: recoverable, the input does not match
    | Incomplete  // nom::Err::Incomplete: a streaming parser wants more input
    | Panic       // the Rust program panics
    | Diverges    // the model's step bound ran out; the program would keep looping

  /** The result of running a parser on a byte slice (nom's `IResult`). */
  datatype Outcome<+T> = Done(rest: seq<bv8>, value: T) | Fail(failure: Failure)
  {
    predicate IsFailure() { Fail? }

    function PropagateFailure<U>(): Outcome<U>
      requires Fail?
    {
      Fail(failure)
    }

    function Extract(): (seq<bv8>, T)
      requires Done?
    {
      (rest, value)
    }
  }

  /** The error kinds of the crate's own `Error` type that the model needs,
      plus the two ends a Rust program can come to without returning. */
  datatype ErrorKind =
    | Unimplemented  // ErrorKind::Unimplemented: an unsupported format or file type
    | Invalid        // ErrorKind::Invalid: the data is malformed
    | Message        // ErrorKind::Message: a parser error converted with `?`
    | Panicked       // the Rust program panics
    | OutOfFuel      // the model's step bound ran out; the program would keep looping

  /** How `?` turns a parser failure into the crate's error: a nom error
      becomes a message, a panic stays a panic. */
  function FromFailure(f: Failure): (e: ErrorKind)
    ensures e == Panicked <==> f == Panic
    ensures e == OutOfFuel <==> f == Diverges
    ensures e != Panicked && e != OutOfFuel ==> e == Message
  {
    if f == Panic then Panicked else if f == Diverges then OutOfFuel else Message
  }

  /** The other way round, where a crate error ends a parser: a panic stays
      a panic, a spent step bound stays one, and any error becomes a plain
      nom error. */
  function ToFailure(e: ErrorKind): (f: Failure)
    ensures f == Panic <==> e == Panicked
    ensures f == Diverges <==> e == OutOfFuel
    ensures f != Panic && f != Diverges ==> f == Error
  {
    if e == Panicked then Panic else if e == OutOfFuel then Diverges else Error
  }

  /** A `std::result::Result` with the crate's error type. */
  datatype Result<+T> = Ok(value: T) | Err(error: ErrorKind)
  {
    predicate IsFailure() { Err? }

    function PropagateFailure<U>(): Result<U>
      requires Err?
    {
      Err(error)
    }

    function Extract(): T
      requires Ok?
    {
      value
    }
  }

  /** `s` ends with `t`: the remaining input of a parser is always such a suffix. */
  predicate IsSuffix(t: seq<bv8>, s: seq<bv8>) {
    |t| <= |s| && t == s[|s| - |t|..]
  }

  lemma SuffixTransitive(u: seq<bv8>, t: seq<bv8>, s: seq<bv8>)
    requires IsSuffix(u, t) && IsSuffix(t, s)
    ensures IsSuffix(u, s)
  {
    assert s[|s| - |u|..] == s[|s| - |t|..][|t| - |u|..];
  }

  /** Regrouping a four-part concatenation, which the solver does not find
      on its own cheaply. */
  lemma ConcatAssoc(a: seq<bv8>, b: seq<bv8>, c: seq<bv8>, d: seq<bv8>)
    ensures a + b + c + d == a + (b + c + d)
  {
  }

  /** `n` zero bytes, the padding the serialisers write. */
  function Zeros(n: nat): (z: seq<bv8>)
    ensures |z| == n && forall k :: 0 <= k < n ==> z[k] == 0
  {
    seq(n, _ => 0)
  }

  /** `bytes::complete::take(n)` */
  function Take(s: seq<bv8>, n: nat): (r: Outcome<seq<bv8>>)
    ensures r.Done? <==> n <= |s|
    ensures r.Done? ==> r.value == s[..n] && r.rest == s[n..]
    ensures r.Fail? ==> r.failure == Error
  {
    if n <= |s| then Done(s[n..], s[..n]) else Fail(Error)
  }

  /** `bytes::streaming::take(n)`: a short input asks for more instead of failing. */
  function TakeStreaming(s: seq<bv8>, n: nat): (r: Outcome<seq<bv8>>)
    ensures r.Done? <==> n <= |s|
    ensures r.Done? ==> r.value == s[..n] && r.rest == s[n..]
    ensures r.Fail? ==> r.failure == Incomplete
  {
    if n <= |s| then Done(s[n..], s[..n]) else Fail(Incomplete)
  }

  /** `number::complete::le_u8` (also `u8`) */
  function U8(s: seq<bv8>): (r: Outcome<bv8>)
    ensures r.Done? <==> 1 <= |s|
    ensures r.Done? ==> r.value == s[0] && r.rest == s[1..]
    ensures r.Fail? ==> r.failure == Error
  {
    if 1 <= |s| then Done(s[1..], s[0]) else Fail(Error)
  }

  /** The byte whose value is `x` (a Rust `as u8` of a value already below
      0x100), built from its two nibbles. */
  function ByteOf(x: u8): (b: bv8)
    ensures b as int == x
  {
    var hi, lo := NibbleOf(x / 16), NibbleOf(x % 16);
    NibblesValue(hi, lo);
    hi * 16 + lo
  }

  function NibbleOf(x: int): (b: bv8)
    requires 0 <= x < 0x10
    ensures b as int == x
  {
    x as bv8
  }

  lemma NibblesValue(hi: bv8, lo: bv8)
    requires hi < 16 && lo < 16
    ensures (hi * 16 + lo) as int == hi as int * 16 + lo as int
  {
  }

  /** Two bytes with the same value are the same byte. */
  lemma ByteValueInjective(a: bv8, b: bv8)
    requires a as int == b as int
    ensures a == b
  {
  }

  /** The value of two bytes, low byte first. */
  function LeWord(lo: bv8, hi: bv8): u16 {
    lo as int + 256 * hi as int
  }

  /** `number::complete::le_u16` */
  function LeU16(s: seq<bv8>): (r: Outcome<u16>)
    ensures r.Done? <==> 2 <= |s|
    ensures r.Done? ==> r.value == LeWord(s[0], s[1]) && r.rest == s[2..]
    ensures r.Fail? ==> r.failure == Error
  {
    if 2 <= |s| then Done(s[2..], LeWord(s[0], s[1])) else Fail(Error)
  }

  /** `number::complete::be_u16`: the high byte comes first. */
  function BeU16(s: seq<bv8>): (r: Outcome<u16>)
    ensures r.Done? <==> 2 <= |s|
    ensures r.Done? ==> r.value == LeWord(s[1], s[0]) && r.rest == s[2..]
    ensures r.Fail? ==> r.failure == Error
  {
    if 2 <= |s| then Done(s[2..], LeWord(s[1], s[0])) else Fail(Error)
  }

  /** `number::complete::le_u32` */
  function LeU32(s: seq<bv8>): (r: Outcome<u32>)
    ensures r.Done? <==> 4 <= |s|
    ensures r.Done? ==> r.value == LeWord(s[0], s[1]) + 0x1_0000 * LeWord(s[2], s[3]) && r.rest == s[4..]
    ensures r.Fail? ==> r.failure == Error
  {
    if 4 <= |s| then Done(s[4..], LeWord(s[0], s[1]) + 0x1_0000 * LeWord(s[2], s[3])) else Fail(Error)
  }

  /** `bytes::complete::tag(t)` */
  function Tag(s: seq<bv8>, t: seq<bv8>): (r: Outcome<seq<bv8>>)
    ensures r.Done? <==> |t| <= |s| && s[..|t|] == t
    ensures r.Done? ==> r.value == t && r.rest == s[|t|..]
    ensures r.Fail? ==> r.failure == Error
  {
    if |t| <= |s| && s[..|t|] == t then Done(s[|t|..], t) else Fail(Error)
  }

  /** `pat` occurs in `s` at position `k`. */
  predicate OccursAt(s: seq<bv8>, pat: seq<bv8>, k: int) {
    0 <= k && k + |pat| <= |s| && s[k..k + |pat|] == pat
  }

  /** The first position at or after `from` where `pat` occurs in `s`. */
  function FindFrom(s: seq<bv8>, pat: seq<bv8>, from: nat): (r: Option<nat>)
    ensures r.Some? ==> from <= r.value && OccursAt(s, pat, r.value)
    ensures r.Some? ==> forall k :: from <= k < r.value ==> !OccursAt(s, pat, k)
    ensures r.None? ==> forall k :: from <= k ==> !OccursAt(s, pat, k)
    decreases |s| - from
  {
    if from + |pat| > |s| then None
    else if s[from..from + |pat|] == pat then Some(from)
    else FindFrom(s, pat, from + 1)
  }

  /** Bytes that do not hold `pat`'s first byte cannot hide an occurrence, so
      a search over them followed by `pat` stops right after them. */
  lemma FindAfterGap(gap: seq<bv8>, t: seq<bv8>, pat: seq<bv8>)
    requires 0 < |pat| && OccursAt(t, pat, 0)
    requires forall i :: 0 <= i < |gap| ==> gap[i] != pat[0]
    ensures FindFrom(gap + t, pat, 0) == Some(|gap|)
  {
    var s := gap + t;
    assert s[|gap|..|gap| + |pat|] == t[..|pat|];
    assert OccursAt(s, pat, |gap|);
    forall k | 0 <= k < |gap|
      ensures !OccursAt(s, pat, k)
    {
      assert s[k] == gap[k] != pat[0];
    }
  }

  /** `bytes::streaming::take_until(pat)`: the bytes before the first occurrence
      of `pat`, leaving the input at that occurrence; when `pat` does not occur
      the streaming parser asks for more input. */
  function TakeUntil(s: seq<bv8>, pat: seq<bv8>): (r: Outcome<seq<bv8>>)
    ensures r.Done? <==> exists k :: OccursAt(s, pat, k)
    ensures r.Done? ==> OccursAt(s, pat, |r.value|) && r.rest == s[|r.value|..] && r.value == s[..|r.value|]
    ensures r.Done? ==> forall k :: 0 <= k < |r.value| ==> !OccursAt(s, pat, k)
    ensures r.Fail? ==> r.failure == Incomplete
  {
    match FindFrom(s, pat, 0)
    case Some(k) => Done(s[k..], s[..k])
    case None => Fail(Incomplete)
  }

  /** `multi::count(p, n)`: apply `p` exactly `n` times; any failure is passed on. */
  function Count<T>(p: seq<bv8> -> Outcome<T>, n: nat, s: seq<bv8>): (r: Outcome<seq<T>>)
    ensures r.Done? ==> |r.value| == n
    decreases n
  {
    if n == 0 then Done(s, [])
    else
      var (i, x) :- p(s);
      var (j, xs) :- Count(p, n - 1, i);
      Done(j, [x] + xs)
  }

  /** `p` always consumes exactly `k` bytes and fails with a plain error
      exactly when fewer remain. */
  ghost predicate FixedWidth<T>(p: seq<bv8> -> Outcome<T>, k: nat) {
    forall t {:trigger p(t)} ::
      (p(t).Done? <==> k <= |t|) &&
      (p(t).Done? ==> p(t).rest == t[k..]) &&
      (p(t).Fail? ==> p(t).failure == Error)
  }

  /** Whenever `p` succeeds it has consumed `len` of the value it read
      (it may still fail, or panic, on inputs that are long enough). */
  ghost predicate ConsumesLength<T>(p: seq<bv8> -> Outcome<T>, len: T -> nat) {
    forall t {:trigger p(t)} :: p(t).Done? ==> len(p(t).value) <= |t| && p(t).rest == t[len(p(t).value)..]
  }

  /** Where the `k`-th of `values` began, the earlier ones laid end to end. */
  function OffsetOf<T>(values: seq<T>, len: T -> nat, k: nat): nat
    requires k <= |values|
  {
    if k == 0 then 0 else OffsetOf(values, len, k - 1) + len(values[k - 1])
  }

  /** The offsets after the first value are its length plus the offsets
      among the rest. */
  lemma {:induction false} OffsetOfTail<T>(values: seq<T>, len: T -> nat, k: nat)
    requires 1 <= k <= |values|
    ensures OffsetOf(values, len, k) == len(values[0]) + OffsetOf(values[1..], len, k - 1)
    decreases k
  {
    if k > 1 {
      OffsetOfTail(values, len, k - 1);
      assert values[k - 1] == values[1..][k - 2];
    }
  }

  /** Values of one length `k` lie at multiples of `k`. */
  lemma {:induction false} OffsetOfConstant<T>(values: seq<T>, len: T -> nat, k: nat, i: nat)
    requires i <= |values|
    requires forall v :: len(v) == k
    ensures OffsetOf(values, len, i) == i * k
    decreases i
  {
    if i > 0 {
      OffsetOfConstant(values, len, k, i - 1);
      MulSucc(i - 1, k);
    }
  }

  /** A successful count of such a parser ends where its values, laid end
      to end, end. */
  lemma {:induction false} CountRest<T>(p: seq<bv8> -> Outcome<T>, len: T -> nat, n: nat, s: seq<bv8>)
    requires ConsumesLength(p, len)
    requires Count(p, n, s).Done?
    ensures OffsetOf(Count(p, n, s).value, len, n) <= |s|
    ensures Count(p, n, s).rest == s[OffsetOf(Count(p, n, s).value, len, n)..]
    decreases n
  {
    if n > 0 {
      var first := p(s);
      var b := len(first.value);
      assert first.Done? && b <= |s| && first.rest == s[b..];
      var r' := Count(p, n - 1, first.rest);
      CountRest(p, len, n - 1, first.rest);
      var vs := Count(p, n, s).value;
      assert vs[1..] == r'.value;
      OffsetOfTail(vs, len, n);
      assert s[b..][OffsetOf(r'.value, len, n - 1)..] == s[OffsetOf(vs, len, n)..];
    }
  }

  /** ... and read its `k`-th value at the end of the ones before it. */
  lemma {:induction false} CountAt<T>(p: seq<bv8> -> Outcome<T>, len: T -> nat, n: nat, s: seq<bv8>, k: nat)
    requires ConsumesLength(p, len)
    requires Count(p, n, s).Done? && k < n
    ensures OffsetOf(Count(p, n, s).value, len, k) <= OffsetOf(Count(p, n, s).value, len, k + 1) <= |s|
    ensures p(s[OffsetOf(Count(p, n, s).value, len, k)..]) ==
      Done(s[OffsetOf(Count(p, n, s).value, len, k + 1)..], Count(p, n, s).value[k])
    decreases k
  {
    var first := p(s);
    var b := len(first.value);
    assert first.Done? && b <= |s| && first.rest == s[b..];
    var r' := Count(p, n - 1, first.rest);
    var vs := Count(p, n, s).value;
    assert vs == [first.value] + r'.value;
    if k == 0 {
      assert s[0..] == s;
    } else {
      CountAt(p, len, n - 1, first.rest, k - 1);
      assert vs[1..] == r'.value;
      OffsetOfTail(vs, len, k);
      OffsetOfTail(vs, len, k + 1);
      assert s[b..][OffsetOf(r'.value, len, k - 1)..] == s[OffsetOf(vs, len, k)..];
      assert s[b..][OffsetOf(r'.value, len, k)..] == s[OffsetOf(vs, len, k + 1)..];
    }
  }

  /** Whenever `p` succeeds it has consumed exactly `k` bytes. */
  ghost predicate Consumes<T>(p: seq<bv8> -> Outcome<T>, k: nat) {
    forall t {:trigger p(t)} :: p(t).Done? ==> k <= |t| && p(t).rest == t[k..]
  }

  /** A successful count of such a parser has read its `i`-th value at
      offset `i * k` and consumed `n * k` bytes. */
  lemma CountConsumes<T>(p: seq<bv8> -> Outcome<T>, k: nat, n: nat, s: seq<bv8>)
    requires Consumes(p, k)
    ensures Count(p, n, s).Done? ==> n * k <= |s| && Count(p, n, s).rest == s[n * k..]
    ensures Count(p, n, s).Done? ==>
      forall i :: 0 <= i < n ==> i * k + k <= |s| && p(s[i * k..]).Done? && Count(p, n, s).value[i] == p(s[i * k..]).value
  {
    if Count(p, n, s).Done? {
      var len := (_: T) => k;
      assert ConsumesLength(p, len);
      var vs := Count(p, n, s).value;
      CountRest(p, len, n, s);
      OffsetOfConstant(vs, len, k, n);
      forall i | 0 <= i < n {
        CountConsumesAt(p, len, k, n, s, i);
      }
    }
  }

  lemma CountConsumesAt<T>(p: seq<bv8> -> Outcome<T>, len: T -> nat, k: nat, n: nat, s: seq<bv8>, i: nat)
    requires forall v :: len(v) == k
    requires ConsumesLength(p, len)
    requires Count(p, n, s).Done? && i < n
    ensures i * k + k <= |s| && p(s[i * k..]).Done? && Count(p, n, s).value[i] == p(s[i * k..]).value
  {
    var vs := Count(p, n, s).value;
    CountAt(p, len, n, s, i);
    OffsetOfConstant(vs, len, k, i);
    OffsetOfConstant(vs, len, k, i + 1);
    MulSucc(i, k);
  }

  /** Wherever `p` succeeds, `q` succeeds too, stops at the same place and
      yields the image of `p`'s value under `f`. */
  ghost predicate Projects<T, U>(p: seq<bv8> -> Outcome<T>, q: seq<bv8> -> Outcome<U>, f: T -> U) {
    forall t {:trigger p(t)} :: p(t).Done? ==> q(t) == Done(p(t).rest, f(p(t).value))
  }

  /** Then `n` repetitions of `q` succeed wherever `n` repetitions of `p`
      do, stop at the same place, and yield the images of `p`'s values. */
  lemma {:induction false} CountProjects<T, U>(p: seq<bv8> -> Outcome<T>, q: seq<bv8> -> Outcome<U>, f: T -> U, n: nat, s: seq<bv8>)
    requires Projects(p, q, f)
    requires Count(p, n, s).Done?
    ensures Count(q, n, s).Done? && Count(q, n, s).rest == Count(p, n, s).rest
    ensures forall i :: 0 <= i < n ==> Count(q, n, s).value[i] == f(Count(p, n, s).value[i])
    decreases n
  {
    if n > 0 {
      var i := p(s).rest;
      CountProjects(p, q, f, n - 1, i);
      var xs, ys := Count(p, n - 1, i).value, Count(q, n - 1, i).value;
      assert Count(p, n, s).value == [p(s).value] + xs;
      assert Count(q, n, s).value == [f(p(s).value)] + ys;
    }
  }

  /** Counting a fixed-width parser `n` times consumes `n * k` bytes, and the
      `i`-th value is what the parser reads at offset `i * k`. */
  lemma {:induction false} CountFixedWidth<T>(p: seq<bv8> -> Outcome<T>, k: nat, n: nat, s: seq<bv8>)
    requires FixedWidth(p, k)
    ensures Count(p, n, s).Done? <==> n * k <= |s|
    ensures Count(p, n, s).Done? ==> Count(p, n, s).rest == s[n * k..]
    ensures Count(p, n, s).Done? ==>
      forall i :: 0 <= i < n ==> i * k + k <= |s| && Count(p, n, s).value[i] == p(s[i * k..]).value
    ensures Count(p, n, s).Fail? ==> Count(p, n, s).failure == Error
    decreases n
  {
    if n > 0 {
      var t := p(s);
      var m := n - 1;
      assert n * k == m * k + k by { MulSucc(m, k); }
      if t.Fail? {
        assert k > |s|;
      } else {
        assert t.rest == s[k..];
        CountFixedWidth(p, k, m, t.rest);
        var r' := Count(p, m, t.rest);
        CountStep(p, n, s);
        if r'.Done? {
          assert s[k..][m * k..] == s[n * k..];
          CountFixedWidthValues(p, k, n, s, t.value, r'.value);
        }
      }
    }
  }

  /** One step of `Count` after a successful first parse. */
  lemma CountStep<T>(p: seq<bv8> -> Outcome<T>, n: nat, s: seq<bv8>)
    requires 0 < n && p(s).Done?
    ensures Count(p, n, s) == match Count(p, n - 1, p(s).rest)
      case Done(j, xs) => Done(j, [p(s).value] + xs)
      case Fail(f) => Fail(f)
  {
  }

  lemma CountFixedWidthValues<T>(p: seq<bv8> -> Outcome<T>, k: nat, n: nat, s: seq<bv8>, x: T, xs: seq<T>)
    requires FixedWidth(p, k)
    requires 0 < n && k <= |s| && n * k <= |s| && |xs| == n - 1
    requires p(s).Done? && x == p(s).value
    requires forall i :: 0 <= i < n - 1 ==> i * k + k <= |s| - k && ParsedAt(p, s[k..], i * k, xs[i])
    ensures forall i :: 0 <= i < n ==> i * k + k <= |s| && ParsedAt(p, s, i * k, ([x] + xs)[i])
  {
    forall i | 0 <= i < n
      ensures i * k + k <= |s| && ParsedAt(p, s, i * k, ([x] + xs)[i])
    {
      if i == 0 {
        assert s[0 * k..] == s;
        MulMono(1, n, k);
      } else {
        assert i * k == (i - 1) * k + k by { MulSucc(i - 1, k); }
        assert s[i * k..] == s[k..][(i - 1) * k..];
      }
    }
  }

  /** `p` reads `v` from `s` at `offset`. */
  ghost predicate ParsedAt<T>(p: seq<bv8> -> Outcome<T>, s: seq<bv8>, offset: nat, v: T) {
    offset <= |s| && p(s[offset..]).Done? && p(s[offset..]).value == v
  }

  lemma MulSucc(m: nat, k: nat)
    ensures (m + 1) * k == m * k + k
  {
  }

  lemma MulMono(a: nat, b: nat, k: nat)
    requires a <= b
    ensures a * k <= b * k
  {
  }

  /** `multi::many0(p)` of nom 7: apply `p` until it fails with a plain error
      and return what was collected; an incomplete input or a panic is passed
      on, and a success that consumes nothing is an error (nom's guard
      against looping forever). */
  function Many0<T>(p: seq<bv8> -> Outcome<T>, s: seq<bv8>): (r: Outcome<seq<T>>)
    requires forall t {:trigger p(t)} :: p(t).Done? ==> IsSuffix(p(t).rest, t)
    ensures r.Done? ==> IsSuffix(r.rest, s)
    decreases |s|
  {
    match p(s)
    case Fail(Error) => Done(s, [])
    case Fail(f) => Fail(f)
    case Done(i, x) =>
      if |i| == |s| then Fail(Error)
      else
        match Many0(p, i)
        case Done(j, xs) => Done(j, [x] + xs)
        case Fail(f) => Fail(f)
  }

  /** `many0` stops exactly where its parser fails with a plain error. */
  lemma {:induction false} Many0Stops<T>(p: seq<bv8> -> Outcome<T>, s: seq<bv8>)
    requires forall t {:trigger p(t)} :: p(t).Done? ==> IsSuffix(p(t).rest, t)
    ensures Many0(p, s).Done? ==> p(Many0(p, s).rest) == Fail(Error)
    decreases |s|
  {
    match p(s)
    case Fail(_) =>
    case Done(i, x) =>
      if |i| < |s| {
        Many0Stops(p, i);
      }
  }

  /** When every success of the parser consumes input, `many0` fails only
      with a failure the parser itself reported other than a plain error. */
  lemma {:induction false} Many0Failure<T>(p: seq<bv8> -> Outcome<T>, s: seq<bv8>, f: Failure)
    requires forall t {:trigger p(t)} :: p(t).Done? ==> IsSuffix(p(t).rest, t) && |p(t).rest| < |t|
    requires forall t {:trigger p(t)} :: p(t).Fail? ==> p(t).failure == Error || p(t).failure == f
    ensures Many0(p, s).Fail? ==> Many0(p, s).failure == f
    decreases |s|
  {
    match p(s)
    case Fail(_) =>
    case Done(i, x) =>
      Many0Failure(p, i, f);
  }

  /** Running `many0` along a chain of successes: `rests[k]` is the input
      before the k-th success and `rests[|values|]` is where the parser stops,
      with a plain error (the values are collected) or another failure (which
      is passed on). */
  lemma {:induction false} Many0Chain<T>(p: seq<bv8> -> Outcome<T>, rests: seq<seq<bv8>>, values: seq<T>)
    requires forall t {:trigger p(t)} :: p(t).Done? ==> IsSuffix(p(t).rest, t)
    requires |rests| == |values| + 1
    requires forall k :: 0 <= k < |values| ==> p(rests[k]) == Done(rests[k + 1], values[k]) && |rests[k + 1]| < |rests[k]|
    requires p(rests[|values|]).Fail?
    ensures Many0(p, rests[0]) ==
      if p(rests[|values|]).failure == Error then Done(rests[|values|], values) else Fail(p(rests[|values|]).failure)
    decreases |values|
  {
    if |values| > 0 {
      assert p(rests[0]) == Done(rests[1], values[0]);
      Many0Chain(p, rests[1..], values[1..]);
      assert [values[0]] + values[1..] == values;
    }
  }

  /** `take(n)` as a parser value, for `count`. */
  function TakeParser(n: nat): seq<bv8> -> Outcome<seq<bv8>> {
    t => Take(t, n)
  }

  lemma TakeFixedWidth(n: nat)
    ensures FixedWidth(TakeParser(n), n)
  {
  }

  /** The `n` consecutive `w`-byte pieces at the start of `t`. */
  function Chunks(t: seq<bv8>, w: nat, n: nat): (pieces: seq<seq<bv8>>)
    requires w * n <= |t|
    ensures |pieces| == n
  {
    seq(n, k requires 0 <= k < n => ChunkAt(t, w, n, k))
  }

  function ChunkAt(t: seq<bv8>, w: nat, n: nat, k: nat): (c: seq<bv8>)
    requires w * n <= |t| && k < n
    ensures |c| == w
  {
    ChunkFits(w, n, k);
    t[w * k..w * k + w]
  }

  lemma ChunkFits(w: nat, n: nat, k: nat)
    requires k < n
    ensures w * k + w <= w * n
  {
    MulMono(k + 1, n, w);
    assert (k + 1) * w == w * k + w;
    assert n * w == w * n;
  }

  /** `count(take(w), n)` cuts the next `w * n` bytes into `n` pieces, and
      fails with a plain error when fewer remain. */
  lemma {:induction false} CountTakes(t: seq<bv8>, w: nat, n: nat)
    ensures Count(TakeParser(w), n, t).Done? <==> w * n <= |t|
    ensures Count(TakeParser(w), n, t).Fail? ==> Count(TakeParser(w), n, t).failure == Error
    ensures w * n <= |t| ==> Count(TakeParser(w), n, t) == Done(t[w * n..], Chunks(t, w, n))
  {
    TakeFixedWidth(w);
    CountFixedWidth(TakeParser(w), w, n, t);
    var c := Count(TakeParser(w), n, t);
    assert n * w == w * n;
    if c.Done? {
      assert c.rest == t[w * n..];
      forall k | 0 <= k < n
        ensures c.value[k] == Chunks(t, w, n)[k]
      {
        assert k * w == w * k;
        assert t[k * w..][..w] == t[w * k..w * k + w];
      }
      assert c.value == Chunks(t, w, n);
    }
  }

  lemma SliceOfSlice(d: seq<bv8>, lo: nat, hi: nat, i: nat, j: nat)
    requires lo <= hi <= |d| && i <= j <= hi - lo
    ensures d[lo..hi][i..j] == d[lo + i..lo + j]
  {
    assert forall k :: 0 <= k < j - i ==> d[lo..hi][i..j][k] == d[lo + i + k];
  }

  /** Slicing after dropping `a` elements is slicing further on. */
  lemma SliceAfter<T>(s: seq<T>, a: nat, i: nat, j: nat)
    requires a <= |s| && i <= j <= |s| - a
    ensures s[a..][i..j] == s[a + i..a + j]
  {
  }

  lemma DropAfter<T>(s: seq<T>, a: nat, i: nat)
    requires a + i <= |s|
    ensures s[a..][i..] == s[a + i..]
  {
  }

  /** Five pieces regrouped around the middle one. */
  lemma Regroup<T>(a: seq<T>, b: seq<T>, c: seq<T>, d: seq<T>, e: seq<T>)
    ensures a + (b + c + d) + e == (a + b) + c + (d + e)
  {
  }

  /** The middle piece of three is where its prefix ends. */
  lemma Middle<T>(a: seq<T>, b: seq<T>, c: seq<T>)
    ensures (a + b + c)[|a|..|a| + |b|] == b
  {
    assert forall i :: 0 <= i < |b| ==> (a + b + c)[|a| + i] == b[i];
  }

  /** A sequence cut before position `k`. */
  lemma SliceAt<T>(s: seq<T>, k: nat)
    requires k < |s|
    ensures s[..k] + s[k..] == s && s[k..][0] == s[k] && s[k..][1..] == s[k + 1..]
  {
  }

  /** `combinator::cond(b, p)`: run `p` only when `b` holds. */
  function Cond<T>(b: bool, p: seq<bv8> -> Outcome<T>, s: seq<bv8>): (r: Outcome<Option<T>>)
    ensures !b ==> r == Done(s, None)
    ensures b ==> (r.Done? <==> p(s).Done?)
    ensures b && r.Done? ==> r == Done(p(s).rest, Some(p(s).value))
    ensures b && r.Fail? ==> r.failure == p(s).failure
  {
    if b then
      var (i, x) :- p(s);
      Done(i, Some(x))
    else Done(s, None)
  }

  /** `Option::unwrap_or(d)` */
  function UnwrapOr<T>(o: Option<T>, d: T): T {
    if o.Some? then o.value else d
  }
}
