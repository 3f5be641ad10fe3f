/** The streaming hashers of src/utils/hash/hasher.ts: FNV-1a (32 bits) and
    cyrb53 (53 bits). Each `update(v)` folds one number into 32-bit state
    words; `putBytes`, `putBoolean`, `putString` and `putNumber` decide which
    numbers are fed, and `hash()` finishes the state into a hash code. The
    32-bit arithmetic of `^`, `>>>` and `Math.imul` is exact on `bv32`. */
module Hashing {

  /** A byte of a Node.js Buffer, as iterating the buffer yields it. */
  newtype Byte = x: int | 0 <= x < 256
  /** A UTF-16 code unit, what `charCodeAt` returns. */
  type CodeUnit = bv16

  const FNV_OFFSET_BASIS: bv32 := 2166136261
  const FNV_PRIME: bv32 := 16777619
  const CYRB_SEED1: bv32 := 0xdeadbeef
  const CYRB_SEED2: bv32 := 0x41c6ce57
  const TWO_32: int := 0x1_0000_0000
  const TWO_31: int := 0x8000_0000

  /** The hasher's mutable state words: `h` of FNV1a32Hasher, `h1`/`h2` of
      Cyrb53Hasher. */
  datatype State = Fnv(h: bv32) | Cyrb(h1: bv32, h2: bv32)

  /** A finished hash code: Numeric32HashCode or Cyrb53HashCode. */
  datatype HashCode = Numeric32(value: int) | Cyrb53Code(value: int)
  {
    function Bits(): nat
    {
      if Numeric32? then 32 else 53
    }
  }

  /** `update(v)`: FNV-1a xors then multiplies; cyrb53 xors each word and
      multiplies it by its own constant (Math.imul keeps the low 32 bits). */
  function Step(s: State, v: bv32): (r: State)
    ensures r.Fnv? <==> s.Fnv?
  {
    match s
    case Fnv(h) => Fnv((h ^ v) * FNV_PRIME)
    case Cyrb(h1, h2) => Cyrb((h1 ^ v) * 2654435761, (h2 ^ v) * 1597334677)
  }

  /** The state after feeding `vs` in order, one `update` each. */
  function Feed(s: State, vs: seq<bv32>): State
  {
    if vs == [] then s else Step(Feed(s, vs[..|vs| - 1]), vs[|vs| - 1])
  }

  /** Hashing is incremental: feeding `a` then `b` is feeding `a + b`. */
  lemma {:induction false} FeedAppend(s: State, a: seq<bv32>, b: seq<bv32>)
    ensures Feed(Feed(s, a), b) == Feed(s, a + b)
    decreases |b|
  {
    if b == [] {
      assert a + b == a;
    } else {
      var b' := b[..|b| - 1];
      FeedAppend(s, a, b');
      assert (a + b)[..|a + b| - 1] == a + b';
    }
  }

  /** Feeding keeps the algorithm: an FNV state stays an FNV state. */
  lemma {:induction false} FeedKeepsAlgorithm(s: State, vs: seq<bv32>)
    ensures Feed(s, vs).Fnv? == s.Fnv?
    decreases |vs|
  {
    if vs != [] {
      FeedKeepsAlgorithm(s, vs[..|vs| - 1]);
    }
  }

  /** `putBytes`: one update per byte, in order. */
  function BytesFeed(buf: seq<Byte>): (vs: seq<bv32>)
    ensures |vs| == |buf|
    ensures forall i :: 0 <= i < |buf| ==> vs[i] == ByteWord(buf[i])
  {
    if buf == [] then [] else BytesFeed(buf[..|buf| - 1]) + [ByteWord(buf[|buf| - 1])]
  }

  /** The number a byte is fed as. */
  function ByteWord(b: Byte): bv32
  {
    b as bv32
  }

  /** `putBoolean`: a single update with 1 or 0. */
  function BooleanFeed(x: bool): (vs: seq<bv32>)
    ensures |vs| == 1 && (vs[0] == 1 <==> x) && (vs[0] == 0 <==> !x)
  {
    [if x then 1 else 0]
  }

  /** `putString`: one update per UTF-16 code unit, in order. */
  function StringFeed(str: seq<CodeUnit>): (vs: seq<bv32>)
    ensures |vs| == |str|
    ensures forall i :: 0 <= i < |str| ==> vs[i] == str[i] as bv32
  {
    if str == [] then [] else StringFeed(str[..|str| - 1]) + [str[|str| - 1] as bv32]
  }

  predicate IsInt32(x: int) { -TWO_31 <= x < TWO_31 }

  /** `x | 0`: the signed 32-bit integer with the same low 32 bits as `x`. */
  function ToInt32(x: int): (r: int)
    ensures IsInt32(r)
    ensures (r - x) % TWO_32 == 0
  {
    var u := x % TWO_32;
    if u >= TWO_31 then u - TWO_32 else u
  }

  lemma ToInt32Identity(x: int)
    requires IsInt32(x)
    ensures ToInt32(x) == x
  {
  }

  /** `writeInt32BE(x)`: the four bytes of x's two's-complement encoding,
      most significant first. */
  function Int32BE(x: int): (bytes: seq<Byte>)
    requires IsInt32(x)
    ensures |bytes| == 4
  {
    var u := x % TWO_32;
    [(u / 0x100_0000) as Byte, (u / 0x1_0000 % 0x100) as Byte, (u / 0x100 % 0x100) as Byte, (u % 0x100) as Byte]
  }

  /** `readInt32BE`: four big-endian bytes as a signed 32-bit integer. */
  function ReadInt32BE(bytes: seq<Byte>): int
    requires |bytes| == 4
  {
    ToInt32(bytes[0] as int * 0x100_0000 + bytes[1] as int * 0x1_0000 + bytes[2] as int * 0x100 + bytes[3] as int)
  }

  /** Splitting a word into its four bytes and joining them again gives the word. */
  lemma SplitWord(u: int)
    requires 0 <= u < TWO_32
    ensures (u / 0x100_0000) * 0x100_0000 + (u / 0x1_0000 % 0x100) * 0x1_0000
            + (u / 0x100 % 0x100) * 0x100 + u % 0x100 == u
  {
    var lo := u % 0x1_0000;
    assert u == (u / 0x1_0000) * 0x1_0000 + lo;
    assert u / 0x1_0000 == (u / 0x100_0000) * 0x100 + u / 0x1_0000 % 0x100;
    assert u / 0x100 == (u / 0x1_0000) * 0x100 + lo / 0x100;
    assert lo == (lo / 0x100) * 0x100 + u % 0x100;
  }

  /** The 4-byte encoding `putNumber` feeds for an int32 loses nothing. */
  lemma Int32BERoundTrip(x: int)
    requires IsInt32(x)
    ensures ReadInt32BE(Int32BE(x)) == x
  {
    var u := x % TWO_32;
    SplitWord(u);
    ToInt32Identity(x);
  }

  /** `putNumber` on a number in the int32 range. */
  function NumberFeed(x: int): (vs: seq<bv32>)
    requires IsInt32(x)
    ensures |vs| == 4
  {
    BytesFeed(Int32BE(x))
  }

  /** The unsigned value of a 32-bit word, `w >>> 0`. */
  function Unsigned(w: bv32): (r: nat)
    ensures r < TWO_32
  {
    w as nat
  }

  /** `2097151 & w`: the low 21 bits of a word, as a number. */
  function Low21(w: bv32): (r: nat)
    ensures r < 0x20_0000
  {
    Unsigned(w) % 0x20_0000
  }

  /** cyrb53's finaliser: `4294967296 * (hh2 & 0x1FFFFF) + (hh1 >>> 0)`. */
  function Cyrb53Value(h1: bv32, h2: bv32): (r: nat)
    ensures r < 0x20_0000_0000_0000
  {
    var hh1 := (h1 ^ (h1 >> 16)) * 2246822507;
    var hh1' := hh1 ^ ((h2 ^ (h2 >> 13)) * 3266489909);
    var hh2 := (h2 ^ (h2 >> 16)) * 2246822507;
    var hh2' := hh2 ^ ((hh1' ^ (hh1' >> 13)) * 3266489909);
    TWO_32 * Low21(hh2') + Unsigned(hh1')
  }

  /** `hash()`: FNV-1a reinterprets `h` as a signed 32-bit value; cyrb53
      combines both words into a 53-bit non-negative value. */
  function Digest(s: State): (c: HashCode)
    ensures s.Fnv? ==>
              c.Numeric32? && c.Bits() == 32 && IsInt32(c.value) && (c.value - Unsigned(s.h)) % TWO_32 == 0
    ensures s.Cyrb? ==> c.Cyrb53Code? && c.Bits() == 53 && 0 <= c.value < 0x20_0000_0000_0000
  {
    match s
    case Fnv(h) => Numeric32(ToInt32(Unsigned(h)))
    case Cyrb(h1, h2) => Cyrb53Code(Cyrb53Value(h1, h2))
  }

  /** A hasher object; the algorithm is fixed by the constructor used. */
  class Hasher {
    var state: State

    /** `new FNV1a32Hasher()`. */
    constructor Fnv1a32()
      ensures state == Fnv(FNV_OFFSET_BASIS)
    {
      state := Fnv(FNV_OFFSET_BASIS);
    }

    /** `new Cyrb53Hasher(seed)`, the seed taken as its 32 bits; the
        default `new Cyrb53Hasher()` is `Cyrb53(0)`. */
    constructor Cyrb53(seed: bv32)
      ensures state == Cyrb(CYRB_SEED1 ^ seed, CYRB_SEED2 ^ seed)
    {
      state := Cyrb(CYRB_SEED1 ^ seed, CYRB_SEED2 ^ seed);
    }

    method Update(v: bv32)
      modifies this
      ensures state == Step(old(state), v)
    {
      state := Step(state, v);
    }

    method PutBytes(buf: seq<Byte>)
      modifies this
      ensures state == Feed(old(state), BytesFeed(buf))
    {
      var i := 0;
      while i < |buf|
        invariant 0 <= i <= |buf|
        invariant state == Feed(old(state), BytesFeed(buf[..i]))
      {
        assert BytesFeed(buf[..i + 1])[..i] == BytesFeed(buf[..i]);
        Update(ByteWord(buf[i]));
        i := i + 1;
      }
      assert buf[..i] == buf;
    }

    method PutBoolean(x: bool)
      modifies this
      ensures state == Feed(old(state), BooleanFeed(x))
    {
      Update(if x then 1 else 0);
      assert BooleanFeed(x)[..0] == [];
    }

    method PutString(str: seq<CodeUnit>)
      modifies this
      ensures state == Feed(old(state), StringFeed(str))
    {
      var i := 0;
      while i < |str|
        invariant 0 <= i <= |str|
        invariant state == Feed(old(state), StringFeed(str[..i]))
      {
        assert StringFeed(str[..i + 1])[..i] == StringFeed(str[..i]);
        Update(str[i] as bv32);
        i := i + 1;
      }
      assert str[..i] == str;
    }

    /** `putNumber` for a safe integer in [-2^31, 2^31 - 1]. */
    method PutNumber(x: int)
      requires IsInt32(x)
      modifies this
      ensures state == Feed(old(state), NumberFeed(x))
    {
      var buf := Int32BE(x);
      PutBytes(buf);
    }

    method Hash() returns (c: HashCode)
      ensures c == Digest(state)
      ensures state.Fnv? ==> c.Bits() == 32 && IsInt32(c.value)
      ensures state.Cyrb? ==> c.Bits() == 53 && 0 <= c.value < 0x20_0000_0000_0000
    {
      match state
      case Fnv(h) =>
        c := Numeric32(ToInt32(Unsigned(h)));
      case Cyrb(h1, h2) =>
        c := Cyrb53Code(Cyrb53Value(h1, h2));
    }
  }

  /** Hashing `a` then `b` through one FNV hasher equals hashing `a + b`. */
  lemma StringsConcatenate(s: State, a: seq<CodeUnit>, b: seq<CodeUnit>)
    ensures Feed(Feed(s, StringFeed(a)), StringFeed(b)) == Feed(s, StringFeed(a + b))
  {
    FeedAppend(s, StringFeed(a), StringFeed(b));
    StringFeedAppend(a, b);
  }

  lemma {:induction false} StringFeedAppend(a: seq<CodeUnit>, b: seq<CodeUnit>)
    ensures StringFeed(a) + StringFeed(b) == StringFeed(a + b)
    decreases |b|
  {
    if b == [] {
      assert a + b == a;
    } else {
      var init := b[..|b| - 1];
      StringFeedAppend(a, init);
      assert (a + b)[..|a + b| - 1] == a + init;
      assert StringFeed(a + b) == StringFeed(a + init) + [b[|b| - 1] as bv32];
    }
  }

  /** Published FNV-1a test vectors: the empty input and "a". */
  lemma FnvTestVectors()
    ensures Feed(Fnv(FNV_OFFSET_BASIS), StringFeed([])) == Fnv(0x811c9dc5)
    ensures Feed(Fnv(FNV_OFFSET_BASIS), StringFeed([0x61])) == Fnv(0xe40c292c)
  {
    assert StringFeed([0x61]) == [0x61];
    assert [0x61 as bv32][..0] == [];
  }
}
