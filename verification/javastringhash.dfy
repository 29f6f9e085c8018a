/**
 * `SJavaStringHash` (utility/hash/javastringhash.h): the Java string hash
 * h = h * 31 + byte, over the bytes of a value or up to the terminator of a
 * C string, in the 32 bits of `unsigned int`, so it wraps modulo 2^32.
 *
 * Bytes are `bv8`; the hash is `bv32`, whose `*` and `+` wrap like the source's.
 */
module JavaStringHash {

  type Byte = bv8

  /** One step of the loop bodies (javastringhash.h:21-22 and 63-64): `Hash *= 31` then
      `Hash += Byte[i]`, the byte widened to 32 bits. */
  function Step(h: bv32, b: Byte): bv32
  {
    h * 31 + b as bv32
  }

  /** The loop from a start value `h`, left to right over `bytes`: no bytes leave `h`,
      one byte is one step (`FoldSnoc` gives the step for the last byte). */
  function Fold(h: bv32, bytes: seq<Byte>): (r: bv32)
    ensures bytes == [] ==> r == h
    ensures |bytes| == 1 ==> r == Step(h, bytes[0])
    decreases |bytes|
  {
    if bytes == [] then h else Fold(Step(h, bytes[0]), bytes[1..])
  }

  /** The hash of a byte sequence: the loop from 0. The empty sequence hashes to 0, and
      a single byte hashes to its own value. */
  function Hash(bytes: seq<Byte>): (r: bv32)
    ensures bytes == [] ==> r == 0
    ensures |bytes| == 1 ==> r == bytes[0] as bv32
  {
    Fold(0, bytes)
  }

  /** Appending a byte takes one more step from the hash of what precedes it. */
  lemma {:induction false} FoldSnoc(h: bv32, bytes: seq<Byte>, b: Byte)
    ensures Fold(h, bytes + [b]) == Step(Fold(h, bytes), b)
    decreases |bytes|
  {
    if bytes == [] {
      assert Fold(h, [b]) == Fold(Step(h, b), []);
    } else {
      assert (bytes + [b])[1..] == bytes[1..] + [b];
      FoldSnoc(Step(h, bytes[0]), bytes[1..], b);
    }
  }

  /** hash(s + [b]) == hash(s) * 31 + b, wrapping at 32 bits (`Step`). */
  lemma HashSnoc(bytes: seq<Byte>, b: Byte)
    ensures Hash(bytes + [b]) == Step(Hash(bytes), b)
  {
    FoldSnoc(0, bytes, b);
  }

  /** The hash of a concatenation continues from the hash of the first part. */
  lemma {:induction false} FoldAppend(h: bv32, a: seq<Byte>, b: seq<Byte>)
    ensures Fold(h, a + b) == Fold(Fold(h, a), b)
    decreases |a|
  {
    if a == [] {
      assert a + b == b;
    } else {
      assert (a + b)[0] == a[0] && (a + b)[1..] == a[1..] + b;
      FoldAppend(Step(h, a[0]), a[1..], b);
    }
  }

  /** The hash is not injective: "Aa" and "BB" (in ASCII) hash alike. */
  lemma Collision()
    ensures Hash([0x41, 0x61]) == Hash([0x42, 0x42])
  {
    assert Hash([0x41, 0x61]) == Fold(Step(Step(0, 0x41), 0x61), []);
    assert Hash([0x42, 0x42]) == Fold(Step(Step(0, 0x42), 0x42), []);
  }

  // ---------------------------------------------------------------------------
  // The generic hasher and its pointer overload
  // ---------------------------------------------------------------------------

  /** `operator()(const T&)`: the loop over the `sizeof(T)` bytes of the value's object
      representation, which is given here as `rep`. */
  method ObjectHash(rep: seq<Byte>) returns (h: bv32)
    ensures h == Hash(rep)
  {
    h := 0;
    var i := 0;
    while i < |rep|
      invariant 0 <= i <= |rep|
      invariant h == Hash(rep[..i])
    {
      assert rep[..i + 1] == rep[..i] + [rep[i]];
      HashSnoc(rep[..i], rep[i]);
      h := Step(h, rep[i]);
      i := i + 1;
    }
    assert rep[..i] == rep;
  }

  /** `operator()(const T*)`: the hash of the pointee, whose object representation
      `deref` gives. */
  method PointeeHash<P>(deref: P -> seq<Byte>, p: P) returns (h: bv32)
    ensures h == Hash(deref(p))
  {
    h := ObjectHash(deref(p));
  }

  // ---------------------------------------------------------------------------
  // The char* specialisation
  // ---------------------------------------------------------------------------

  /** The position of the first zero byte: the length of the C string `mem` starts. */
  function StrLen(mem: seq<Byte>): (n: nat)
    requires 0 in mem
    ensures n < |mem| && mem[n] == 0 && 0 !in mem[..n]
  {
    if mem[0] == 0 then 0
    else
      assert mem == [mem[0]] + mem[1..];
      var n := StrLen(mem[1..]);
      assert mem[..n + 1] == [mem[0]] + mem[1..][..n];
      n + 1
  }

  /** `SJavaStringHash<char*>::operator()`: the loop up to, not including, the first zero
      byte of the memory the pointer designates. The terminator must be there: reading
      stops only at a zero byte. */
  method CStringHash(mem: seq<Byte>) returns (h: bv32)
    requires 0 in mem
    ensures h == Hash(mem[..StrLen(mem)])
  {
    h := 0;
    var i := 0;
    while mem[i] != 0
      invariant 0 <= i <= StrLen(mem)
      invariant h == Hash(mem[..i])
      decreases StrLen(mem) - i
    {
      assert mem[..i + 1] == mem[..i] + [mem[i]];
      HashSnoc(mem[..i], mem[i]);
      h := Step(h, mem[i]);
      i := i + 1;
    }
  }

  /** The empty C string hashes to 0. */
  lemma EmptyCStringHash(mem: seq<Byte>)
    requires |mem| > 0 && mem[0] == 0
    ensures Hash(mem[..StrLen(mem)]) == 0
  {
    assert StrLen(mem) == 0;
  }

  /** Bytes after the terminator do not affect the C string hash. */
  lemma AfterTerminatorIgnored(mem: seq<Byte>, rest: seq<Byte>)
    requires 0 in mem
    ensures 0 in mem + rest
    ensures Hash((mem + rest)[..StrLen(mem + rest)]) == Hash(mem[..StrLen(mem)])
  {
    var n := StrLen(mem);
    assert (mem + rest)[n] == 0;
    assert (mem + rest)[..n] == mem[..n];
    StrLenUnique(mem + rest, n);
  }

  /** A zero byte with no zero byte before it is the terminator `StrLen` finds. */
  lemma StrLenUnique(mem: seq<Byte>, n: nat)
    requires n < |mem| && mem[n] == 0 && 0 !in mem[..n]
    ensures StrLen(mem) == n
  {
    var m := StrLen(mem);
    forall j | 0 <= j < n
      ensures mem[j] != 0
    {
      assert mem[..n][j] == mem[j];
    }
    forall j | 0 <= j < m
      ensures mem[j] != 0
    {
      assert mem[..m][j] == mem[j];
    }
  }

  /** The C string hash of a string without zero bytes, terminated, is the hash of its
      bytes: the char* specialisation agrees with the byte fold. */
  lemma CStringIsByteHash(s: seq<Byte>)
    requires 0 !in s
    ensures 0 in s + [0]
    ensures Hash((s + [0])[..StrLen(s + [0])]) == Hash(s)
  {
    assert (s + [0])[..|s|] == s;
    StrLenUnique(s + [0], |s|);
  }

  // ---------------------------------------------------------------------------
  // Which definition a template argument selects
  // ---------------------------------------------------------------------------

  /** Template arguments, as far as the partial specialisations tell them apart. */
  datatype CType = Char | Object(size: nat) | ConstOf(base: CType) | PtrTo(pointee: CType)

  /** The two definitions of `operator()` there are: the byte fold over a value of the
      given size (and over a pointee of that size), and the C string loop. */
  datatype Hasher = BytesOf(size: nat) | CString

  /** The definition `SJavaStringHash<t>` ends up with. `char*` is the full
      specialisation; `const T*` derives from `T*`, `const T` and `T*` from `T`.
      The most specialised pattern is listed first. */
  function Select(t: CType): (r: Hasher)
    ensures t == PtrTo(Char) ==> r == CString
    ensures t == Char ==> r == BytesOf(1)
    decreases Depth(t)
  {
    match t
    case Char => BytesOf(1)
    case Object(n) => BytesOf(n)
    case ConstOf(u) => Select(u)
    case PtrTo(Char) => CString
    case PtrTo(ConstOf(u)) =>
      assert Depth(t) == 1 + Depth(ConstOf(u)) == 2 + Depth(u);
      Select(PtrTo(u))
    case PtrTo(u) => Select(u)
  }

  function Depth(t: CType): nat
  {
    match t
    case Char => 1
    case Object(_) => 1
    case ConstOf(u) => 1 + Depth(u)
    case PtrTo(u) => 1 + Depth(u)
  }

  /** The type with every outer `const` removed. */
  function StripConst(t: CType): CType
  {
    if t.ConstOf? then StripConst(t.base) else t
  }

  /** `SJavaStringHash<const T>` and `SJavaStringHash<T*>` hash like `SJavaStringHash<T>`,
      except that a pointer to (const) char selects the C string loop. */
  lemma {:induction false} SpecialisationsShareBase(t: CType)
    ensures Select(ConstOf(t)) == Select(t)
    ensures StripConst(t) != Char ==> Select(PtrTo(t)) == Select(t)
    ensures StripConst(t) == Char ==> Select(PtrTo(t)) == CString
  {
    match t
    case ConstOf(u) =>
      SpecialisationsShareBase(u);
    case _ =>
  }
}
