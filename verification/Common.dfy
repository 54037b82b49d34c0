/** Datatypes and byte-string facts shared by every model in the project. */
module Common {

  datatype Option<+T> = None | Some(value: T)

  datatype Result<+T, +E> = Ok(value: T) | Err(error: E)

  type Byte = x: int | 0 <= x < 256

  type Bytes = seq<Byte>

  /** The bytes of a sequence of pieces, in order. */
  function Join(pieces: seq<Bytes>): Bytes {
    if pieces == [] then [] else pieces[0] + Join(pieces[1..])
  }

  lemma JoinAppend(a: seq<Bytes>, b: seq<Bytes>)
    ensures Join(a + b) == Join(a) + Join(b)
  {
    if a == [] {
      assert a + b == b;
    } else {
      assert (a + b)[1..] == a[1..] + b;
      JoinAppend(a[1..], b);
    }
  }

  lemma JoinSnoc(a: seq<Bytes>, x: Bytes)
    ensures Join(a + [x]) == Join(a) + x
  {
    JoinAppend(a, [x]);
    assert Join([x]) == x + Join([]);
  }

  // Big-endian integers of a fixed size (struct.pack and int.to_bytes).

  function Pow256(k: nat): (p: nat)
    ensures p > 0
  {
    if k == 0 then 1 else 256 * Pow256(k - 1)
  }

  function FromBE(b: Bytes): nat {
    if b == [] then 0 else FromBE(b[..|b| - 1]) * 256 + b[|b| - 1]
  }

  function ToBE(n: nat, size: nat): (b: Bytes)
    requires n < Pow256(size)
    ensures |b| == size
  {
    if size == 0 then [] else ToBE(n / 256, size - 1) + [n % 256]
  }

  lemma {:induction false} FromBEBound(b: Bytes)
    ensures FromBE(b) < Pow256(|b|)
  {
    if b != [] {
      FromBEBound(b[..|b| - 1]);
    }
  }

  lemma {:induction false} ToBEThenFromBE(n: nat, size: nat)
    requires n < Pow256(size)
    ensures FromBE(ToBE(n, size)) == n
  {
    if size != 0 {
      ToBEThenFromBE(n / 256, size - 1);
      assert ToBE(n, size)[..size - 1] == ToBE(n / 256, size - 1);
    }
  }

  lemma {:induction false} FromBEThenToBE(b: Bytes)
    ensures FromBE(b) < Pow256(|b|)
    ensures ToBE(FromBE(b), |b|) == b
  {
    FromBEBound(b);
    if b != [] {
      FromBEThenToBE(b[..|b| - 1]);
      assert b == b[..|b| - 1] + [b[|b| - 1]];
    }
  }

  lemma ToBEInjective(m: nat, n: nat, size: nat)
    requires m < Pow256(size) && n < Pow256(size)
    requires ToBE(m, size) == ToBE(n, size)
    ensures m == n
  {
    ToBEThenFromBE(m, size);
    ToBEThenFromBE(n, size);
  }

  const U16_LIMIT: nat := 0x1_0000
  const U32_LIMIT: nat := 0x1_0000_0000

  lemma Widths()
    ensures Pow256(2) == U16_LIMIT
    ensures Pow256(4) == U32_LIMIT
  {
    assert Pow256(1) == 256 * Pow256(0);
    assert Pow256(3) == 256 * Pow256(2);
  }

  function U32(n: nat): (b: Bytes)
    requires n < U32_LIMIT
    ensures |b| == 4
  {
    Widths();
    ToBE(n, 4)
  }

  function U16(n: nat): (b: Bytes)
    requires n < U16_LIMIT
    ensures |b| == 2
  {
    Widths();
    ToBE(n, 2)
  }

  lemma U32ThenFromBE(n: nat)
    requires n < U32_LIMIT
    ensures FromBE(U32(n)) == n
  {
    Widths();
    ToBEThenFromBE(n, 4);
  }

  lemma FromBEThenU32(b: Bytes)
    requires |b| == 4
    ensures FromBE(b) < U32_LIMIT && U32(FromBE(b)) == b
  {
    Widths();
    FromBEThenToBE(b);
  }

  /** Two byte strings with the same head length agree part by part. */
  lemma SplitEqual(a: Bytes, b: Bytes, x: Bytes, y: Bytes)
    requires |a| == |x| && a + b == x + y
    ensures a == x && b == y
  {
    assert (a + b)[..|a|] == a && (a + b)[|a|..] == b;
    assert (x + y)[..|x|] == x && (x + y)[|x|..] == y;
  }

  /** A u32 length prefix makes concatenation unambiguous. */
  lemma LengthPrefixInjective(a: Bytes, b: Bytes, x: Bytes, y: Bytes)
    requires |a| < U32_LIMIT && |x| < U32_LIMIT
    requires U32(|a|) + a + b == U32(|x|) + x + y
    ensures a == x && b == y
  {
    assert U32(|a|) + a + b == U32(|a|) + (a + b);
    assert U32(|x|) + x + y == U32(|x|) + (x + y);
    SplitEqual(U32(|a|), a + b, U32(|x|), x + y);
    Widths();
    ToBEInjective(|a|, |x|, 4);
    SplitEqual(a, b, x, y);
  }

  predicate IsAscii(s: string) {
    forall i :: 0 <= i < |s| ==> s[i] < 128 as char
  }

  function AsciiBytes(s: string): (b: Bytes)
    requires IsAscii(s)
    ensures |b| == |s|
  {
    seq(|s|, i requires 0 <= i < |s| => s[i] as int)
  }

  lemma AsciiInjective(a: string, b: string)
    requires IsAscii(a) && IsAscii(b) && AsciiBytes(a) == AsciiBytes(b)
    ensures a == b
  {
    forall i | 0 <= i < |a|
      ensures a[i] == b[i]
    {
      assert AsciiBytes(a)[i] == AsciiBytes(b)[i];
    }
  }

  /** Where the first plus sign of a suite name is, or its length if it has none. */
  function PlusAt(name: string): (n: nat)
    ensures n <= |name| && '+' !in name[..n] && (n < |name| ==> name[n] == '+')
  {
    if name == "" || name[0] == '+' then 0
    else
      var n := 1 + PlusAt(name[1..]);
      assert name[..n] == [name[0]] + name[1..][..n - 1];
      n
  }

  lemma PlusSplits(before: string, after: string)
    requires '+' !in before
    ensures var name := before + "+" + after;
            PlusAt(name) == |before| && name[..|before|] == before && name[|before| + 1..] == after
  {
    var name, n := before + "+" + after, |before|;
    assert name[n] == '+' && name[..n] == before;
    assert forall i :: 0 <= i < n ==> name[i] == before[i];
    assert forall i :: 0 <= i < PlusAt(name) ==> name[..PlusAt(name)][i] == name[i];
  }
}
