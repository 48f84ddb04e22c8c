/** Little-endian integers over byte strings, shared by every wire and file format here. */
module Bytes {
  type Byte = x: int | 0 <= x < 256

  /** The w low bytes of n, least significant first. */
  function Le(n: nat, w: nat): (r: seq<Byte>)
    ensures |r| == w
  {
    if w == 0 then [] else [n % 256] + Le(n / 256, w - 1)
  }

  function UnLe(s: seq<Byte>): nat {
    if s == [] then 0 else s[0] + 256 * UnLe(s[1..])
  }

  function Pow256(w: nat): (r: nat)
    ensures r > 0
  {
    if w == 0 then 1 else 256 * Pow256(w - 1)
  }

  lemma {:induction false} LeThenUnLe(n: nat, w: nat)
    requires n < Pow256(w)
    ensures UnLe(Le(n, w)) == n
    decreases w
  {
    if w > 0 {
      LeThenUnLe(n / 256, w - 1);
      assert Le(n, w)[1..] == Le(n / 256, w - 1);
    }
  }

  lemma {:induction false} UnLeThenLe(s: seq<Byte>)
    ensures UnLe(s) < Pow256(|s|) && Le(UnLe(s), |s|) == s
  {
    if s != [] {
      UnLeThenLe(s[1..]);
      assert UnLe(s) / 256 == UnLe(s[1..]) && UnLe(s) % 256 == s[0];
    }
  }

  lemma Widths()
    ensures Pow256(2) == 0x1_0000 && Pow256(4) == 0x1_0000_0000 && Pow256(8) == 0x1_0000_0000_0000_0000
  {
    assert Pow256(1) == 256 && Pow256(3) == 0x100_0000;
    assert Pow256(5) == 0x100_0000_0000 && Pow256(6) == 0x1_0000_0000_0000 && Pow256(7) == 0x100_0000_0000_0000;
  }

  // ----- the same words, spelled out -----

  /** Two bytes from here on, least significant first. */
  function Word2(b: seq<Byte>, i: nat): int
    requires i + 2 <= |b|
  {
    var x: int, y: int := b[i], b[i + 1];
    x + 0x100 * y
  }

  function Word4(b: seq<Byte>, i: nat): int
    requires i + 4 <= |b|
  {
    Word2(b, i) + 0x1_0000 * Word2(b, i + 2)
  }

  function Word8(b: seq<Byte>, i: nat): int
    requires i + 8 <= |b|
  {
    Word4(b, i) + 0x1_0000_0000 * Word4(b, i + 4)
  }

  lemma Words(s: seq<Byte>, i: nat)
    ensures i + 2 <= |s| ==> UnLe(s[i..i + 2]) == Word2(s, i)
    ensures i + 4 <= |s| ==> UnLe(s[i..i + 4]) == Word4(s, i)
    ensures i + 8 <= |s| ==> UnLe(s[i..i + 8]) == Word8(s, i)
  {
    if i + 2 <= |s| { TwoMore(s, i, i + 2); }
    if i + 4 <= |s| {
      TwoMore(s, i + 2, i + 4);
      TwoMore(s, i, i + 4);
    }
    if i + 8 <= |s| {
      TwoMore(s, i + 6, i + 8);
      TwoMore(s, i + 4, i + 8);
      TwoMore(s, i + 2, i + 8);
      TwoMore(s, i, i + 8);
    }
  }

  /** A value written at i reads back as the word there. */
  lemma Written(b: seq<Byte>, i: nat, n: nat, w: nat)
    requires i + w <= |b| && b[i..i + w] == Le(n, w) && n < Pow256(w)
    ensures w == 2 ==> Word2(b, i) == n
    ensures w == 4 ==> Word4(b, i) == n
    ensures w == 8 ==> Word8(b, i) == n
  {
    LeThenUnLe(n, w);
    Words(b, i);
  }

  lemma TwoMore(s: seq<Byte>, i: nat, j: nat)
    requires i + 2 <= j <= |s|
    ensures UnLe(s[i..j]) == Word2(s, i) + 0x1_0000 * UnLe(s[i + 2..j])
  {
    assert s[i..j][1..] == s[i + 1..j] && s[i + 1..j][1..] == s[i + 2..j];
  }
}
