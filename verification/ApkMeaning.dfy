/**
 What the signature check compares, in characters and bytes: the digits of the digest, and the fields of the container
 (kernel/manager/apk_sign.c:80-130, 155-247).
 */
module ApkMeaning {
  import opened Bytes
  import opened Options
  import opened ApkSignatures

  // ----- the digest as a string -----

  /** The value of a lower-case hexadecimal digit; -1 for every other character. */
  function DigitValue(c: char): int {
    if '0' <= c <= '9' then c as int - '0' as int
    else if 'a' <= c <= 'f' then c as int - 'a' as int + 10
    else -1
  }

  /** Characters 2i and 2i + 1 are the high and the low digit of byte i. */
  predicate SpellsByte(s: string, d: seq<Byte>, i: nat)
    requires |s| == 2 * |d| && i < |d|
  {
    DigitValue(s[2 * i]) >= 0 && DigitValue(s[2 * i + 1]) >= 0 && 16 * DigitValue(s[2 * i]) + DigitValue(s[2 * i + 1]) == d[i]
  }

  predicate Spells(s: string, d: seq<Byte>) {
    |s| == 2 * |d| && forall i: nat :: i < |d| ==> SpellsByte(s, d, i)
  }

  lemma HexDigit(d: nat)
    requires d < 16
    ensures DigitValue(Hex(d)) == d
    ensures forall c :: DigitValue(c) == d ==> c == Hex(d)
  {
  }

  /** The string of a digest is the one that spells it, digit by digit. */
  lemma {:induction false} HexOfSpells(s: string, d: seq<Byte>)
    ensures Spells(s, d) <==> s == HexOf(d)
  {
    if d != [] {
      HexDigit(d[0] / 16);
      HexDigit(d[0] % 16);
      if |s| >= 2 {
        HexOfSpells(s[2..], d[1..]);
        SpellsRest(s, d);
        assert s == [s[0], s[1]] + s[2..];
        assert s == HexOf(d) ==> s[2..] == HexOf(d[1..]);
      }
    }
  }

  lemma SpellsRest(s: string, d: seq<Byte>)
    requires d != [] && |s| >= 2
    ensures Spells(s, d) <==> |s| == 2 * |d| && SpellsByte(s, d, 0) && Spells(s[2..], d[1..])
  {
    if |s| == 2 * |d| {
      forall i: nat | i < |d| - 1
        ensures SpellsByte(s[2..], d[1..], i) <==> SpellsByte(s, d, i + 1)
      {
        assert s[2..][2 * i] == s[2 * (i + 1)] && s[2..][2 * i + 1] == s[2 * (i + 1) + 1];
      }
      if Spells(s[2..], d[1..]) && SpellsByte(s, d, 0) {
        forall i: nat | i < |d|
          ensures SpellsByte(s, d, i)
        {
          if i > 0 { assert SpellsByte(s[2..], d[1..], i - 1); }
        }
      }
    }
  }

  /** A certificate matches exactly when it has the key's size, at most 1024 bytes, and a digest that the key spells. */
  lemma CertMatchesMeans(cert: seq<Byte>, key: Key)
    ensures CertMatches(cert, key) <==>
            && |cert| == key.size && |cert| <= 1024
            && key.digest(cert).Some? && Spells(key.sha256, key.digest(cert).value)
  {
    if key.digest(cert).Some? { HexOfSpells(key.sha256, key.digest(cert).value); }
  }

  // ----- the fields of the container -----

  /** The end record: "PK", 5, 6, and 22 bytes later a comment of i bytes that the record's last word counts. */
  lemma EocdMeans(f: seq<Byte>, i: nat)
    ensures EocdAt(f, i) <==>
            i <= 65535 && i + 22 <= |f| && Word2(f, |f| - i - 2) == i
            && f[|f| - i - 22] == 'P' as int && f[|f| - i - 21] == 'K' as int && f[|f| - i - 20] == 5 && f[|f| - i - 19] == 6
  {
    if i + 22 <= |f| {
      Words(f, |f| - i - 2);
      Words(f, |f| - i - 22);
    }
  }

  /** Before it no locator "PK", 6, 7; in it the directory's size at 12 and its offset at 16, which add up to its place. */
  lemma DirectoryMeans(f: seq<Byte>, e: nat)
    requires e + 22 <= |f|
    ensures DirectoryEndsAt(f, e) <==>
            && !(e >= 20 && f[e - 20] == 'P' as int && f[e - 19] == 'K' as int && f[e - 18] == 6 && f[e - 17] == 7)
            && Word4(f, e + 12) + Word4(f, e + 16) == e && Word4(f, e + 16) >= 32
  {
    if e >= 20 { FourBytes(f, e - 20); }
    FourBytes(f, e + 12);
    FourBytes(f, e + 16);
  }

  lemma FourBytes(f: seq<Byte>, at: nat)
    requires at + 4 <= |f|
    ensures LeAt(f, at, 4) == Word4(f, at)
    ensures LeAt(f, at, 4) == ZIP64_LOCATOR_MAGIC <==>
            f[at] == 'P' as int && f[at + 1] == 'K' as int && f[at + 2] == 6 && f[at + 3] == 7
  {
    Words(f, at);
  }

  lemma MagicMeans(i: nat)
    requires i < 16
    ensures |BLOCK_MAGIC| == 16 && BLOCK_MAGIC[i] == "APK Sig Block 42"[i] as int
  {
  }

  /** A signing block: its size without the first word, the pairs, the size again, and the magic string. */
  lemma LayoutMeans(body: seq<Byte>, magic: seq<Byte>)
    requires |body| + 24 < Pow256(8) && |magic| == 16
    ensures var b, n := Layout(body, magic), |body|;
            && |b| == n + 32 && Word8(b, 0) == n + 24 && b[8..n + 8] == body && Word8(b, n + 8) == n + 24 && b[n + 16..] == magic
  {
    var n := |body|;
    FourSlices(Le(n + 24, 8), body, Le(n + 24, 8), magic);
    Written(Layout(body, magic), 0, n + 24, 8);
    Written(Layout(body, magic), n + 8, n + 24, 8);
  }

  lemma FourSlices(p: seq<Byte>, q: seq<Byte>, r: seq<Byte>, s: seq<Byte>)
    requires |p| == 8 && |r| == 8
    ensures var b, n := p + q + r + s, |q|;
            b[0..8] == p && b[8..n + 8] == q && b[n + 8..n + 16] == r && b[n + 16..] == s
  {
  }

  /** A block from `at` to the directory: two words of size, the pairs between them, and the magic; at most 2147483647 bytes. */
  lemma BlockMeans(f: seq<Byte>, at: nat, cd: nat, ps: seq<Pair>, n: nat)
    requires n == |PairsBytes(ps)| && at + n + 32 == cd <= |f|
    ensures BlockEndsAt(f, cd, ps) <==>
            && PairsOk(ps) && n + 32 <= 2147483647
            && Word8(f, at) == n + 24 && f[at + 8..at + n + 8] == PairsBytes(ps)
            && Word8(f, at + n + 8) == n + 24 && f[at + n + 16..cd] == BLOCK_MAGIC
  {
    assert cd - |PairsBytes(ps)| - 32 == at;
    if n + 32 <= 2147483647 { WordsAt(f, at, cd, PairsBytes(ps), n); }
  }

  lemma WordsAt(f: seq<Byte>, at: nat, cd: nat, body: seq<Byte>, n: nat)
    requires n == |body| && at + n + 32 == cd <= |f| && n + 24 < 0x1_0000_0000
    ensures f[at..cd] == Layout(body, BLOCK_MAGIC) <==>
            && Word8(f, at) == n + 24 && f[at + 8..at + n + 8] == body
            && Word8(f, at + n + 8) == n + 24 && f[at + n + 16..cd] == BLOCK_MAGIC
  {
    PartsAt(f, at, cd, body, n);
    EightBytes(f, at, n + 24);
    EightBytes(f, at + n + 8, n + 24);
  }

  lemma PartsAt(f: seq<Byte>, at: nat, cd: nat, body: seq<Byte>, n: nat)
    requires n == |body| && at + n + 32 == cd <= |f|
    ensures f[at..cd] == Layout(body, BLOCK_MAGIC) <==>
            && f[at..at + 8] == Le(n + 24, 8) && f[at + 8..at + n + 8] == body
            && f[at + n + 8..at + n + 8 + 8] == Le(n + 24, 8) && f[at + n + 16..cd] == BLOCK_MAGIC
  {
    LayoutParts(f, cd, body, BLOCK_MAGIC);
  }

  lemma EightBytes(f: seq<Byte>, at: nat, v: nat)
    requires at + 8 <= |f| && v < 0x1_0000_0000
    ensures f[at..at + 8] == Le(v, 8) <==> Word8(f, at) == v
  {
    Widths();
    Words(f, at);
    UnLeThenLe(f[at..at + 8]);
    LeThenUnLe(v, 8);
  }

  /** A container at the front of some bytes can be read when its size fits into them and into 31 bits. */
  lemma ContainerMeans(s: seq<Byte>)
    ensures Unprefixed(s).Some? <==> |s| >= 4 && Word4(s, 0) <= 2147483647 && Word4(s, 0) + 4 <= |s|
    ensures Unprefixed(s).Some? ==> Unprefixed(s).value == (s[4..4 + Word4(s, 0)], s[4 + Word4(s, 0)..])
  {
    if |s| >= 4 {
      Words(s, 0);
      assert s[0..4] == s[..4];
    }
  }

  /** A pair: the size of id and value, the id, and the value. A container: its size, and its contents. */
  lemma PairMeans(p: Pair)
    requires PairOk(p)
    ensures var b := PairBytes(p);
            |b| == 12 + |p.value| && Word8(b, 0) == 4 + |p.value| && Word4(b, 8) == p.id && b[12..] == p.value
    ensures |p.value| <= 2147483643 && p.id < 0x1_0000_0000
    ensures var b := Prefixed(p.value); |b| == 4 + |p.value| && Word4(b, 0) == |p.value| && b[4..] == p.value
  {
    Widths();
    var b, c := PairBytes(p), Prefixed(p.value);
    assert b[0..8] == Le(4 + |p.value|, 8) && b[8..12] == Le(p.id, 4) && c[0..4] == Le(|p.value|, 4);
    Written(b, 0, 4 + |p.value|, 8);
    Written(b, 8, p.id, 4);
    Written(c, 0, |p.value|, 4);
  }

  /** Some pair holds a matching v2 signature, no other pair is of that scheme, and none is of a later one. */
  lemma PairsMean(ps: seq<Pair>, key: Key)
    ensures PairsAccepted(ps, key) <==>
            && (exists k :: 0 <= k < |ps| && ps[k].id == 0x7109871a && ValueMatches(ps[k].value, key)
                            && forall j :: 0 <= j < |ps| && j != k ==> ps[j].id != 0x7109871a)
            && (forall k :: 0 <= k < |ps| ==> ps[k].id != 0xf05368c0 && ps[k].id != 0x1b93ad61)
  {
    forall k | 0 <= k < |ps|
      ensures OnlyV2(ps, k) <==> ps[k].id == 0x7109871a && forall j :: 0 <= j < |ps| && j != k ==> ps[j].id != 0x7109871a
    {
    }
  }
}
