/** A signer's side of kernel/manager/apk_sign.c: files put together by the standard layout are judged by their pairs. */
module ApkBuilder {
  import opened Bytes
  import opened ApkSignatures
  import opened ApkParser

  /** An end-of-central-directory record without a comment; the disk fields and entry counts are not looked at. */
  function Eocd(disks: seq<Byte>, size: nat, offset: nat): (r: seq<Byte>)
    requires |disks| == 8
    ensures |r| == 22
  {
    Le(EOCD_MAGIC, 4) + disks + Le(size, 4) + Le(offset, 4) + Le(0, 2)
  }

  lemma RecordParts(a: seq<Byte>, b: seq<Byte>, c: seq<Byte>, d: seq<Byte>, e: seq<Byte>)
    requires |a| == 4 && |b| == 8 && |c| == 4 && |d| == 4 && |e| == 2
    ensures var r := a + b + c + d + e; r[0..4] == a && r[12..16] == c && r[16..20] == d && r[20..22] == e
  {
  }

  lemma EocdParts(disks: seq<Byte>, size: nat, offset: nat)
    requires |disks| == 8 && size < Pow256(4) && offset < Pow256(4)
    ensures var r := Eocd(disks, size, offset);
            UnLe(r[0..4]) == EOCD_MAGIC && UnLe(r[12..16]) == size && UnLe(r[16..20]) == offset && UnLe(r[20..22]) == 0
  {
    RecordParts(Le(EOCD_MAGIC, 4), disks, Le(size, 4), Le(offset, 4), Le(0, 2));
    assert EOCD_MAGIC < Pow256(4) && 0 < Pow256(2) by { Widths(); }
    LeThenUnLe(EOCD_MAGIC, 4);
    LeThenUnLe(size, 4);
    LeThenUnLe(offset, 4);
    LeThenUnLe(0, 2);
  }

  /** A file that ends with such a record at e is judged by the directory offset in it. */
  lemma EndsWithRecord(f: seq<Byte>, e: nat, disks: seq<Byte>, size: nat, offset: nat)
    requires |f| == e + 22 && |disks| == 8 && size < Pow256(4) && offset < Pow256(4)
    requires f[e..e + 22] == Eocd(disks, size, offset)
    ensures SmallestEocd(f, 0) && LeAt(f, e + 12, 4) == size && LeAt(f, e + 16, 4) == offset
  {
    EocdParts(disks, size, offset);
    SliceOfSlice(f, e, e + 22, 0, 4);
    SliceOfSlice(f, e, e + 22, 12, 16);
    SliceOfSlice(f, e, e + 22, 16, 20);
    SliceOfSlice(f, e, e + 22, 20, 22);
  }

  /** A directory that ends where the record starts leads to the block before it. */
  lemma RecordIsJudged(f: seq<Byte>, disks: seq<Byte>, size: nat, offset: nat, key: Key)
    requires |f| == offset + size + 22 < Pow256(4) && offset >= 0x20 && |disks| == 8
    requires f[offset + size..] == Eocd(disks, size, offset) && LeAt(f, |f| - 42, 4) != ZIP64_LOCATOR_MAGIC
    ensures Accepted(f, key) <==> SignedBefore(f, offset, key)
  {
    assert f[offset + size..offset + size + 22] == f[offset + size..];
    EndsWithRecord(f, offset + size, disks, size, offset);
    FieldsAreJudged(f, size, offset, key);
  }

  lemma FieldsAreJudged(f: seq<Byte>, size: nat, offset: nat, key: Key)
    requires |f| == offset + size + 22 && offset >= 0x20 && LeAt(f, |f| - 42, 4) != ZIP64_LOCATOR_MAGIC
    requires SmallestEocd(f, 0) && LeAt(f, |f| - 10, 4) == size && LeAt(f, |f| - 6, 4) == offset
    ensures Accepted(f, key) <==> SignedBefore(f, offset, key)
  {
    AcceptedIsSigned(f, 0, key);
    assert DirectoryEndsAt(f, offset + size);
  }

  /**
   A file with the signing block of some pairs before its central directory, and the record of that directory at its
   end, is accepted if and only if the pairs are; it is never taken for something else.
   */
  lemma BuiltIsJudgedByPairs(f: seq<Byte>, ps: seq<Pair>, disks: seq<Byte>, size: nat, offset: nat, key: Key)
    requires PairsOk(ps) && |PairsBytes(ps)| + 32 <= INT_MAX && |PairsBytes(ps)| + 32 <= offset
    requires |f| == offset + size + 22 < Pow256(4) && |disks| == 8 && LeAt(f, |f| - 42, 4) != ZIP64_LOCATOR_MAGIC
    requires f[offset + size..] == Eocd(disks, size, offset)
    requires f[offset - |PairsBytes(ps)| - 32..offset] == Layout(PairsBytes(ps), BLOCK_MAGIC)
    ensures Accepted(f, key) <==> PairsAccepted(ps, key)
  {
    RecordIsJudged(f, disks, size, offset, key);
    BlockJudges(f, offset, ps, key);
  }

  lemma BlockJudges(f: seq<Byte>, cd: nat, ps: seq<Pair>, key: Key)
    requires PairsOk(ps) && |PairsBytes(ps)| + 32 <= INT_MAX && |PairsBytes(ps)| + 32 <= cd <= |f|
    requires f[cd - |PairsBytes(ps)| - 32..cd] == Layout(PairsBytes(ps), BLOCK_MAGIC)
    ensures SignedBefore(f, cd, key) <==> PairsAccepted(ps, key)
  {
    OnlyTheseArePairs(f, cd, ps, key);
  }

  lemma OnlyTheseArePairs(f: seq<Byte>, cd: nat, ps: seq<Pair>, key: Key)
    requires 0x20 <= cd <= |f| && BlockEndsAt(f, cd, ps)
    ensures SignedBefore(f, cd, key) <==> PairsAccepted(ps, key)
  {
    forall other | BlockEndsAt(f, cd, other)
      ensures other == ps
    {
      BlockIsParsed(f, cd, ps);
      BlockIsParsed(f, cd, other);
    }
  }
}
