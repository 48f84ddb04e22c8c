/** The parser over a file: positions move step by step, and every read names the container it must stay in. */
module ApkParser {
  import opened Bytes
  import opened Options
  import opened ApkSignatures

  /** `read_exact`: fails without a read unless all of it lies between 0 and `end`. */
  method ReadExact(f: seq<Byte>, pos: int, size: nat, end: int) returns (ok: bool, data: seq<Byte>, next: int)
    requires end <= |f|
    ensures ok <==> 0 <= pos && pos + size <= end
    ensures ok ==> data == f[pos..pos + size] && next == pos + size
    ensures !ok ==> next == pos
  {
    if pos < 0 || pos > end || size > end - pos {
      return false, [], pos;
    }
    return true, f[pos..pos + size], pos + size;
  }

  /** `read_length_prefixed_end`: the contents stay inside the container. */
  method ReadLengthPrefixedEnd(f: seq<Byte>, pos: nat, container_end: nat) returns (ok: bool, next: nat, value_end: nat)
    requires pos <= container_end <= |f|
    ensures ok == Unprefixed(f[pos..container_end]).Some?
    ensures ok ==> next == pos + 4 && next <= value_end <= container_end
    ensures ok ==> Unprefixed(f[pos..container_end]).value == (f[next..value_end], f[value_end..container_end])
  {
    value_end := pos;
    var data, n;
    ok, data, n := ReadExact(f, pos, 4, container_end);
    next := n;
    if !ok {
      return;
    }
    SliceOfSlice(f, pos, container_end, 0, 4);
    var length := UnLe(data);
    if length > INT_MAX || length > container_end - next {
      return false, next, value_end;
    }
    value_end := next + length;
    SliceOfSlice(f, pos, container_end, 4, 4 + length);
    SliceOfSlice(f, pos, container_end, 4 + length, container_end - pos);
  }

  /** `check_block`: its answer depends on the bytes between pos and block_end only. */
  method CheckBlock(f: seq<Byte>, pos: nat, block_end: nat, key: Key) returns (ok: bool)
    requires pos <= block_end <= |f|
    ensures ok == FirstCertMatches(f[pos..block_end], key)
  {
    var p, signers_end, signer_end, signed_data_end, digests_end, certificates_end;
    ok, p, signers_end := ReadLengthPrefixedEnd(f, pos, block_end);
    if !ok { return; }
    ok, p, signer_end := ReadLengthPrefixedEnd(f, p, signers_end);
    if !ok { return; }
    ok, p, signed_data_end := ReadLengthPrefixedEnd(f, p, signer_end);
    if !ok { return; }
    ok, p, digests_end := ReadLengthPrefixedEnd(f, p, signed_data_end);
    if !ok { return; }
    p := digests_end;
    ok, p, certificates_end := ReadLengthPrefixedEnd(f, p, signed_data_end);
    if !ok { return; }
    ok := CheckCertificate(f, p, certificates_end, key);
  }

  /** The last step of `check_block`: the first certificate, its size and its hash. */
  method CheckCertificate(f: seq<Byte>, pos: nat, certificates_end: nat, key: Key) returns (ok: bool)
    requires pos <= certificates_end <= |f|
    ensures ok == (Inner(f[pos..certificates_end]).Some? && CertMatches(Inner(f[pos..certificates_end]).value, key))
  {
    var data, p, q;
    ok, data, p := ReadExact(f, pos, 4, certificates_end);
    if !ok { return; }
    SliceOfSlice(f, pos, certificates_end, 0, 4);
    var certificate_size := UnLe(data);
    if certificate_size > INT_MAX || certificate_size > certificates_end - p {
      return false;
    }
    SliceOfSlice(f, pos, certificates_end, 4, 4 + certificate_size);
    if certificate_size != key.size || certificate_size > CERT_MAX_LENGTH {
      return false;
    }
    var cert;
    ok, cert, q := ReadExact(f, p, certificate_size, certificates_end);
    if !ok { return; }
    var digest := key.digest(cert);
    if digest.None? {
      return false;
    }
    ok := HexOf(digest.value) == key.sha256;
  }

  /** The search for the end-of-central-directory record, from the shortest comment up. */
  method FindEocd(f: seq<Byte>) returns (found: bool, i: nat)
    ensures found ==> SmallestEocd(f, i)
    ensures !found ==> forall j: nat :: !EocdAt(f, j)
  {
    i := 0;
    while true
      invariant i <= 0xffff && forall j: nat :: j < i ==> !EocdAt(f, j)
      decreases 0xffff - i
    {
      var ok, data, pos := ReadExact(f, |f| - i - 2, 2, |f|);
      if !ok {
        return false, i;
      }
      if UnLe(data) == i {
        ok, data, pos := ReadExact(f, pos - 22, 4, |f|);
        if !ok {
          return false, i;
        }
        if UnLe(data) == EOCD_MAGIC {
          return true, i;
        }
      }
      if i == 0xffff {
        return false, i;
      }
      i := i + 1;
    }
  }

  /** The pair loop; `invalid` when a pair does not fit. */
  method ScanPairs(f: seq<Byte>, start: nat, pairs_end: nat, key: Key) returns (valid: bool)
    requires start <= pairs_end <= |f|
    ensures valid == (ParsePairs(f[start..pairs_end]).Some? && ScanAccepts(ScanOf(ParsePairs(f[start..pairs_end]).value, key)))
  {
    var pos := start;
    var s := Scan(0, false, false, false);
    ghost var done: seq<Pair> := [];
    ParsedNone(f[start..pairs_end]);
    while pos < pairs_end
      invariant start <= pos <= pairs_end && s == ScanOf(done, key)
      invariant Parsed(f[start..pairs_end], done, f[pos..pairs_end])
      decreases pairs_end - pos
    {
      ghost var rest := f[pos..pairs_end];
      var ok, pair_end, p, next := ReadPair(f, pos, pairs_end, key, s);
      if !ok {
        ParseFails(f[start..pairs_end], done, rest);
        return false;
      }
      ghost var was := done;
      done := done + [p];
      assert done[..|done| - 1] == was;
      s, pos := next, pair_end;
      ParsedMore(f[start..pairs_end], was, rest, p, f[pos..pairs_end]);
    }
    ParsedAll(f[start..pairs_end], done);
    valid := ScanAccepts(s);
  }

  /** One turn of the pair loop. */
  method ReadPair(f: seq<Byte>, start: nat, pairs_end: nat, key: Key, s: Scan)
    returns (ok: bool, pair_end: nat, ghost p: Pair, next: Scan)
    requires start < pairs_end <= |f|
    ensures ok == ParsePair(f[start..pairs_end]).Some?
    ensures ok ==> start + 12 <= pair_end <= pairs_end
    ensures ok ==> ParsePair(f[start..pairs_end]).value == (p, f[pair_end..pairs_end]) && next == ScanNext(s, p, key)
  {
    pair_end, p, next := start, Pair(0, []), s;
    var data, pos;
    ok, data, pos := ReadExact(f, start, 8, pairs_end);
    if !ok { return; }
    SliceOfSlice(f, start, pairs_end, 0, 8);
    var size_of_pair := UnLe(data);
    if size_of_pair < 4 || size_of_pair > INT_MAX || size_of_pair > pairs_end - pos {
      return false, start, p, s;
    }
    pair_end := pos + size_of_pair;
    SliceOfSlice(f, start, pairs_end, 8, 12);
    SliceOfSlice(f, start, pairs_end, 12, 8 + size_of_pair);
    SliceOfSlice(f, start, pairs_end, 8 + size_of_pair, pairs_end - start);
    ok, data, pos := ReadExact(f, pos, 4, pair_end);
    var id := UnLe(data);
    p := Pair(id, f[pos..pair_end]);
    if id == V2_ID {
      var valid := CheckBlock(f, pos, pair_end, key);
      next := s.(v2Blocks := s.v2Blocks + 1, v2Valid := valid);
    } else if id == V3_ID {
      next := s.(v3 := true);
    } else if id == V31_ID {
      next := s.(v31 := true);
    }
  }

  /** Some pairs were parsed off the front of the whole, and `rest` is left. */
  ghost predicate Parsed(whole: seq<Byte>, done: seq<Pair>, rest: seq<Byte>) {
    ParsePairs(whole) == Before(done, ParsePairs(rest))
  }

  ghost function Before(done: seq<Pair>, r: Option<seq<Pair>>): Option<seq<Pair>> {
    if r.None? then None else Some(done + r.value)
  }

  lemma ParsedNone(whole: seq<Byte>)
    ensures Parsed(whole, [], whole)
  {
    if ParsePairs(whole).Some? { assert [] + ParsePairs(whole).value == ParsePairs(whole).value; }
  }

  lemma ParsedMore(whole: seq<Byte>, done: seq<Pair>, rest: seq<Byte>, p: Pair, more: seq<Byte>)
    requires Parsed(whole, done, rest) && rest != [] && ParsePair(rest) == Some((p, more))
    ensures Parsed(whole, done + [p], more)
  {
    if ParsePairs(more).Some? {
      assert done + ([p] + ParsePairs(more).value) == done + [p] + ParsePairs(more).value;
    }
  }

  lemma ParseFails(whole: seq<Byte>, done: seq<Pair>, rest: seq<Byte>)
    requires Parsed(whole, done, rest) && rest != [] && ParsePair(rest).None?
    ensures ParsePairs(whole).None?
  {
  }

  lemma ParsedAll(whole: seq<Byte>, done: seq<Pair>)
    requires Parsed(whole, done, [])
    ensures ParsePairs(whole) == Some(done)
  {
    assert done + [] == done;
  }

  /** `check_v2_signature` of an opened file. */
  method CheckV2Signature(f: seq<Byte>, key: Key) returns (valid: bool)
    ensures valid <==> Accepted(f, key)
  {
    var found, i := FindEocd(f);
    if !found {
      NoRecord(f, key);
      return false;
    }
    var ok, cd_offset := FindDirectory(f, |f| - i - 22);
    AcceptedIsSigned(f, i, key);
    if !ok {
      return false;
    }
    valid := CheckSigningBlock(f, cd_offset, key);
    SignedIsParsed(f, cd_offset, key);
  }

  /** ZIP64 is rejected first; then the central directory must end where its record starts. */
  method FindDirectory(f: seq<Byte>, eocd_offset: nat) returns (ok: bool, cd_offset: nat)
    requires eocd_offset + 22 <= |f|
    ensures ok == DirectoryEndsAt(f, eocd_offset)
    ensures ok ==> cd_offset == LeAt(f, eocd_offset + 16, 4) && 0x20 <= cd_offset <= eocd_offset
  {
    var data, pos;
    cd_offset := 0;
    if eocd_offset >= 20 {
      ok, data, pos := ReadExact(f, eocd_offset - 20, 4, |f|);
      if UnLe(data) == ZIP64_LOCATOR_MAGIC {
        return false, cd_offset;
      }
    }
    ok, data, pos := ReadExact(f, eocd_offset + 12, 4, |f|);
    var cd_size := UnLe(data);
    ok, data, pos := ReadExact(f, pos, 4, |f|);
    cd_offset := UnLe(data);
    ok := !(cd_offset > eocd_offset || cd_size != eocd_offset - cd_offset || cd_offset < 0x20);
  }

  lemma NoRecord(f: seq<Byte>, key: Key)
    requires forall j: nat :: !EocdAt(f, j)
    ensures !Accepted(f, key)
  {
  }

  lemma SmallestIsOne(f: seq<Byte>, i: nat, j: nat)
    requires SmallestEocd(f, i) && SmallestEocd(f, j)
    ensures i == j
  {
  }

  /** There is at most one record to go by. */
  lemma AcceptedIsSigned(f: seq<Byte>, i: nat, key: Key)
    requires SmallestEocd(f, i)
    ensures Accepted(f, key) <==> DirectoryEndsAt(f, |f| - i - 22) && SignedBefore(f, LeAt(f, |f| - i - 6, 4), key)
  {
    if Accepted(f, key) {
      var j: nat :| SmallestEocd(f, j) && DirectoryEndsAt(f, |f| - j - 22) && SignedBefore(f, LeAt(f, |f| - j - 6, 4), key);
      SmallestIsOne(f, i, j);
    }
  }

  /** From the block's tail to its pairs. */
  method CheckSigningBlock(f: seq<Byte>, cd_offset: nat, key: Key) returns (valid: bool)
    requires 0x20 <= cd_offset <= |f|
    ensures valid <==> SignedByTail(f, cd_offset, key)
  {
    var pairs_end := cd_offset - 0x18;
    var ok, data, pos := ReadExact(f, pairs_end, 8, cd_offset);
    var size_of_block := UnLe(data);
    var buffer;
    ok, buffer, pos := ReadExact(f, pos, 16, cd_offset);
    assert size_of_block == LeAt(f, cd_offset - 24, 8) && buffer == f[cd_offset - 16..cd_offset];
    if buffer != BLOCK_MAGIC || size_of_block < 0x18 || size_of_block > INT_MAX - 8 || size_of_block > cd_offset - 8 {
      return false;
    }
    ok, data, pos := ReadExact(f, cd_offset - size_of_block - 8, 8, pairs_end);
    if UnLe(data) != size_of_block {
      return false;
    }
    valid := ScanPairs(f, pos, pairs_end, key);
  }

  /** The block found from its tail holds pairs that the counters accept. */
  predicate SignedByTail(f: seq<Byte>, cd: nat, key: Key)
    requires 0x20 <= cd <= |f|
  {
    BlockPairs(f, cd).Some? && ScanAccepts(ScanOf(BlockPairs(f, cd).value, key))
  }

  lemma SignedIsParsed(f: seq<Byte>, cd: nat, key: Key)
    requires 0x20 <= cd <= |f|
    ensures SignedBefore(f, cd, key) <==> SignedByTail(f, cd, key)
  {
    if SignedBefore(f, cd, key) {
      var ps :| BlockEndsAt(f, cd, ps) && PairsAccepted(ps, key);
      BlockIsParsed(f, cd, ps);
      ScanIsAcceptance(ps, key);
    }
    if BlockPairs(f, cd).Some? {
      BlockIsParsed(f, cd, BlockPairs(f, cd).value);
      ScanIsAcceptance(BlockPairs(f, cd).value, key);
    }
  }
}
