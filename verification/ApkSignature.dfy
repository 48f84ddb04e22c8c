/**
 The APK signing block parser (kernel/manager/apk_sign.c:64-276). A declarative layout says which files are
 accepted; the parser, with its offset arithmetic, is proved to accept exactly those.
 */
module ApkSignatures {
  import opened Bytes
  import opened Options

  const INT_MAX: nat := 0x7FFF_FFFF
  const EOCD_MAGIC: nat := 0x0605_4b50
  const ZIP64_LOCATOR_MAGIC: nat := 0x0706_4b50
  const V2_ID: nat := 0x7109_871a
  const V3_ID: nat := 0xf053_68c0
  const V31_ID: nat := 0x1b93_ad61
  const CERT_MAX_LENGTH: nat := 1024

  /** "APK Sig Block 42" */
  const BLOCK_MAGIC: seq<Byte> :=
    [0x41, 0x50, 0x4b, 0x20, 0x53, 0x69, 0x67, 0x20, 0x42, 0x6c, 0x6f, 0x63, 0x6b, 0x20, 0x34, 0x32]

  /** What the certificate must be: its size, and its digest in hex. `sha256` may fail. */
  datatype Key = Key(size: nat, sha256: string, digest: seq<Byte> -> Option<seq<Byte>>)

  // ----- the layout -----

  function LeAt(f: seq<Byte>, at: nat, w: nat): nat
    requires at + w <= |f|
  {
    UnLe(f[at..at + w])
  }

  /** An end-of-central-directory record whose comment of i bytes runs to the end of the file. */
  predicate EocdAt(f: seq<Byte>, i: nat) {
    i <= 0xffff && i + 22 <= |f| && LeAt(f, |f| - i - 2, 2) == i && LeAt(f, |f| - i - 22, 4) == EOCD_MAGIC
  }

  predicate SmallestEocd(f: seq<Byte>, i: nat) {
    EocdAt(f, i) && forall j: nat :: j < i ==> !EocdAt(f, j)
  }

  /** An id-value pair of the signing block. */
  datatype Pair = Pair(id: nat, value: seq<Byte>)

  predicate PairOk(p: Pair) {
    p.id < Pow256(4) && 4 + |p.value| <= INT_MAX
  }

  predicate PairsOk(ps: seq<Pair>) {
    ps != [] ==> PairOk(ps[0]) && PairsOk(ps[1..])
  }

  function PairBytes(p: Pair): seq<Byte> {
    Le(4 + |p.value|, 8) + Le(p.id, 4) + p.value
  }

  function PairsBytes(ps: seq<Pair>): seq<Byte> {
    if ps == [] then [] else PairBytes(ps[0]) + PairsBytes(ps[1..])
  }

  function Prefixed(s: seq<Byte>): seq<Byte> {
    Le(|s|, 4) + s
  }

  /** A signature scheme v2 value with this certificate first: five nested containers, each with what follows it. */
  ghost predicate HoldsCert(value: seq<Byte>, cert: seq<Byte>) {
    exists signers, signer, signedData, digests, certs, after: seq<seq<Byte>> ::
      Nested(value, signers, signer, signedData, digests, certs, cert, after)
  }

  predicate Nested(value: seq<Byte>, signers: seq<Byte>, signer: seq<Byte>, signedData: seq<Byte>, digests: seq<Byte>,
                   certs: seq<Byte>, cert: seq<Byte>, after: seq<seq<Byte>>)
  {
    && |after| == 5
    && |signers| <= INT_MAX && value == Prefixed(signers) + after[0]
    && |signer| <= INT_MAX && signers == Prefixed(signer) + after[1]
    && |signedData| <= INT_MAX && signer == Prefixed(signedData) + after[2]
    && |digests| <= INT_MAX && |certs| <= INT_MAX && signedData == Prefixed(digests) + (Prefixed(certs) + after[3])
    && |cert| <= INT_MAX && certs == Prefixed(cert) + after[4]
  }

  function Hex(d: nat): char
    requires d < 16
  {
    "0123456789abcdef"[d]
  }

  /** `bin2hex` */
  function HexOf(s: seq<Byte>): string {
    if s == [] then "" else [Hex(s[0] / 16), Hex(s[0] % 16)] + HexOf(s[1..])
  }

  predicate CertMatches(cert: seq<Byte>, key: Key) {
    && |cert| == key.size && |cert| <= CERT_MAX_LENGTH
    && key.digest(cert).Some? && key.sha256 == HexOf(key.digest(cert).value)
  }

  /** A v2 value whose first certificate is the expected one. */
  ghost predicate ValueMatches(value: seq<Byte>, key: Key) {
    exists cert :: HoldsCert(value, cert) && CertMatches(cert, key)
  }

  /** Exactly one v2 pair, with the expected certificate, and no v3 or v3.1 pair. */
  ghost predicate PairsAccepted(ps: seq<Pair>, key: Key) {
    && (exists k :: 0 <= k < |ps| && OnlyV2(ps, k) && ValueMatches(ps[k].value, key))
    && (forall k :: 0 <= k < |ps| ==> ps[k].id != V3_ID && ps[k].id != V31_ID)
  }

  ghost predicate OnlyV2(ps: seq<Pair>, k: nat)
    requires k < |ps|
  {
    forall j :: 0 <= j < |ps| ==> (ps[j].id == V2_ID <==> j == k)
  }

  /** The size, the body, the size again, and the magic number. */
  function Layout(body: seq<Byte>, magic: seq<Byte>): seq<Byte> {
    Le(|body| + 24, 8) + body + Le(|body| + 24, 8) + magic
  }

  /** The bytes before the central directory are a signing block of these pairs. */
  predicate BlockEndsAt(f: seq<Byte>, cd: nat, ps: seq<Pair>)
    requires cd <= |f|
  {
    var body := PairsBytes(ps);
    && PairsOk(ps) && |body| + 32 <= INT_MAX && |body| + 32 <= cd
    && f[cd - |body| - 32..cd] == Layout(body, BLOCK_MAGIC)
  }

  /** No ZIP64 locator before the record at e, and a central directory of at least 0x20 bytes' offset that ends at e. */
  predicate DirectoryEndsAt(f: seq<Byte>, e: nat)
    requires e + 22 <= |f|
  {
    && (e >= 20 ==> LeAt(f, e - 20, 4) != ZIP64_LOCATOR_MAGIC)
    && LeAt(f, e + 16, 4) + LeAt(f, e + 12, 4) == e
    && LeAt(f, e + 16, 4) >= 0x20
  }

  /** The files that are accepted. */
  ghost predicate Accepted(f: seq<Byte>, key: Key) {
    exists i: nat :: SmallestEocd(f, i) && DirectoryEndsAt(f, |f| - i - 22) &&
                     SignedBefore(f, LeAt(f, |f| - i - 6, 4), key)
  }

  ghost predicate SignedBefore(f: seq<Byte>, cd: nat, key: Key) {
    exists ps :: cd <= |f| && BlockEndsAt(f, cd, ps) && PairsAccepted(ps, key)
  }

  // ----- parsing containers -----

  /** A length-prefixed container at the front: its contents, and what follows. */
  function Unprefixed(s: seq<Byte>): (r: Option<(seq<Byte>, seq<Byte>)>) {
    if |s| < 4 then None
    else
      var n := UnLe(s[..4]);
      if n > INT_MAX || n > |s| - 4 then None else Some((s[4..4 + n], s[4 + n..]))
  }

  lemma UnprefixedBack(value: seq<Byte>, after: seq<Byte>)
    requires |value| <= INT_MAX
    ensures Unprefixed(Prefixed(value) + after) == Some((value, after))
  {
    var s := Prefixed(value) + after;
    Widths();
    LeThenUnLe(|value|, 4);
    assert s[..4] == Le(|value|, 4) && s[4..4 + |value|] == value && s[4 + |value|..] == after;
  }

  lemma UnprefixedExact(s: seq<Byte>)
    requires Unprefixed(s).Some?
    ensures var (value, after) := Unprefixed(s).value; |value| <= INT_MAX && s == Prefixed(value) + after
  {
    UnLeThenLe(s[..4]);
    assert s == s[..4] + (s[4..4 + UnLe(s[..4])] + s[4 + UnLe(s[..4])..]);
  }

  function Inner(s: seq<Byte>): Option<seq<Byte>> {
    var r := Unprefixed(s);
    if r.None? then None else Some(r.value.0)
  }

  /** The first certificate: signers, first signer, signed data; past the digests, the certificates. */
  function FirstCert(value: seq<Byte>): Option<seq<Byte>> {
    var signers := Inner(value);
    if signers.None? then None else
    var signer := Inner(signers.value);
    if signer.None? then None else
    var signedData := Inner(signer.value);
    if signedData.None? then None else
    var digests := Unprefixed(signedData.value);
    if digests.None? then None else
    var certs := Inner(digests.value.1);
    if certs.None? then None else Inner(certs.value)
  }

  /** The nested parse finds the certificate of the layout, and there is only one. */
  lemma FirstCertIsHeld(value: seq<Byte>, cert: seq<Byte>)
    ensures HoldsCert(value, cert) <==> FirstCert(value) == Some(cert)
  {
    if HoldsCert(value, cert) {
      var signers, signer, signedData, digests, certs, after: seq<seq<Byte>> :|
        Nested(value, signers, signer, signedData, digests, certs, cert, after);
      UnprefixedBack(signers, after[0]);
      UnprefixedBack(signer, after[1]);
      UnprefixedBack(signedData, after[2]);
      UnprefixedBack(digests, Prefixed(certs) + after[3]);
      UnprefixedBack(certs, after[3]);
      UnprefixedBack(cert, after[4]);
    }
    if FirstCert(value) == Some(cert) {
      FirstCertNested(value, cert);
    }
  }

  lemma FirstCertNested(value: seq<Byte>, cert: seq<Byte>)
    requires FirstCert(value) == Some(cert)
    ensures HoldsCert(value, cert)
  {
    var (signers, a0) := Unprefixed(value).value;
    var (signer, a1) := Unprefixed(signers).value;
    var (signedData, a2) := Unprefixed(signer).value;
    var (digests, more) := Unprefixed(signedData).value;
    var (certs, a3) := Unprefixed(more).value;
    var (c, a4) := Unprefixed(certs).value;
    UnprefixedExact(value);
    UnprefixedExact(signers);
    UnprefixedExact(signer);
    UnprefixedExact(signedData);
    UnprefixedExact(more);
    UnprefixedExact(certs);
    assert Nested(value, signers, signer, signedData, digests, certs, cert, [a0, a1, a2, a3, a4]);
  }

  predicate FirstCertMatches(value: seq<Byte>, key: Key) {
    FirstCert(value).Some? && CertMatches(FirstCert(value).value, key)
  }

  lemma MatchesIsFirst(value: seq<Byte>, key: Key)
    ensures ValueMatches(value, key) <==> FirstCertMatches(value, key)
  {
    if ValueMatches(value, key) {
      var cert :| HoldsCert(value, cert) && CertMatches(cert, key);
      FirstCertIsHeld(value, cert);
    }
    if FirstCertMatches(value, key) {
      FirstCertIsHeld(value, FirstCert(value).value);
    }
  }

  /** Comparing hex strings is comparing digests. */
  lemma {:induction false} HexIsInjective(a: seq<Byte>, b: seq<Byte>)
    requires HexOf(a) == HexOf(b)
    ensures a == b
  {
    if a != [] && b != [] {
      assert HexOf(a)[0] == Hex(a[0] / 16) && HexOf(a)[1] == Hex(a[0] % 16) && HexOf(a)[2..] == HexOf(a[1..]);
      assert HexOf(b)[0] == Hex(b[0] / 16) && HexOf(b)[1] == Hex(b[0] % 16) && HexOf(b)[2..] == HexOf(b[1..]);
      HexDigitsDiffer(a[0] / 16, b[0] / 16);
      HexDigitsDiffer(a[0] % 16, b[0] % 16);
      HexIsInjective(a[1..], b[1..]);
      assert a == [a[0]] + a[1..] && b == [b[0]] + b[1..];
    }
  }

  lemma HexDigitsDiffer(d: nat, e: nat)
    requires d < 16 && e < 16 && Hex(d) == Hex(e)
    ensures d == e
  {
  }

  // ----- parsing pairs -----

  function ParsePair(s: seq<Byte>): (r: Option<(Pair, seq<Byte>)>)
    ensures r.Some? ==> |r.value.1| + 12 <= |s|
  {
    if |s| < 8 then None
    else
      var size := UnLe(s[..8]);
      if size < 4 || size > INT_MAX || size > |s| - 8 then None
      else Some((Pair(UnLe(s[8..12]), s[12..8 + size]), s[8 + size..]))
  }

  function ParsePairs(s: seq<Byte>): Option<seq<Pair>>
    decreases |s|
  {
    if s == [] then Some([])
    else
      var p := ParsePair(s);
      if p.None? then None
      else
        var rest := ParsePairs(p.value.1);
        if rest.None? then None else Some([p.value.0] + rest.value)
  }

  lemma PairBack(p: Pair, rest: seq<Byte>)
    requires PairOk(p)
    ensures ParsePair(PairBytes(p) + rest) == Some((p, rest))
  {
    var s := PairBytes(p) + rest;
    Widths();
    LeThenUnLe(4 + |p.value|, 8);
    LeThenUnLe(p.id, 4);
    assert s[..8] == Le(4 + |p.value|, 8) && s[8..12] == Le(p.id, 4);
    assert s[12..12 + |p.value|] == p.value && s[12 + |p.value|..] == rest;
  }

  lemma PairExact(s: seq<Byte>)
    requires ParsePair(s).Some?
    ensures PairOk(ParsePair(s).value.0)
    ensures PairBytes(ParsePair(s).value.0) + ParsePair(s).value.1 == s
  {
    var size := UnLe(s[..8]);
    UnLeThenLe(s[..8]);
    UnLeThenLe(s[8..12]);
    JoinFour(s, 0, 8, 12, 8 + size, |s|);
    assert s[0..8] == s[..8] && s[8 + size..|s|] == s[8 + size..] && s[0..|s|] == s;
  }

  lemma {:induction false} PairsBack(ps: seq<Pair>)
    requires PairsOk(ps)
    ensures ParsePairs(PairsBytes(ps)) == Some(ps)
  {
    if ps != [] {
      PairBack(ps[0], PairsBytes(ps[1..]));
      PairsBack(ps[1..]);
      assert [ps[0]] + ps[1..] == ps;
    }
  }

  lemma {:induction false} PairsExact(s: seq<Byte>)
    requires ParsePairs(s).Some?
    ensures PairsOk(ParsePairs(s).value) && PairsBytes(ParsePairs(s).value) == s
    decreases |s|
  {
    if s != [] {
      PairExact(s);
      var (p, rest) := ParsePair(s).value;
      PairsExact(rest);
      assert ([p] + ParsePairs(rest).value)[1..] == ParsePairs(rest).value;
    }
  }

  /** Every pair takes at least 12 bytes, so the number of turns is bounded by the size of the block. */
  lemma {:induction false} TwelveBytesEach(ps: seq<Pair>)
    ensures 12 * |ps| <= |PairsBytes(ps)|
  {
    if ps != [] { TwelveBytesEach(ps[1..]); }
  }

  // ----- parsing the block -----

  /** The block before cd, found from its tail: size and magic, then the head, then the pairs. */
  function BlockPairs(f: seq<Byte>, cd: nat): Option<seq<Pair>>
    requires 0x20 <= cd <= |f|
  {
    var size := LeAt(f, cd - 24, 8);
    if f[cd - 16..cd] != BLOCK_MAGIC || size < 24 || size > INT_MAX - 8 || size > cd - 8 then None
    else if LeAt(f, cd - size - 8, 8) != size then None
    else ParsePairs(f[cd - size..cd - 24])
  }

  /** What the tail says is what the layout says, and the pairs are the only ones. */
  lemma BlockIsParsed(f: seq<Byte>, cd: nat, ps: seq<Pair>)
    requires 0x20 <= cd <= |f|
    ensures BlockEndsAt(f, cd, ps) <==> BlockPairs(f, cd) == Some(ps)
  {
    if BlockEndsAt(f, cd, ps) {
      LayoutParses(f, cd, ps);
    }
    if BlockPairs(f, cd) == Some(ps) {
      ParsedIsLayout(f, cd, ps);
    }
  }

  lemma LayoutParses(f: seq<Byte>, cd: nat, ps: seq<Pair>)
    requires 0x20 <= cd <= |f| && BlockEndsAt(f, cd, ps)
    ensures BlockPairs(f, cd) == Some(ps)
  {
    var body := PairsBytes(ps);
    var size := |body| + 24;
    LayoutParts(f, cd, body, BLOCK_MAGIC);
    PairsBack(ps);
    assert UnLe(Le(size, 8)) == size by {
      Widths();
      LeThenUnLe(size, 8);
    }
  }

  /** A layout before cd, seen as its four parts. */
  lemma LayoutParts(f: seq<Byte>, cd: nat, body: seq<Byte>, magic: seq<Byte>)
    requires |magic| == 16 && |body| + 32 <= cd <= |f|
    ensures var size := |body| + 24;
            f[cd - size - 8..cd] == Layout(body, magic) <==>
            && f[cd - size - 8..cd - size] == Le(size, 8) && f[cd - size..cd - 24] == body
            && f[cd - 24..cd - 16] == Le(size, 8) && f[cd - 16..cd] == magic
  {
    var size := |body| + 24;
    if f[cd - size - 8..cd] == Layout(body, magic) {
      FourParts(f, cd - size - 8, cd, Le(size, 8), body, Le(size, 8), magic);
    }
    JoinFour(f, cd - size - 8, cd - size, cd - 24, cd - 16, cd);
  }

  /** The parts of a slice that is put together from four. */
  lemma FourParts(f: seq<Byte>, b: nat, e: nat, p: seq<Byte>, q: seq<Byte>, r: seq<Byte>, s: seq<Byte>)
    requires b <= e <= |f| && f[b..e] == p + q + r + s
    ensures f[b..b + |p|] == p && f[b + |p|..b + |p| + |q|] == q
    ensures f[e - |s| - |r|..e - |s|] == r && f[e - |s|..e] == s
  {
    var whole := p + q + r + s;
    SliceOfSlice(f, b, e, 0, |p|);
    SliceOfSlice(f, b, e, |p|, |p| + |q|);
    SliceOfSlice(f, b, e, |p| + |q|, |p| + |q| + |r|);
    SliceOfSlice(f, b, e, |p| + |q| + |r|, |whole|);
    assert whole[0..|p|] == p && whole[|p|..|p| + |q|] == q;
    assert whole[|p| + |q|..|p| + |q| + |r|] == r && whole[|p| + |q| + |r|..|whole|] == s;
  }

  lemma SliceOfSlice(f: seq<Byte>, b: nat, e: nat, i: nat, j: nat)
    requires b <= e <= |f| && i <= j <= e - b
    ensures f[b..e][i..j] == f[b + i..b + j]
  {
    var x, y := f[b..e][i..j], f[b + i..b + j];
    assert |x| == |y| && forall k :: 0 <= k < |x| ==> x[k] == y[k];
  }

  lemma JoinFour(f: seq<Byte>, b: nat, x: nat, y: nat, z: nat, e: nat)
    requires b <= x <= y <= z <= e <= |f|
    ensures f[b..e] == f[b..x] + f[x..y] + f[y..z] + f[z..e]
  {
    Join(f, b, x, y);
    Join(f, b, y, z);
    Join(f, b, z, e);
  }

  lemma Join(f: seq<Byte>, a: nat, m: nat, e: nat)
    requires a <= m <= e <= |f|
    ensures f[a..e] == f[a..m] + f[m..e]
  {
    var x, y := f[a..e], f[a..m] + f[m..e];
    assert |x| == |y| && forall k :: 0 <= k < |x| ==> x[k] == y[k];
  }

  /** The four parts that a parsed block consists of. */
  lemma ParsedParts(f: seq<Byte>, cd: nat, ps: seq<Pair>, size: nat)
    requires 0x20 <= cd <= |f| && BlockPairs(f, cd) == Some(ps) && size == LeAt(f, cd - 24, 8)
    ensures 24 <= size <= INT_MAX - 8 && size <= cd - 8
    ensures f[cd - size - 8..cd - size] == Le(size, 8) && f[cd - size..cd - 24] == PairsBytes(ps)
    ensures f[cd - 24..cd - 16] == Le(size, 8) && f[cd - 16..cd] == BLOCK_MAGIC && PairsOk(ps)
  {
    UnLeThenLe(f[cd - 24..cd - 16]);
    UnLeThenLe(f[cd - size - 8..cd - size]);
    PairsExact(f[cd - size..cd - 24]);
  }

  lemma PartsAreLayout(f: seq<Byte>, cd: nat, ps: seq<Pair>, size: nat)
    requires 24 <= size <= INT_MAX - 8 && size + 8 <= cd <= |f|
    requires f[cd - size - 8..cd - size] == Le(size, 8) && f[cd - size..cd - 24] == PairsBytes(ps)
    requires f[cd - 24..cd - 16] == Le(size, 8) && f[cd - 16..cd] == BLOCK_MAGIC && PairsOk(ps)
    ensures BlockEndsAt(f, cd, ps)
  {
    assert |f[cd - size..cd - 24]| == size - 24;
    BodyIsLayout(f, cd, PairsBytes(ps), size);
  }

  lemma BodyIsLayout(f: seq<Byte>, cd: nat, body: seq<Byte>, size: nat)
    requires size == |body| + 24 && size + 8 <= cd <= |f|
    requires f[cd - size - 8..cd - size] == Le(size, 8) && f[cd - size..cd - 24] == body
    requires f[cd - 24..cd - 16] == Le(size, 8) && f[cd - 16..cd] == BLOCK_MAGIC
    ensures f[cd - |body| - 32..cd] == Layout(body, BLOCK_MAGIC)
  {
    LayoutParts(f, cd, body, BLOCK_MAGIC);
  }

  lemma ParsedIsLayout(f: seq<Byte>, cd: nat, ps: seq<Pair>)
    requires 0x20 <= cd <= |f| && BlockPairs(f, cd) == Some(ps)
    ensures BlockEndsAt(f, cd, ps)
  {
    var size := LeAt(f, cd - 24, 8);
    ParsedParts(f, cd, ps, size);
    PartsAreLayout(f, cd, ps, size);
  }

  // ----- the pair loop -----

  /** What the loop has counted after some pairs. */
  datatype Scan = Scan(v2Blocks: nat, v2Valid: bool, v3: bool, v31: bool)

  function ScanOf(ps: seq<Pair>, key: Key): Scan
    decreases |ps|
  {
    if ps == [] then Scan(0, false, false, false)
    else ScanNext(ScanOf(ps[..|ps| - 1], key), ps[|ps| - 1], key)
  }

  function ScanNext(s: Scan, p: Pair, key: Key): Scan {
    if p.id == V2_ID then s.(v2Blocks := s.v2Blocks + 1, v2Valid := FirstCertMatches(p.value, key))
    else if p.id == V3_ID then s.(v3 := true)
    else if p.id == V31_ID then s.(v31 := true)
    else s
  }

  predicate ScanAccepts(s: Scan) {
    s.v2Blocks == 1 && s.v2Valid && !s.v3 && !s.v31
  }

  lemma {:induction false} ScanSeesV3(ps: seq<Pair>, key: Key)
    ensures ScanOf(ps, key).v3 <==> exists k :: 0 <= k < |ps| && ps[k].id == V3_ID
    ensures ScanOf(ps, key).v31 <==> exists k :: 0 <= k < |ps| && ps[k].id == V31_ID
    decreases |ps|
  {
    if ps != [] {
      var rest := ps[..|ps| - 1];
      ScanSeesV3(rest, key);
      assert forall k :: 0 <= k < |rest| ==> rest[k] == ps[k];
    }
  }

  predicate NoV2(ps: seq<Pair>) {
    forall k :: 0 <= k < |ps| ==> ps[k].id != V2_ID
  }

  lemma {:induction false} ScanSeesNoV2(ps: seq<Pair>, key: Key)
    ensures ScanOf(ps, key).v2Blocks == 0 <==> NoV2(ps)
    decreases |ps|
  {
    if ps != [] {
      var rest := ps[..|ps| - 1];
      ScanSeesNoV2(rest, key);
      assert forall k :: 0 <= k < |rest| ==> rest[k] == ps[k];
    }
  }

  /** One v2 pair counted: the only one, whose check is the one remembered. */
  lemma {:induction false} ScanSeesOneV2(ps: seq<Pair>, key: Key) returns (at: nat)
    requires ScanOf(ps, key).v2Blocks == 1
    ensures at < |ps| && OnlyV2(ps, at) && ScanOf(ps, key).v2Valid == FirstCertMatches(ps[at].value, key)
    decreases |ps|
  {
    var rest := ps[..|ps| - 1];
    assert forall k :: 0 <= k < |rest| ==> rest[k] == ps[k];
    if ps[|ps| - 1].id == V2_ID {
      ScanSeesNoV2(rest, key);
      at := |ps| - 1;
    } else {
      at := ScanSeesOneV2(rest, key);
    }
  }

  lemma {:induction false} OnlyV2IsCounted(ps: seq<Pair>, k: nat, key: Key)
    requires k < |ps| && OnlyV2(ps, k)
    ensures ScanOf(ps, key).v2Blocks == 1
    decreases |ps|
  {
    var rest := ps[..|ps| - 1];
    assert forall j :: 0 <= j < |rest| ==> rest[j] == ps[j];
    if k == |ps| - 1 {
      ScanSeesNoV2(rest, key);
    } else {
      OnlyV2IsCounted(rest, k, key);
    }
  }

  /** The counters accept exactly the pair lists that the layout accepts. */
  lemma ScanIsAcceptance(ps: seq<Pair>, key: Key)
    ensures ScanAccepts(ScanOf(ps, key)) <==> PairsAccepted(ps, key)
  {
    ScanSeesV3(ps, key);
    if ScanOf(ps, key).v2Blocks == 1 {
      var at := ScanSeesOneV2(ps, key);
      MatchesIsFirst(ps[at].value, key);
      assert forall k :: 0 <= k < |ps| && OnlyV2(ps, k) ==> k == at;
    }
    forall k | 0 <= k < |ps| && OnlyV2(ps, k)
      ensures ScanOf(ps, key).v2Blocks == 1
    {
      OnlyV2IsCounted(ps, k, key);
    }
  }
}
