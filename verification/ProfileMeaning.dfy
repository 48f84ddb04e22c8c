/**
 Which profiles are accepted, and what is then stored, in the bytes of `struct app_profile`
 (kernel/include/uapi/app_profile.h:13-68, kernel/policy/allowlist.c:94-211, 437-460).
 */
module ProfileMeaning {
  import opened Bytes
  import opened AllowProfiles

  // ----- acceptance -----

  /** There is a NUL in the key. */
  predicate KeyEnds(p: Profile) {
    exists i :: 4 <= i < 260 && p[i] == 0
  }

  /** The domain is not empty, and there is a NUL in it. */
  predicate DomainEnds(p: Profile) {
    p[704] != 0 && exists i :: 704 <= i < 768 && p[i] == 0
  }

  /** A profile of version 2, 3 or 4 that ends its strings, has at most 32 groups, and takes 9999 only under the key "$". */
  predicate Acceptable(p: Profile) {
    && KeyEnds(p) && Word4(p, 0) in {2, 3, 4}
    && (p[264] != 0 ==> Word4(p, 544) <= 32 && DomainEnds(p))
    && (Word4(p, 260) == 9999 ==> p[4] == '$' as int && p[5] == 0)
  }

  /** Its uid is in the list already, or the list holds fewer than 65535 entries. */
  predicate HasPlace(l: AllowList, p: Profile) {
    Word4(p, 260) in l.profiles || |l.profiles| != 65535
  }

  /** The domain is "u:r:su:s0". */
  predicate OldDomain(p: Profile) {
    p[713] == 0 && forall k :: 0 <= k < 9 ==> p[704 + k] == "u:r:su:s0"[k] as int
  }

  /**
   Byte i of what is stored: version 4; in a root profile of version 2 with the old domain, "u:r:ksu:s0"; in a root profile
   of version 2 or 3, the flags 1; and else the byte that came in.
   */
  function StoredByte(p: Profile, i: nat): int
    requires i < 784
  {
    if i < 4 then (if i == 0 then 4 else 0)
    else if 704 <= i < 768 && Word4(p, 0) == 2 && p[264] != 0 && OldDomain(p) then
      (if i < 714 then "u:r:ksu:s0"[i - 704] as int else 0)
    else if 776 <= i && Word4(p, 0) in {2, 3} && p[264] != 0 then (if i == 776 then 1 else 0)
    else p[i]
  }

  lemma RenamedWhen(version: nat, p: Profile)
    ensures RenamesDomain(version, p) <==> version == 2 && p[264] != 0 && OldDomain(p)
  {
    var d := Domain(p)[..10];
    assert forall k :: 0 <= k < 10 ==> d[k] == p[704 + k];
    OldDomainBytes();
    if OldDomain(p) { assert d == SU_DOMAIN; }
    if d == SU_DOMAIN { assert p[713] == SU_DOMAIN[9]; }
  }

  lemma OldDomainBytes()
    ensures |SU_DOMAIN| == 10 && SU_DOMAIN[9] == 0
    ensures forall k :: 0 <= k < 9 ==> SU_DOMAIN[k] == "u:r:su:s0"[k] as int
  {
  }

  lemma NewDomainByte(k: nat)
    requires k < 64
    ensures (KSU_DOMAIN + Zeros(53))[k] == if k < 10 then "u:r:ksu:s0"[k] as int else 0
  {
  }

  lemma FlagByte(k: nat)
    requires k < 8
    ensures Le(1, 8)[k] == if k == 0 then 1 else 0
  {
    SmallLe(1, 8, k);
  }

  lemma {:induction false} SmallLe(n: nat, w: nat, k: nat)
    requires n < 256 && k < w
    ensures Le(n, w)[k] == if k == 0 then n else 0
    decreases w
  {
    if k > 0 {
      SmallLe(0, w - 1, k - 1);
      assert n / 256 == 0;
    }
  }

  /** What is looked at and stored, byte by byte. */
  lemma IncomingByte(p: Profile, i: nat)
    requires i < 784
    ensures Word4(p, 0) in {2, 3, 4} ==> Incoming(p)[i] == StoredByte(p, i)
    ensures Word4(p, 0) !in {2, 3, 4} ==> Incoming(p) == p
  {
    Words(p, 0);
    if Word4(p, 0) in {2, 3} {
      MigratedByte(p, i);
    } else if Word4(p, 0) == 4 && i < 4 {
      UnLeThenLe(p[0..4]);
      SmallLe(4, 4, i);
      assert p[0..4][i] == p[i];
    }
  }

  lemma MigratedByte(p: Profile, i: nat)
    requires i < 784 && Word4(p, 0) in {2, 3} && Version(p) == Word4(p, 0)
    ensures Migrate(Version(p), p)[i] == StoredByte(p, i)
  {
    var version := Version(p);
    MigrateAt(version, p, i);
    RenamedWhen(version, p);
    if i < 4 { SmallLe(4, 4, i); }
    if 704 <= i < 768 { NewDomainByte(i - 704); }
    if 776 <= i { FlagByte(i - 776); }
  }

  /** The fields that decide are not changed by a migration, except for the version. */
  lemma IncomingFields(p: Profile)
    requires Word4(p, 0) in {2, 3, 4}
    ensures var q := Incoming(p);
            && Word4(q, 0) == 4 && Word4(q, 260) == Word4(p, 260) && Word4(q, 544) == Word4(p, 544) && q[264] == p[264]
            && q[273] == p[273] && q[4] == p[4] && q[5] == p[5]
            && (KeyEnds(q) <==> KeyEnds(p)) && (p[264] != 0 ==> (DomainEnds(q) <==> DomainEnds(p)))
  {
    forall i: nat | i < 784
      ensures Incoming(p)[i] == StoredByte(p, i)
    {
      IncomingByte(p, i);
    }
    DomainStays(p);
    KeyStays(p);
  }

  lemma KeyStays(p: Profile)
    requires forall i: nat :: i < 784 ==> Incoming(p)[i] == StoredByte(p, i)
    ensures KeyEnds(Incoming(p)) <==> KeyEnds(p)
  {
    assert forall i :: 4 <= i < 260 ==> Incoming(p)[i] == p[i];
  }

  lemma DomainStays(p: Profile)
    requires forall i: nat :: i < 784 ==> Incoming(p)[i] == StoredByte(p, i)
    ensures DomainEnds(Incoming(p)) <==> DomainEnds(p)
  {
    if Word4(p, 0) == 2 && p[264] != 0 && OldDomain(p) {
      assert p[704] == "u:r:su:s0"[0] as int;
      assert Incoming(p)[714] == 0;
    } else {
      assert forall i :: 704 <= i < 768 ==> Incoming(p)[i] == p[i];
    }
  }

  /** The checks of a profile that is already of the current version. */
  lemma ValidMeans(q: Profile)
    ensures ProfileValid(q) <==>
            && KeyEnds(q) && Word4(q, 0) == 4
            && (q[264] != 0 ==> Word4(q, 544) <= 32 && DomainEnds(q))
    ensures Uid(q) == Word4(q, 260)
  {
    Words(q, 0);
    Words(q, 260);
    Words(q, 544);
    SliceHasNul(q, 4, 260);
    SliceHasNul(q, 704, 768);
  }

  lemma SliceHasNul(p: seq<Byte>, from: nat, to: nat)
    requires from <= to <= |p|
    ensures 0 in p[from..to] <==> exists i :: from <= i < to && p[i] == 0
  {
    if 0 in p[from..to] {
      var j :| 0 <= j < to - from && p[from..to][j] == 0;
      assert p[from + j] == 0;
    }
    if i :| from <= i < to && p[i] == 0 {
      assert p[from..to][i - from] == 0;
    }
  }

  /** A set is accepted exactly when the bytes are acceptable and there is a place; each failure has its own error. */
  lemma SetAnswers(l: AllowList, p: Profile)
    ensures var (l', ret) := SetProfile(l, p);
            && (ret == 0 <==> Acceptable(p) && HasPlace(l, p))
            && (ret == -22 <==> !Acceptable(p))
            && (ret == -7 <==> Acceptable(p) && !HasPlace(l, p))
            && (ret != 0 ==> l' == l)
  {
    IncomingDecides(l, p);
  }

  lemma IncomingDecides(l: AllowList, p: Profile)
    ensures var q := Incoming(p);
            && (Acceptable(p) <==> ProfileValid(q) && (Uid(q) == 9999 ==> KeyIsDollar(q)))
            && Uid(q) == Word4(p, 260)
  {
    var q := Incoming(p);
    ValidMeans(q);
    if Word4(p, 0) in {2, 3, 4} { IncomingFields(p); } else { IncomingByte(p, 0); }
  }

  /** What an accepted set stores, byte by byte, under the profile's uid; all other entries stay. */
  lemma SetStores(l: AllowList, p: Profile, i: nat, u: nat)
    requires Acceptable(p) && HasPlace(l, p) && i < 784
    ensures var l', uid := SetProfile(l, p).0, Word4(p, 260);
            && uid in l'.profiles && l'.profiles[uid][i] == StoredByte(p, i)
            && l'.profiles.Keys == l.profiles.Keys + {uid}
            && (u in l.profiles && u != uid ==> l'.profiles[u] == l.profiles[u])
            && l'.umount == if uid == 9999 then p[273] != 0 else l.umount
  {
    IncomingDecides(l, p);
    IncomingByte(p, i);
    IncomingFields(p);
    SetPuts(l, p);
  }

  lemma SetPuts(l: AllowList, p: Profile)
    requires Acceptable(p) && HasPlace(l, p)
    ensures var q := Incoming(p);
            SetProfile(l, p).0 == AllowList(l.profiles[Word4(p, 260) := q], if Word4(p, 260) == 9999 then q[273] != 0 else l.umount)
  {
    IncomingDecides(l, p);
  }

  /** What the caller's structure becomes before a set: without the last eight bytes in version 2 or 3. */
  function Copied(user: Profile): Profile {
    if Word4(user, 0) == 4 then user else user[..776] + [0, 0, 0, 0, 0, 0, 0, 0]
  }

  /** The call from user space: other versions are refused, the rest is a set of what was copied. */
  lemma DoSetMeans(l: AllowList, user: Profile)
    ensures Word4(user, 0) !in {2, 3, 4} ==> DoSet(l, user) == (l, -22)
    ensures Word4(user, 0) in {2, 3, 4} ==> DoSet(l, user) == SetProfile(l, Copied(user))
  {
    Words(user, 0);
    if Word4(user, 0) in {2, 3, 4} { CopiedIs(user, UserSize(Version(user))); }
  }

  lemma CopiedIs(user: Profile, size: nat)
    requires size == if Word4(user, 0) == 4 then 784 else 776
    ensures user[..size] + Zeros(784 - size) == Copied(user)
  {
    if size == 784 {
      assert user[..784] + Zeros(0) == user;
    } else {
      assert Zeros(8) == [0, 0, 0, 0, 0, 0, 0, 0];
    }
  }

  /** So it answers as its own bytes say: the last eight do not matter. */
  lemma DoSetAnswers(l: AllowList, user: Profile)
    ensures var (l', ret) := DoSet(l, user);
            && (ret == 0 <==> Acceptable(user) && HasPlace(l, user))
            && (ret == -22 <==> !Acceptable(user))
            && (ret == -7 <==> Acceptable(user) && !HasPlace(l, user))
            && (ret != 0 ==> l' == l)
  {
    DoSetMeans(l, user);
    if Word4(user, 0) in {2, 3, 4} {
      SetAnswers(l, Copied(user));
      CopiedDecides(l, user);
    }
  }

  lemma CopiedDecides(l: AllowList, user: Profile)
    requires Word4(user, 0) in {2, 3, 4}
    ensures Acceptable(Copied(user)) <==> Acceptable(user)
    ensures HasPlace(l, Copied(user)) <==> HasPlace(l, user)
  {
    assert forall i :: 0 <= i < 776 ==> Copied(user)[i] == user[i];
  }

  /** A get fails for other versions and for uids without an entry, and then leaves the caller's structure alone. */
  lemma GetAnswers(l: AllowList, user: Profile)
    ensures var (out, ret) := DoGet(l, user);
            && (ret == -22 <==> Word4(user, 0) !in {2, 3, 4})
            && (ret == -2 <==> Word4(user, 0) in {2, 3, 4} && Word4(user, 260) !in l.profiles)
            && (ret == 0 <==> Word4(user, 0) in {2, 3, 4} && Word4(user, 260) in l.profiles)
            && (ret != 0 ==> out == user)
  {
    Words(user, 0);
    Words(user, 260);
  }

  /** A get gives the entry's bytes, with the caller's version, and none behind byte 776 in version 2 or 3. */
  lemma GetGives(l: AllowList, user: Profile, i: nat)
    requires DoGet(l, user).1 == 0 && i < 784
    ensures Word4(user, 260) in l.profiles
    ensures DoGet(l, user).0[i] ==
            if Word4(user, 0) == 4 then l.profiles[Word4(user, 260)][i]
            else if i < 4 || 776 <= i then user[i]
            else l.profiles[Word4(user, 260)][i]
  {
    Words(user, 0);
    Words(user, 260);
    var p := l.profiles[Word4(user, 260)];
    if Word4(user, 0) == 4 {
      assert Patch(user, 0, p[..784]) == p;
    } else {
      UnLeThenLe(user[0..4]);
      var out := Patch(p, 0, Le(Version(user), 4));
      PatchAt(user, 0, out[..776], i);
      PatchAt(p, 0, Le(Version(user), 4), i);
      if i < 4 { assert user[0..4][i] == user[i]; }
    }
  }

  /** A prune keeps exactly the valid uids and the two special ones. */
  lemma PruneMeans(l: AllowList, valid: set<nat>, u: nat)
    ensures var l' := Pruned(l, valid);
            && (u in l'.profiles <==> u in l.profiles && (u == 9999 || u == 1053 || u in valid))
            && (u in l'.profiles ==> l'.profiles[u] == l.profiles[u])
            && l'.umount == l.umount
  {
  }

  // ----- the file -----

  /** A saved file begins with the magic number and version 4, and has 784 bytes for each entry. */
  lemma SavedMeans(l: AllowList, order: seq<nat>)
    requires WalkOf(l, order)
    ensures var f := Saved(l, order);
            |f| == 8 + 784 * |order| && Word4(f, 0) == 0x7f4b5355 && Word4(f, 4) == 4
  {
    SavedHeader(l, order);
    Words(Saved(l, order), 0);
    Words(Saved(l, order), 4);
    RecordsSize(l, order);
  }

  lemma {:induction false} RecordsSize(l: AllowList, order: seq<nat>)
    requires forall u :: u in order ==> u in l.profiles
    ensures |ProfilesBytes(l, order)| == 784 * |order|
    decreases |order|
  {
    if order != [] { RecordsSize(l, order[1..]); }
  }

  /** Record k of a saved file is the entry of the k-th uid of the walk. */
  lemma {:induction false} RecordAt(l: AllowList, order: seq<nat>, k: nat)
    requires (forall u :: u in order ==> u in l.profiles) && k < |order|
    ensures |ProfilesBytes(l, order)| == 784 * |order|
    ensures ProfilesBytes(l, order)[784 * k..784 * k + 784] == l.profiles[order[k]]
    decreases k
  {
    RecordsSize(l, order);
    RecordsSize(l, order[1..]);
    var b, rest := ProfilesBytes(l, order), ProfilesBytes(l, order[1..]);
    assert b == l.profiles[order[0]] + rest;
    if k > 0 {
      RecordAt(l, order[1..], k - 1);
      assert b[784 * k..784 * k + 784] == rest[784 * (k - 1)..784 * (k - 1) + 784];
    }
  }

  /** A load reads nothing from a file with another header, and writes the file anew after version 2 or 3. */
  lemma LoadMeans(l: AllowList, f: seq<Byte>, junk: Junk)
    ensures |f| < 8 || Word4(f, 0) != 0x7f4b5355 || Word4(f, 4) !in {2, 3, 4} ==> Loaded(l, f, junk) == (l, false)
    ensures |f| >= 8 && Word4(f, 0) == 0x7f4b5355 && Word4(f, 4) in {2, 3, 4} ==>
              Loaded(l, f, junk) == (LoadRecords(l, Word4(f, 4), f[8..], junk, 0), Word4(f, 4) != 4)
  {
    if |f| >= 8 {
      Words(f, 0);
      Words(f, 4);
    }
  }

  /** One turn of a load: a record of 776 or 784 bytes is migrated from the file's version and set, with any answer. */
  lemma LoadTurns(l: AllowList, version: nat, s: seq<Byte>, junk: Junk, i: nat)
    requires version in {2, 3, 4}
    ensures var n := if version == 4 then 784 else 776;
            LoadRecords(l, version, s, junk, i) ==
            if |s| < n then l
            else
              var p: Profile := if version == 4 then s[..784] else s[..776] + junk(i);
              LoadRecords(SetProfile(l, Migrate(version, p)).0, version, s[n..], junk, i + 1)
  {
  }
}
