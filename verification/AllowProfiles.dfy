/**
 App profiles byte for byte (kernel/include/uapi/app_profile.h), their validation and migration, and the file
 they are kept in (kernel/policy/allowlist.c:88-225, 376-533).
 */
module AllowProfiles {
  import opened Bytes

  const PROFILE_VER: nat := 4
  const PROFILE_SIZE: nat := 784
  const SIZE_PRE_V4: nat := 776
  const PRESERVE_UID: nat := 9999
  const WEBVIEW_ZYGOTE_UID: nat := 1053
  const MAX_GROUPS: nat := 32
  const FILE_MAGIC: nat := 0x7f4b_5355
  const U16_MAX: nat := 0xffff
  const EINVAL: int := 22
  const E2BIG: int := 7
  const ENOENT: int := 2

  /** `struct app_profile`; the offsets are those of its fields. */
  type Profile = p: seq<Byte> | |p| == PROFILE_SIZE witness seq(PROFILE_SIZE, _ => 0)

  function Version(p: seq<Byte>): nat
    requires |p| >= SIZE_PRE_V4
  {
    UnLe(p[0..4])
  }

  function Uid(p: seq<Byte>): nat
    requires |p| >= SIZE_PRE_V4
  {
    UnLe(p[260..264])
  }

  predicate AllowSu(p: seq<Byte>)
    requires |p| >= SIZE_PRE_V4
  {
    p[264] != 0
  }

  /** `nrp_config.profile.umount_modules` */
  predicate Umount(p: seq<Byte>)
    requires |p| >= SIZE_PRE_V4
  {
    p[273] != 0
  }

  function GroupsCount(p: seq<Byte>): nat
    requires |p| >= SIZE_PRE_V4
  {
    UnLe(p[544..548])
  }

  function Domain(p: seq<Byte>): (r: seq<Byte>)
    requires |p| >= SIZE_PRE_V4
    ensures |r| == 64
  {
    p[704..768]
  }

  /** "$" */
  predicate KeyIsDollar(p: seq<Byte>)
    requires |p| >= SIZE_PRE_V4
  {
    p[4] == 0x24 && p[5] == 0
  }

  /** `profile_valid` */
  predicate ProfileValid(p: Profile) {
    && 0 in p[4..260]
    && Version(p) == PROFILE_VER
    && (AllowSu(p) ==> GroupsCount(p) <= MAX_GROUPS && Domain(p)[0] != 0 && 0 in Domain(p))
  }

  // ----- migration -----

  /** "u:r:su:s0" and "u:r:ksu:s0", with what ends them */
  const SU_DOMAIN: seq<Byte> := [0x75, 0x3a, 0x72, 0x3a, 0x73, 0x75, 0x3a, 0x73, 0x30, 0]
  const KSU_DOMAIN: seq<Byte> := [0x75, 0x3a, 0x72, 0x3a, 0x6b, 0x73, 0x75, 0x3a, 0x73, 0x30, 0]

  function Zeros(n: nat): (r: seq<Byte>)
    ensures |r| == n
  {
    seq(n, _ => 0)
  }

  /** p with some bytes overwritten from `at` on. */
  function Patch(p: seq<Byte>, at: nat, b: seq<Byte>): (r: seq<Byte>)
    requires at + |b| <= |p|
    ensures |r| == |p|
  {
    p[..at] + b + p[at + |b|..]
  }

  /** The old su domain of version 2 is renamed. */
  predicate RenamesDomain(version: nat, p: seq<Byte>)
    requires |p| >= SIZE_PRE_V4
  {
    version == 2 && AllowSu(p) && Domain(p)[..10] == SU_DOMAIN
  }

  function Renamed(version: nat, p: Profile): Profile {
    if RenamesDomain(version, p) then Patch(p, 704, KSU_DOMAIN + Zeros(53)) else p
  }

  function Flagged(version: nat, p: Profile): Profile {
    if (version == 2 || version == 3) && AllowSu(p) then Patch(p, 776, Le(1, 8)) else p
  }

  /** `migrate_profile` */
  function Migrate(version: nat, p: Profile): Profile {
    Patch(Flagged(version, Renamed(version, p)), 0, Le(PROFILE_VER, 4))
  }

  // ----- the list -----

  /** The table as a map from uid to profile, and the default for apps without one. */
  datatype AllowList = AllowList(profiles: map<nat, Profile>, umount: bool)

  const EMPTY := AllowList(map[], true)

  /** What `ksu_set_app_profile` makes of its argument before it looks at it. */
  function Incoming(p: Profile): Profile {
    if Version(p) == 2 || Version(p) == 3 then Migrate(Version(p), p) else p
  }

  /** `ksu_set_app_profile` */
  function SetProfile(l: AllowList, p: Profile): (AllowList, int) {
    var q := Incoming(p);
    if !ProfileValid(q) || (Uid(q) == PRESERVE_UID && !KeyIsDollar(q)) then (l, -EINVAL)
    else if Uid(q) !in l.profiles && |l.profiles| == U16_MAX then (l, -E2BIG)
    else (AllowList(l.profiles[Uid(q) := q], if Uid(q) == PRESERVE_UID then Umount(q) else l.umount), 0)
  }

  /** `ksu_prune_allowlist`; the two special uids stay. */
  function Pruned(l: AllowList, valid: set<nat>): AllowList {
    l.(profiles := map u | u in l.profiles && (u == PRESERVE_UID || u == WEBVIEW_ZYGOTE_UID || u in valid) :: l.profiles[u])
  }

  // ----- the file -----

  function ProfilesBytes(l: AllowList, order: seq<nat>): seq<Byte>
    requires forall u :: u in order ==> u in l.profiles
    decreases |order|
  {
    if order == [] then [] else l.profiles[order[0]] + ProfilesBytes(l, order[1..])
  }

  /** The walk of the hash table: every uid once. */
  ghost predicate WalkOf(l: AllowList, order: seq<nat>) {
    && (forall u :: u in order <==> u in l.profiles)
    && (forall i, j :: 0 <= i < j < |order| ==> order[i] != order[j])
  }

  /** `do_persistent_allow_list` */
  ghost function Saved(l: AllowList, order: seq<nat>): seq<Byte>
    requires WalkOf(l, order)
  {
    Le(FILE_MAGIC, 4) + Le(PROFILE_VER, 4) + ProfilesBytes(l, order)
  }

  /** What the last bytes of a profile on the stack are before turn i of the load loop. */
  type Junk = nat -> Slack

  type Slack = s: seq<Byte> | |s| == PROFILE_SIZE - SIZE_PRE_V4 witness seq(PROFILE_SIZE - SIZE_PRE_V4, _ => 0)

  function RecordSizeOf(version: nat): (r: nat)
    ensures r == PROFILE_SIZE || r == SIZE_PRE_V4
  {
    if version < PROFILE_VER then SIZE_PRE_V4 else PROFILE_SIZE
  }

  /** A record as it stands on the stack: an old one does not reach the last bytes. */
  function OnStack(record: seq<Byte>, junk: Slack): Profile
    requires |record| == PROFILE_SIZE || |record| == SIZE_PRE_V4
  {
    if |record| == PROFILE_SIZE then record else record + junk
  }

  /** The load loop: record after record, until one is short. */
  function LoadRecords(l: AllowList, version: nat, s: seq<Byte>, junk: Junk, i: nat): AllowList
    decreases |s|
  {
    var n := RecordSizeOf(version);
    if |s| < n then l
    else LoadRecords(SetProfile(l, Migrate(version, OnStack(s[..n], junk(i)))).0, version, s[n..], junk, i + 1)
  }

  /** `ksu_load_allow_list`: the list, and whether the file is written anew. */
  function Loaded(l: AllowList, f: seq<Byte>, junk: Junk): (AllowList, bool) {
    if |f| < 8 || UnLe(f[0..4]) != FILE_MAGIC || UnLe(f[4..8]) < 2 || UnLe(f[4..8]) > PROFILE_VER then (l, false)
    else (LoadRecords(l, UnLe(f[4..8]), f[8..], junk, 0), UnLe(f[4..8]) < PROFILE_VER)
  }

  // ----- the compatibility interface -----

  /** `app_profile_userspace_size`; 0 for a version that is not supported. */
  function UserSize(version: nat): nat {
    if version == 2 || version == 3 then SIZE_PRE_V4 else if version == PROFILE_VER then PROFILE_SIZE else 0
  }

  /** `do_set_app_profile`: what is not copied from the caller's structure is zero. */
  function DoSet(l: AllowList, user: Profile): (AllowList, int) {
    var size := UserSize(Version(user));
    if size == 0 then (l, -EINVAL) else SetProfile(l, user[..size] + Zeros(PROFILE_SIZE - size))
  }

  /** `do_get_app_profile`: the caller's structure names a version and a uid, and is overwritten in its size. */
  function DoGet(l: AllowList, user: Profile): (Profile, int) {
    var version, size := Version(user), UserSize(Version(user));
    if size == 0 then (user, -EINVAL)
    else if Uid(user) !in l.profiles then (user, -ENOENT)
    else
      var p := l.profiles[Uid(user)];
      var out := if size < PROFILE_SIZE then Patch(p, 0, Le(version, 4)) else p;
      (Patch(user, 0, out[..size]), 0)
  }

  // ----- what every list satisfies -----

  /** Entries are valid and filed under their uid; the default is what the reserved entry says. */
  ghost predicate ListOk(l: AllowList) {
    && |l.profiles| <= U16_MAX
    && (forall u :: u in l.profiles ==> EntryOk(u, l.profiles[u]))
    && l.umount == (if PRESERVE_UID in l.profiles then Umount(l.profiles[PRESERVE_UID]) else true)
  }

  predicate EntryOk(u: nat, p: Profile) {
    Uid(p) == u && ProfileValid(p) && (u == PRESERVE_UID ==> KeyIsDollar(p))
  }

  lemma SetKeepsOk(l: AllowList, p: Profile)
    requires ListOk(l)
    ensures ListOk(SetProfile(l, p).0)
  {
  }

  lemma PruneKeepsOk(l: AllowList, valid: set<nat>)
    requires ListOk(l)
    ensures ListOk(Pruned(l, valid))
  {
    var l' := Pruned(l, valid);
    assert l'.profiles.Keys <= l.profiles.Keys;
    SubsetSize(l'.profiles.Keys, l.profiles.Keys);
  }

  lemma {:induction false} SubsetSize(a: set<nat>, b: set<nat>)
    requires a <= b
    ensures |a| <= |b|
    decreases |a|
  {
    if a != {} {
      var x :| x in a;
      SubsetSize(a - {x}, b - {x});
    }
  }

  lemma {:induction false} LoadKeepsOk(l: AllowList, version: nat, s: seq<Byte>, junk: Junk, i: nat)
    requires ListOk(l)
    ensures ListOk(LoadRecords(l, version, s, junk, i))
    decreases |s|
  {
    var n := RecordSizeOf(version);
    if |s| >= n {
      var p := Migrate(version, OnStack(s[..n], junk(i)));
      SetKeepsOk(l, p);
      LoadKeepsOk(SetProfile(l, p).0, version, s[n..], junk, i + 1);
    }
  }

  // ----- migration changes what it should -----

  /** A patch is seen inside its range and nowhere else. */
  lemma PatchAt(p: seq<Byte>, at: nat, b: seq<Byte>, i: nat)
    requires at + |b| <= |p| && i < |p|
    ensures Patch(p, at, b)[i] == if at <= i < at + |b| then b[i - at] else p[i]
  {
  }

  /** Byte by byte: the version, the domain if it is the old one, and the flags of a root profile; nothing else. */
  lemma MigrateAt(version: nat, p: Profile, i: nat)
    requires i < PROFILE_SIZE
    ensures Migrate(version, p)[i] ==
            if i < 4 then Le(PROFILE_VER, 4)[i]
            else if 704 <= i < 768 && RenamesDomain(version, p) then (KSU_DOMAIN + Zeros(53))[i - 704]
            else if 776 <= i && (version == 2 || version == 3) && AllowSu(p) then Le(1, 8)[i - 776]
            else p[i]
  {
    var q := Renamed(version, p);
    if RenamesDomain(version, p) {
      PatchAt(p, 704, KSU_DOMAIN + Zeros(53), i);
      PatchAt(p, 704, KSU_DOMAIN + Zeros(53), 264);
    }
    var r := Flagged(version, q);
    if (version == 2 || version == 3) && AllowSu(q) { PatchAt(q, 776, Le(1, 8), i); }
    PatchAt(r, 0, Le(PROFILE_VER, 4), i);
  }

  /** A migrated profile has the current version and the same uid. */
  lemma MigrateFields(version: nat, p: Profile)
    ensures Version(Migrate(version, p)) == PROFILE_VER && Uid(Migrate(version, p)) == Uid(p)
    ensures AllowSu(Migrate(version, p)) == AllowSu(p)
  {
    var m := Migrate(version, p);
    forall i | 0 <= i < 4
      ensures m[i] == Le(PROFILE_VER, 4)[i]
    {
      MigrateAt(version, p, i);
    }
    assert m[0..4] == Le(PROFILE_VER, 4);
    Widths();
    LeThenUnLe(PROFILE_VER, 4);
    forall i | 260 <= i < 264
      ensures m[i] == p[i]
    {
      MigrateAt(version, p, i);
    }
    assert m[260..264] == p[260..264];
    MigrateAt(version, p, 264);
  }

  /** Migrating a profile of the current version changes nothing. */
  lemma MigrateCurrent(p: Profile)
    requires Version(p) == PROFILE_VER
    ensures Migrate(PROFILE_VER, p) == p
  {
    UnLeThenLe(p[0..4]);
    forall i | 0 <= i < PROFILE_SIZE
      ensures Migrate(PROFILE_VER, p)[i] == p[i]
    {
      MigrateAt(PROFILE_VER, p, i);
      if i < 4 { assert p[0..4][i] == p[i]; }
    }
  }

  // ----- saving and loading -----

  /** The entries of some uids, in a list that was empty before. */
  function Part(l: AllowList, done: set<nat>): AllowList {
    AllowList(map u | u in l.profiles && u in done :: l.profiles[u],
              if PRESERVE_UID in l.profiles && PRESERVE_UID in done then Umount(l.profiles[PRESERVE_UID]) else true)
  }

  lemma PartGrows(l: AllowList, done: set<nat>, u: nat)
    requires u in l.profiles && u !in done
    ensures Part(l, done).profiles[u := l.profiles[u]] == Part(l, done + {u}).profiles
    ensures u !in Part(l, done).profiles && |Part(l, done).profiles| < |l.profiles|
  {
    var before := Part(l, done).profiles;
    assert before.Keys <= l.profiles.Keys - {u};
    SubsetSize(before.Keys, l.profiles.Keys - {u});
  }

  /** Setting an entry that was saved puts exactly that entry back. */
  lemma SetOne(l: AllowList, done: set<nat>, u: nat)
    requires ListOk(l) && u in l.profiles && u !in done
    ensures SetProfile(Part(l, done), l.profiles[u]).0 == Part(l, done + {u})
  {
    PartGrows(l, done, u);
    assert EntryOk(u, l.profiles[u]);
  }

  function Uids(order: seq<nat>): set<nat> {
    set u | u in order
  }

  /** The walk from its first uid on. */
  lemma WalkFront(l: AllowList, done: set<nat>, order: seq<nat>)
    requires order != [] && forall u :: u in order ==> u in l.profiles
    ensures done + Uids(order) == done + {order[0]} + Uids(order[1..])
    ensures |ProfilesBytes(l, order)| >= PROFILE_SIZE
    ensures ProfilesBytes(l, order)[..PROFILE_SIZE] == l.profiles[order[0]]
    ensures ProfilesBytes(l, order)[PROFILE_SIZE..] == ProfilesBytes(l, order[1..])
  {
  }

  /** One turn of the load loop on a record of the current version. */
  lemma LoadTurn(l: AllowList, p: Profile, s: seq<Byte>, rest: seq<Byte>, junk: Junk, i: nat)
    requires |s| >= PROFILE_SIZE && s[..PROFILE_SIZE] == p && s[PROFILE_SIZE..] == rest && Version(p) == PROFILE_VER
    ensures LoadRecords(l, PROFILE_VER, s, junk, i) == LoadRecords(SetProfile(l, p).0, PROFILE_VER, rest, junk, i + 1)
  {
    MigrateCurrent(p);
    assert OnStack(s[..PROFILE_SIZE], junk(i)) == p;
  }

  /** Uids still to be loaded: entries of the list, each once. */
  ghost predicate ToLoad(l: AllowList, done: set<nat>, order: seq<nat>) {
    && (forall u :: u in order ==> u in l.profiles && u !in done)
    && (forall i, j :: 0 <= i < j < |order| ==> order[i] != order[j])
  }

  lemma ToLoadNext(l: AllowList, done: set<nat>, order: seq<nat>)
    requires ToLoad(l, done, order) && order != []
    ensures ToLoad(l, done + {order[0]}, order[1..])
  {
    forall u | u in order[1..]
      ensures u in l.profiles && u !in done + {order[0]}
    {
      var i :| 0 <= i < |order[1..]| && order[1..][i] == u;
      assert order[i + 1] == u;
    }
  }

  lemma {:induction false} LoadWalk(l: AllowList, done: set<nat>, order: seq<nat>, junk: Junk, i: nat)
    requires ListOk(l) && ToLoad(l, done, order)
    ensures LoadRecords(Part(l, done), PROFILE_VER, ProfilesBytes(l, order), junk, i) == Part(l, done + Uids(order))
    decreases |order|
  {
    if order == [] {
      assert done + Uids(order) == done;
    } else {
      var u := order[0];
      WalkFront(l, done, order);
      assert EntryOk(u, l.profiles[u]);
      LoadTurn(Part(l, done), l.profiles[u], ProfilesBytes(l, order), ProfilesBytes(l, order[1..]), junk, i);
      SetOne(l, done, u);
      ToLoadNext(l, done, order);
      LoadWalk(l, done + {u}, order[1..], junk, i + 1);
    }
  }

  /** A file as it is written: its header, and its records. */
  lemma SavedHeader(l: AllowList, order: seq<nat>)
    requires WalkOf(l, order)
    ensures var f := Saved(l, order);
            |f| >= 8 && UnLe(f[0..4]) == FILE_MAGIC && UnLe(f[4..8]) == PROFILE_VER && f[8..] == ProfilesBytes(l, order)
  {
    var f := Saved(l, order);
    Widths();
    LeThenUnLe(FILE_MAGIC, 4);
    LeThenUnLe(PROFILE_VER, 4);
    assert f[0..4] == Le(FILE_MAGIC, 4) && f[4..8] == Le(PROFILE_VER, 4);
  }

  lemma PartEnds(l: AllowList, order: seq<nat>)
    requires ListOk(l) && WalkOf(l, order)
    ensures Part(l, {}) == EMPTY && Part(l, {} + Uids(order)) == l
  {
    assert Part(l, {} + Uids(order)).profiles == l.profiles;
  }

  /** Saving any list and loading it into an empty table gives the same map and the same default. */
  lemma SaveThenLoad(l: AllowList, order: seq<nat>, junk: Junk)
    requires ListOk(l) && WalkOf(l, order)
    ensures Loaded(EMPTY, Saved(l, order), junk) == (l, false)
  {
    SavedHeader(l, order);
    PartEnds(l, order);
    LoadWalk(l, {}, order, junk, 0);
  }

  /** A file of version 2 or 3 is migrated once: what is then saved loads unchanged, and is not written again. */
  lemma MigratesOnce(f: seq<Byte>, junk: Junk, order: seq<nat>, junk2: Junk)
    requires WalkOf(Loaded(EMPTY, f, junk).0, order)
    ensures var l := Loaded(EMPTY, f, junk).0; Loaded(EMPTY, Saved(l, order), junk2) == (l, false)
  {
    LoadedKeepsOk(EMPTY, f, junk);
    SaveThenLoad(Loaded(EMPTY, f, junk).0, order, junk2);
  }

  /** A change of the list: a set with any argument, a prune, or a load of any file. */
  datatype Change = Set(p: Profile) | Prune(valid: set<nat>) | Load(f: seq<Byte>, junk: Junk)

  function Changed(l: AllowList, c: Change): AllowList {
    match c
    case Set(p) => SetProfile(l, p).0
    case Prune(valid) => Pruned(l, valid)
    case Load(f, junk) => Loaded(l, f, junk).0
  }

  function Run(changes: seq<Change>): AllowList
    decreases |changes|
  {
    if changes == [] then EMPTY else Changed(Run(changes[..|changes| - 1]), changes[|changes| - 1])
  }

  lemma ChangeKeepsOk(l: AllowList, c: Change)
    requires ListOk(l)
    ensures ListOk(Changed(l, c))
  {
    match c
    case Set(p) => SetKeepsOk(l, p);
    case Prune(valid) => PruneKeepsOk(l, valid);
    case Load(f, junk) => LoadedKeepsOk(l, f, junk);
  }

  lemma LoadedKeepsOk(l: AllowList, f: seq<Byte>, junk: Junk)
    requires ListOk(l)
    ensures ListOk(Loaded(l, f, junk).0)
  {
    if |f| >= 8 { LoadKeepsOk(l, UnLe(f[4..8]), f[8..], junk, 0); }
  }

  lemma {:induction false} RunIsOk(changes: seq<Change>)
    ensures ListOk(Run(changes))
    decreases |changes|
  {
    if changes != [] {
      RunIsOk(changes[..|changes| - 1]);
      ChangeKeepsOk(Run(changes[..|changes| - 1]), changes[|changes| - 1]);
    }
  }

  /** Every reachable list survives a save and a load. */
  lemma ReachableSurvives(changes: seq<Change>, order: seq<nat>, junk: Junk)
    requires WalkOf(Run(changes), order)
    ensures Loaded(EMPTY, Saved(Run(changes), order), junk) == (Run(changes), false)
  {
    RunIsOk(changes);
    SaveThenLoad(Run(changes), order, junk);
  }

  // ----- setting and getting -----

  /** What is stored differs from the caller's first 776 bytes in the version, and in a renamed domain. */
  lemma StoredPrefix(user: Profile, i: nat)
    requires UserSize(Version(user)) == SIZE_PRE_V4 && i < SIZE_PRE_V4
    ensures var p: Profile := user[..SIZE_PRE_V4] + Zeros(PROFILE_SIZE - SIZE_PRE_V4);
            && Version(p) == Version(user) && Uid(p) == Uid(user)
            && Uid(Incoming(p)) == Uid(user)
            && Incoming(p)[i] ==
               if i < 4 then Le(PROFILE_VER, 4)[i]
               else if 704 <= i < 768 && RenamesDomain(Version(user), user) then (KSU_DOMAIN + Zeros(53))[i - 704]
               else user[i]
  {
    var p: Profile := user[..SIZE_PRE_V4] + Zeros(PROFILE_SIZE - SIZE_PRE_V4);
    assert p[0..4] == user[0..4] && p[260..264] == user[260..264] && Domain(p) == Domain(user);
    MigrateAt(Version(p), p, i);
    MigrateFields(Version(p), p);
  }

  /** An accepted set, then a get with the same structure: the caller's bytes come back, but for a renamed domain. */
  lemma SetThenGet(l: AllowList, user: Profile)
    requires DoSet(l, user).1 == 0
    ensures var (out, ret) := DoGet(DoSet(l, user).0, user);
            ret == 0 && (out == user <==> !RenamesDomain(Version(user), user))
  {
    if Version(user) == PROFILE_VER {
      SetThenGetCurrent(l, user);
    } else {
      SetThenGetOld(l, user);
    }
  }

  lemma SetThenGetCurrent(l: AllowList, user: Profile)
    requires DoSet(l, user).1 == 0 && Version(user) == PROFILE_VER
    ensures DoGet(DoSet(l, user).0, user) == (user, 0)
  {
    assert user[..PROFILE_SIZE] + Zeros(0) == user;
    assert Patch(user, 0, user[..PROFILE_SIZE]) == user;
  }

  lemma SetThenGetOld(l: AllowList, user: Profile)
    requires DoSet(l, user).1 == 0 && Version(user) != PROFILE_VER
    ensures DoGet(DoSet(l, user).0, user).1 == 0
    ensures DoGet(DoSet(l, user).0, user).0 == user <==> !RenamesDomain(Version(user), user)
  {
    StoredPrefix(user, 0);
    forall i | 0 <= i < PROFILE_SIZE
      ensures DoGet(DoSet(l, user).0, user).0[i] == GotAt(user, i)
    {
      GotByte(l, user, i);
    }
    SameUnlessRenamed(user, DoGet(DoSet(l, user).0, user).0);
  }

  /** What a get returns at place i of the structure that was set. */
  function GotAt(user: Profile, i: nat): Byte
    requires i < PROFILE_SIZE
  {
    if 704 <= i < 768 && RenamesDomain(Version(user), user) then (KSU_DOMAIN + Zeros(53))[i - 704] else user[i]
  }

  lemma SameUnlessRenamed(user: Profile, out: Profile)
    requires forall i :: 0 <= i < PROFILE_SIZE ==> out[i] == GotAt(user, i)
    ensures out == user <==> !RenamesDomain(Version(user), user)
  {
    if RenamesDomain(Version(user), user) {
      assert Domain(user)[..10][4] == user[708];
      assert out[708] == GotAt(user, 708);
    }
  }

  lemma GotByte(l: AllowList, user: Profile, i: nat)
    requires DoSet(l, user).1 == 0 && UserSize(Version(user)) == SIZE_PRE_V4 && i < PROFILE_SIZE
    ensures DoGet(DoSet(l, user).0, user).0[i] == GotAt(user, i)
  {
    StoredPrefix(user, if i < SIZE_PRE_V4 then i else 0);
    var p := DoSet(l, user).0.profiles[Uid(user)];
    var out := Patch(p, 0, Le(Version(user), 4));
    PatchAt(p, 0, Le(Version(user), 4), i);
    PatchAt(user, 0, out[..SIZE_PRE_V4], i);
    UnLeThenLe(user[0..4]);
    assert user[0..4] == Le(Version(user), 4);
    if i < 4 { assert user[0..4][i] == user[i]; }
  }
}
