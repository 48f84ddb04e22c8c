/**
 What an old allowlist file leaves to the stack (kernel/policy/allowlist.c:471-533): a record of version 2 or 3 ends
 before the last 8 bytes of the profile it is read into, and migration sets those only for apps with root.
 */
module AllowStack {
  import opened Bytes
  import opened AllowProfiles

  const NO_JUNK: Junk := (i: nat) => Zeros(PROFILE_SIZE - SIZE_PRE_V4)

  const ONES: Junk := (i: nat) => seq(PROFILE_SIZE - SIZE_PRE_V4, _ => 1)

  /** The profile with other last bytes. */
  function WithTail(p: Profile, tail: Slack): Profile {
    p[..SIZE_PRE_V4] + tail
  }

  // ----- one record -----

  /** An old record of an app without root is stored with the bytes of the stack, one of an app with root without. */
  lemma MigratedTail(version: nat, r: seq<Byte>, a: Slack)
    requires |r| == SIZE_PRE_V4 && (version == 2 || version == 3)
    ensures var zero := Migrate(version, OnStack(r, NO_JUNK(0)));
            Migrate(version, OnStack(r, a)) == if AllowSu(r) then zero else WithTail(zero, a)
  {
    var p, q := OnStack(r, a), OnStack(r, NO_JUNK(0));
    SamePrefix(r, a, NO_JUNK(0));
    forall i | 0 <= i < PROFILE_SIZE
      ensures Migrate(version, p)[i] == if AllowSu(r) || i < SIZE_PRE_V4 then Migrate(version, q)[i] else a[i - SIZE_PRE_V4]
    {
      MigrateAt(version, p, i);
      MigrateAt(version, q, i);
    }
  }

  lemma SamePrefix(r: seq<Byte>, a: Slack, b: Slack)
    requires |r| == SIZE_PRE_V4
    ensures var p, q := OnStack(r, a), OnStack(r, b);
            && (forall i :: 0 <= i < SIZE_PRE_V4 ==> p[i] == q[i] == r[i])
            && AllowSu(p) == AllowSu(r) && AllowSu(q) == AllowSu(r) && Domain(p) == Domain(q)
  {
  }

  /** The fields that decide about a profile lie before its last bytes. */
  lemma TailDecidesNothing(p: Profile, tail: Slack)
    ensures var q := WithTail(p, tail);
            && Version(q) == Version(p) && Uid(q) == Uid(p) && AllowSu(q) == AllowSu(p) && Umount(q) == Umount(p)
            && KeyIsDollar(q) == KeyIsDollar(p) && ProfileValid(q) == ProfileValid(p)
  {
    var q := WithTail(p, tail);
    assert q[0..4] == p[0..4] && q[260..264] == p[260..264] && q[4..260] == p[4..260];
    assert q[544..548] == p[544..548] && Domain(q) == Domain(p);
  }

  /** A current profile is set as it is. */
  lemma SetCurrent(l: AllowList, p: Profile)
    requires Version(p) == PROFILE_VER
    ensures SetProfile(l, p).1 == 0 ==>
              SetProfile(l, p).0 == AllowList(l.profiles[Uid(p) := p], if Uid(p) == PRESERVE_UID then Umount(p) else l.umount)
    ensures SetProfile(l, p).1 != 0 ==> SetProfile(l, p).0 == l
  {
  }

  /** The stored list shows the stack if and only if the record is accepted and its app has no root. */
  lemma JunkIsStored(l: AllowList, version: nat, r: seq<Byte>, a: Slack, b: Slack)
    requires |r| == SIZE_PRE_V4 && (version == 2 || version == 3) && a != b
    ensures SetProfile(l, Migrate(version, OnStack(r, a))).0 == SetProfile(l, Migrate(version, OnStack(r, b))).0 <==>
            AllowSu(r) || SetProfile(l, Migrate(version, OnStack(r, a))).1 != 0
  {
    var zero := Migrate(version, OnStack(r, NO_JUNK(0)));
    MigratedTail(version, r, a);
    MigratedTail(version, r, b);
    if !AllowSu(r) {
      MigrateFields(version, OnStack(r, NO_JUNK(0)));
      SetSeesTail(l, zero, a, b);
    }
  }

  lemma SetSeesTail(l: AllowList, p: Profile, a: Slack, b: Slack)
    requires Version(p) == PROFILE_VER && a != b
    ensures SetProfile(l, WithTail(p, a)).0 == SetProfile(l, WithTail(p, b)).0 <==> SetProfile(l, WithTail(p, a)).1 != 0
  {
    TailDecidesNothing(p, a);
    TailDecidesNothing(p, b);
    var x, y := WithTail(p, a), WithTail(p, b);
    assert x[SIZE_PRE_V4..] == a && y[SIZE_PRE_V4..] == b;
    SetCurrent(l, x);
    SetCurrent(l, y);
    if SetProfile(l, x).1 == 0 {
      assert SetProfile(l, x).0.profiles[Uid(p)] == x && SetProfile(l, y).0.profiles[Uid(p)] == y;
    }
  }

  // ----- a whole file -----

  /** Which entries end with bytes of the stack, and from which turn of the load loop. */
  type Stale = map<nat, nat>

  /** The list with the bytes that the stack had in those turns. */
  function Filled(l: AllowList, stale: Stale, junk: Junk): AllowList {
    l.(profiles := map u | u in l.profiles :: if u in stale then WithTail(l.profiles[u], junk(stale[u])) else l.profiles[u])
  }

  /** One turn on a zeroed stack: an accepted record of an app without root makes its entry stale, others make it clean. */
  function StaleAfter(l: AllowList, version: nat, r: seq<Byte>, i: nat, stale: Stale): Stale
    requires |r| == SIZE_PRE_V4
  {
    var p := Migrate(version, OnStack(r, NO_JUNK(i)));
    if SetProfile(l, p).1 != 0 then stale else if AllowSu(r) then stale - {Uid(p)} else stale[Uid(p) := i]
  }

  /** The stale entries after all records: it takes the file and the list alone to tell. */
  function StaleIn(l: AllowList, version: nat, s: seq<Byte>, i: nat, stale: Stale): Stale
    decreases |s|
  {
    if version >= PROFILE_VER || |s| < SIZE_PRE_V4 then stale
    else
      var r := s[..SIZE_PRE_V4];
      StaleIn(SetProfile(l, Migrate(version, OnStack(r, NO_JUNK(i)))).0, version, s[SIZE_PRE_V4..], i + 1,
              StaleAfter(l, version, r, i, stale))
  }

  lemma FilledKeys(l: AllowList, stale: Stale, junk: Junk)
    ensures Filled(l, stale, junk).profiles.Keys == l.profiles.Keys
    ensures |Filled(l, stale, junk).profiles| == |l.profiles|
  {
    assert Filled(l, stale, junk).profiles.Keys == l.profiles.Keys;
  }

  /** Entering a profile makes its entry clean; entering it with bytes of the stack makes the entry stale. */
  lemma FilledUpdate(m: map<nat, Profile>, umount: bool, stale: Stale, junk: Junk, u: nat, p: Profile, i: nat)
    ensures Filled(AllowList(m, umount), stale, junk).profiles[u := p] ==
            Filled(AllowList(m[u := p], umount), stale - {u}, junk).profiles
    ensures Filled(AllowList(m[u := WithTail(p, junk(i))], umount), stale - {u}, junk).profiles ==
            Filled(AllowList(m[u := p], umount), stale[u := i], junk).profiles
  {
  }

  /** Whether a set is accepted does not depend on the last bytes of the entries. */
  lemma SetFilledResult(l: AllowList, stale: Stale, junk: Junk, p: Profile)
    requires Version(p) == PROFILE_VER
    ensures SetProfile(Filled(l, stale, junk), p).1 == SetProfile(l, p).1
  {
    FilledKeys(l, stale, junk);
  }

  /** A set of the same profile, seen in a list with other last bytes. */
  lemma SetFilled(l: AllowList, stale: Stale, junk: Junk, p: Profile)
    requires Version(p) == PROFILE_VER
    ensures SetProfile(l, p).1 == 0 ==>
              SetProfile(Filled(l, stale, junk), p).0 == Filled(SetProfile(l, p).0, stale - {Uid(p)}, junk)
    ensures SetProfile(l, p).1 != 0 ==> SetProfile(Filled(l, stale, junk), p).0 == Filled(l, stale, junk)
  {
    SetFilledResult(l, stale, junk, p);
    SetCurrent(l, p);
    SetCurrent(Filled(l, stale, junk), p);
    FilledUpdate(l.profiles, l.umount, stale, junk, Uid(p), p, 0);
  }

  /** The same with the last bytes of the stack: the entry is stale from here on. */
  lemma SetTail(l: AllowList, stale: Stale, junk: Junk, p: Profile, i: nat)
    requires Version(p) == PROFILE_VER
    ensures SetProfile(l, WithTail(p, junk(i))).1 == SetProfile(l, p).1
    ensures SetProfile(l, p).1 == 0 ==>
              Filled(SetProfile(l, WithTail(p, junk(i))).0, stale - {Uid(p)}, junk) ==
              Filled(SetProfile(l, p).0, stale[Uid(p) := i], junk)
  {
    TailDecidesNothing(p, junk(i));
    SetCurrent(l, p);
    SetCurrent(l, WithTail(p, junk(i)));
    FilledUpdate(l.profiles, l.umount, stale, junk, Uid(p), p, i);
  }

  /** One turn of the load loop, on any stack and on a zeroed one. */
  lemma TurnIsFilled(l: AllowList, version: nat, r: seq<Byte>, i: nat, stale: Stale, junk: Junk)
    requires |r| == SIZE_PRE_V4 && (version == 2 || version == 3)
    ensures SetProfile(Filled(l, stale, junk), Migrate(version, OnStack(r, junk(i)))).0 ==
            Filled(SetProfile(l, Migrate(version, OnStack(r, NO_JUNK(i)))).0, StaleAfter(l, version, r, i, stale), junk)
  {
    var p := Migrate(version, OnStack(r, NO_JUNK(i)));
    MigrateFields(version, OnStack(r, NO_JUNK(i)));
    MigratedTail(version, r, junk(i));
    if AllowSu(r) {
      SetFilled(l, stale, junk, p);
    } else {
      TailDecidesNothing(p, junk(i));
      SetFilled(l, stale, junk, WithTail(p, junk(i)));
      SetTail(l, stale, junk, p, i);
      SetCurrent(l, p);
    }
  }

  /** What a load makes of an old file is what it makes of it on a zeroed stack, with the stale entries filled in. */
  lemma {:induction false} LoadIsFilled(l: AllowList, version: nat, s: seq<Byte>, i: nat, stale: Stale, junk: Junk)
    requires version == 2 || version == 3
    ensures LoadRecords(Filled(l, stale, junk), version, s, junk, i) ==
            Filled(LoadRecords(l, version, s, NO_JUNK, i), StaleIn(l, version, s, i, stale), junk)
    decreases |s|
  {
    if |s| >= SIZE_PRE_V4 {
      var r := s[..SIZE_PRE_V4];
      TurnIsFilled(l, version, r, i, stale, junk);
      LoadIsFilled(SetProfile(l, Migrate(version, OnStack(r, NO_JUNK(i)))).0, version, s[SIZE_PRE_V4..], i + 1,
                   StaleAfter(l, version, r, i, stale), junk);
    }
  }

  /** Stale entries are entries. */
  lemma {:induction false} StaleAreEntries(l: AllowList, version: nat, s: seq<Byte>, i: nat, stale: Stale)
    requires (version == 2 || version == 3) && stale.Keys <= l.profiles.Keys
    ensures StaleIn(l, version, s, i, stale).Keys <= LoadRecords(l, version, s, NO_JUNK, i).profiles.Keys
    decreases |s|
  {
    if |s| >= SIZE_PRE_V4 {
      var r := s[..SIZE_PRE_V4];
      var p := Migrate(version, OnStack(r, NO_JUNK(i)));
      MigrateFields(version, OnStack(r, NO_JUNK(i)));
      SetCurrent(l, p);
      StaleAreEntries(SetProfile(l, p).0, version, s[SIZE_PRE_V4..], i + 1, StaleAfter(l, version, r, i, stale));
    }
  }

  /** A record of the current version covers the whole profile. */
  lemma {:induction false} CurrentHasNoJunk(l: AllowList, version: nat, s: seq<Byte>, i: nat, a: Junk, b: Junk)
    requires version >= PROFILE_VER
    ensures LoadRecords(l, version, s, a, i) == LoadRecords(l, version, s, b, i)
    decreases |s|
  {
    if |s| >= PROFILE_SIZE {
      var p := Migrate(version, OnStack(s[..PROFILE_SIZE], a(i)));
      CurrentHasNoJunk(SetProfile(l, p).0, version, s[PROFILE_SIZE..], i + 1, a, b);
    }
  }

  /** The stale entries that a file leaves in a list. */
  function StaleOf(l: AllowList, f: seq<Byte>): Stale {
    if |f| < 8 || UnLe(f[0..4]) != FILE_MAGIC || UnLe(f[4..8]) < 2 then map[]
    else StaleIn(l, UnLe(f[4..8]), f[8..], 0, map[])
  }

  /** The stack had the same bytes in the turns of the stale entries. */
  predicate Alike(stale: Stale, a: Junk, b: Junk) {
    forall u :: u in stale ==> a(stale[u]) == b(stale[u])
  }

  lemma OldLoadsAgree(l: AllowList, version: nat, s: seq<Byte>, a: Junk, b: Junk)
    requires version == 2 || version == 3
    ensures var stale := StaleIn(l, version, s, 0, map[]);
            LoadRecords(l, version, s, a, 0) == LoadRecords(l, version, s, b, 0) <==> Alike(stale, a, b)
  {
    assert Filled(l, map[], a) == l && Filled(l, map[], b) == l;
    LoadIsFilled(l, version, s, 0, map[], a);
    LoadIsFilled(l, version, s, 0, map[], b);
    StaleAreEntries(l, version, s, 0, map[]);
    FilledAgree(LoadRecords(l, version, s, NO_JUNK, 0), StaleIn(l, version, s, 0, map[]), a, b);
  }

  /** Two loads give the same list if and only if the stack had the same bytes in the turns of the stale entries. */
  lemma LoadsAgree(l: AllowList, f: seq<Byte>, a: Junk, b: Junk)
    ensures Loaded(l, f, a).0 == Loaded(l, f, b).0 <==> Alike(StaleOf(l, f), a, b)
  {
    if |f| >= 8 && UnLe(f[0..4]) == FILE_MAGIC && 2 <= UnLe(f[4..8]) <= PROFILE_VER {
      var version, s := UnLe(f[4..8]), f[8..];
      if version == PROFILE_VER {
        CurrentHasNoJunk(l, version, s, 0, a, b);
      } else {
        OldLoadsAgree(l, version, s, a, b);
      }
    }
  }

  lemma FilledAgree(l: AllowList, stale: Stale, a: Junk, b: Junk)
    requires stale.Keys <= l.profiles.Keys
    ensures Filled(l, stale, a) == Filled(l, stale, b) <==> Alike(stale, a, b)
  {
    var x, y := Filled(l, stale, a), Filled(l, stale, b);
    if x == y {
      forall u | u in stale
        ensures a(stale[u]) == b(stale[u])
      {
        assert u in l.profiles && x.profiles[u][SIZE_PRE_V4..] == a(stale[u]) && y.profiles[u][SIZE_PRE_V4..] == b(stale[u]);
      }
    } else {
      assert x.profiles.Keys == y.profiles.Keys;
    }
  }

  /** The loaded list never depends on the stack if and only if the file leaves no stale entry. */
  lemma StackMatters(l: AllowList, f: seq<Byte>)
    ensures (forall a: Junk, b: Junk :: Loaded(l, f, a).0 == Loaded(l, f, b).0) <==> StaleOf(l, f) == map[]
  {
    forall a: Junk, b: Junk
      ensures StaleOf(l, f) == map[] ==> Loaded(l, f, a).0 == Loaded(l, f, b).0
    {
      LoadsAgree(l, f, a, b);
    }
    LoadsAgree(l, f, NO_JUNK, ONES);
    if StaleOf(l, f) != map[] {
      var u :| u in StaleOf(l, f);
      assert NO_JUNK(StaleOf(l, f)[u])[0] != ONES(StaleOf(l, f)[u])[0];
    }
  }

  // ----- an old file that shows the stack -----

  /** A version 3 profile without key, uid 1, without root. */
  function PlainRecord(): (r: seq<Byte>)
    ensures |r| == SIZE_PRE_V4
  {
    seq(SIZE_PRE_V4, i => if i == 0 then 3 else if i == 260 then 1 else 0)
  }

  function OldFile(): seq<Byte> {
    Le(FILE_MAGIC, 4) + Le(3, 4) + PlainRecord()
  }

  lemma PlainIsAccepted()
    ensures !AllowSu(PlainRecord()) && SetProfile(EMPTY, Migrate(3, OnStack(PlainRecord(), NO_JUNK(0)))).1 == 0
    ensures Uid(Migrate(3, OnStack(PlainRecord(), NO_JUNK(0)))) == 1
  {
    var p := OnStack(PlainRecord(), NO_JUNK(0));
    var m := Migrate(3, p);
    MigrateFields(3, p);
    UidBytes(p[260..264]);
    MigrateAt(3, p, 4);
    MigrateAt(3, p, 264);
    assert m[4] == 0 && m[4..260][0] == m[4];
    assert m[264] == 0;
  }

  lemma UidBytes(s: seq<Byte>)
    requires |s| == 4 && s[0] == 1 && s[1] == s[2] == s[3] == 0
    ensures UnLe(s) == 1
  {
    assert s[1..][1..][1..][1..] == [];
    assert UnLe(s[1..][1..][1..]) == 0 && UnLe(s[1..][1..]) == 0 && UnLe(s[1..]) == 0;
  }

  lemma OldFileHeader()
    ensures var f := OldFile(); |f| >= 8 && UnLe(f[0..4]) == FILE_MAGIC && UnLe(f[4..8]) == 3 && f[8..] == PlainRecord()
  {
    var f := OldFile();
    Widths();
    LeThenUnLe(FILE_MAGIC, 4);
    LeThenUnLe(3, 4);
    assert f[0..4] == Le(FILE_MAGIC, 4) && f[4..8] == Le(3, 4);
  }

  lemma OneStaleRecord()
    ensures StaleIn(EMPTY, 3, PlainRecord(), 0, map[]) == map[1 := 0]
  {
    var r := PlainRecord();
    PlainIsAccepted();
    assert r[..SIZE_PRE_V4] == r && r[SIZE_PRE_V4..] == [];
    assert StaleAfter(EMPTY, 3, r, 0, map[]) == map[1 := 0];
  }

  /** This file loads differently with zeros and with ones on the stack. */
  lemma OldFileShowsTheStack()
    ensures StaleOf(EMPTY, OldFile()) == map[1 := 0]
    ensures Loaded(EMPTY, OldFile(), NO_JUNK).0 != Loaded(EMPTY, OldFile(), ONES).0
  {
    OldFileHeader();
    OneStaleRecord();
    LoadsAgree(EMPTY, OldFile(), NO_JUNK, ONES);
    assert NO_JUNK(0)[0] != ONES(0)[0];
  }

  // ----- a profile that does not come back -----

  /** A version 2 root profile without key, uid 1, in the old su domain. */
  function SuProfile(): Profile {
    seq(PROFILE_SIZE, i requires 0 <= i < PROFILE_SIZE =>
      if i == 0 then 2 else if i == 260 || i == 264 then 1 else if 704 <= i < 714 then SU_DOMAIN[i - 704] else 0)
  }

  lemma VersionBytes(s: seq<Byte>)
    requires |s| == 4 && s[0] == 2 && s[1] == s[2] == s[3] == 0
    ensures UnLe(s) == 2
  {
    assert s[1..][1..][1..][1..] == [];
    assert UnLe(s[1..][1..][1..]) == 0 && UnLe(s[1..][1..]) == 0 && UnLe(s[1..]) == 0;
  }

  lemma ZeroBytes(s: seq<Byte>)
    requires |s| == 4 && s[0] == s[1] == s[2] == s[3] == 0
    ensures UnLe(s) == 0
  {
    assert s[1..][1..][1..][1..] == [];
    assert UnLe(s[1..][1..][1..]) == 0 && UnLe(s[1..][1..]) == 0 && UnLe(s[1..]) == 0;
  }

  lemma SuProfileFields()
    ensures var u := SuProfile(); Version(u) == 2 && Uid(u) == 1 && RenamesDomain(2, u) && GroupsCount(u) == 0
  {
    var u := SuProfile();
    VersionBytes(u[0..4]);
    UidBytes(u[260..264]);
    ZeroBytes(u[544..548]);
    assert u[704..714] == SU_DOMAIN && Domain(u)[..10] == u[704..714];
  }

  /** What the set makes of it is valid: it has a key, no groups and a domain that ends. */
  lemma SuProfileMigrates()
    ensures ProfileValid(Migrate(2, SuProfile())) && Uid(Migrate(2, SuProfile())) == 1
  {
    var u := SuProfile();
    SuProfileFields();
    var m := Migrate(2, u);
    MigrateFields(2, u);
    MigrateAt(2, u, 4);
    assert m[4] == 0 && m[4..260][0] == m[4];
    MigrateAt(2, u, 704);
    MigrateAt(2, u, 714);
    assert Domain(m)[0] == m[704] && Domain(m)[10] == m[714];
    forall i | 544 <= i < 548
      ensures m[i] == 0
    {
      MigrateAt(2, u, i);
    }
    ZeroBytes(m[544..548]);
  }

  lemma SuProfileIsAccepted()
    ensures DoSet(EMPTY, SuProfile()).1 == 0
  {
    var u := SuProfile();
    SuProfileFields();
    SuProfileMigrates();
    assert u[..SIZE_PRE_V4] + Zeros(PROFILE_SIZE - SIZE_PRE_V4) == u;
  }

  /** It is accepted, and does not come back as it was. */
  lemma SuProfileComesBackChanged()
    ensures RenamesDomain(Version(SuProfile()), SuProfile()) && DoSet(EMPTY, SuProfile()).1 == 0
    ensures DoGet(DoSet(EMPTY, SuProfile()).0, SuProfile()).0 != SuProfile()
  {
    SuProfileFields();
    SuProfileIsAccepted();
    SetThenGet(EMPTY, SuProfile());
  }
}
