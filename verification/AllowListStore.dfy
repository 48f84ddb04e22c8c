/** The allowlist's operations in place: profiles are buffers that are migrated and copied, the list is updated. */
module AllowListStores {
  import opened Bytes
  import opened AllowProfiles

  /** Overwrite part of a buffer. */
  method Overwrite(buf: array<Byte>, at: nat, b: seq<Byte>)
    requires at + |b| <= buf.Length
    modifies buf
    ensures buf[..] == Patch(old(buf[..]), at, b)
  {
    ghost var was := buf[..];
    for i := 0 to |b|
      invariant buf[..at + i] == was[..at] + b[..i] && buf[at + i..] == was[at + i..]
    {
      buf[at + i] := b[i];
    }
    assert buf[..] == buf[..at + |b|] + buf[at + |b|..];
  }

  /** `migrate_profile`, with its fall-through from version 2 to version 3. */
  method MigrateProfile(version: nat, profile: array<Byte>)
    requires profile.Length == PROFILE_SIZE
    modifies profile
    ensures profile[..] == Migrate(version, old(profile[..]))
  {
    ghost var was: Profile := profile[..];
    if version == 2 && profile[264] != 0 && profile[704..714] == SU_DOMAIN {
      assert Domain(was)[..10] == profile[704..714];
      Overwrite(profile, 704, KSU_DOMAIN + Zeros(53));
    } else {
      assert Domain(was)[..10] == profile[704..714];
    }
    assert profile[..] == Renamed(version, was);
    if (version == 2 || version == 3) && profile[264] != 0 {
      Overwrite(profile, 776, Le(1, 8));
    }
    Overwrite(profile, 0, Le(PROFILE_VER, 4));
  }

  /** Copying over the front of a zeroed profile. */
  lemma PatchFront(b: seq<Byte>)
    requires |b| <= PROFILE_SIZE
    ensures Patch(Zeros(PROFILE_SIZE), 0, b) == b + Zeros(PROFILE_SIZE - |b|)
    ensures |b| == PROFILE_SIZE ==> b + Zeros(PROFILE_SIZE - |b|) == b
  {
  }

  lemma SplitRecord(f: seq<Byte>, off: nat, n: nat)
    requires off + n <= |f|
    ensures f[off..][..n] == f[off..off + n] && f[off..][n..] == f[off + n..]
  {
  }

  lemma {:induction false} ProfilesNext(l: AllowList, order: seq<nat>, i: nat)
    requires i < |order| && forall u :: u in order ==> u in l.profiles
    ensures ProfilesBytes(l, order[..i + 1]) == ProfilesBytes(l, order[..i]) + l.profiles[order[i]]
    decreases i
  {
    assert order[..i + 1][1..] == order[1..][..i];
    if i > 0 {
      assert order[..i][1..] == order[1..][..i - 1];
      ProfilesNext(l, order[1..], i - 1);
    }
  }

  /** `ksu_set_app_profile` does not migrate again what the load loop migrated. */
  lemma MigratedIsCurrent(version: nat, p: Profile)
    ensures Incoming(Migrate(version, p)) == Migrate(version, p)
  {
    MigrateFields(version, p);
  }

  class Store {
    var profiles: map<nat, Profile>   // allow_list
    var count: nat                    // allow_list_count
    var umount: bool                  // default_non_root_profile.umount_modules

    constructor ()
      ensures Valid() && State() == EMPTY
    {
      profiles, count, umount := map[], 0, true;
    }

    ghost predicate Valid()
      reads this
    {
      count == |profiles|
    }

    function State(): AllowList
      reads this
    {
      AllowList(profiles, umount)
    }

    /** `ksu_set_app_profile`; an old profile is migrated in the caller's buffer even if it is then refused. */
    method SetAppProfile(profile: array<Byte>) returns (ret: int)
      requires Valid() && profile.Length == PROFILE_SIZE
      modifies this, profile
      ensures Valid() && (State(), ret) == SetProfile(old(State()), old(profile[..]))
      ensures profile[..] == Incoming(old(profile[..]))
    {
      ghost var was: Profile := profile[..];
      assert was[0..4] == profile[0..4];
      var version := UnLe(profile[0..4]);
      if version == 2 || version == 3 {
        MigrateProfile(version, profile);
      }
      var p: Profile := profile[..];
      if !ProfileValid(p) {
        return -EINVAL;
      }
      var uid := Uid(p);
      if uid == PRESERVE_UID && !KeyIsDollar(p) {
        return -EINVAL;
      }
      if uid !in profiles {
        if count == U16_MAX {
          return -E2BIG;
        }
        count := count + 1;
      }
      profiles := profiles[uid := p];
      if uid == PRESERVE_UID {
        umount := Umount(p);
      }
      ret := 0;
    }

    /** `do_set_app_profile`: the part that the caller's version does not have is zero; a success is persisted. */
    method DoSetAppProfile(user: Profile) returns (ret: int, persist: bool)
      requires Valid()
      modifies this
      ensures Valid() && (State(), ret) == DoSet(old(State()), user) && persist == (ret == 0)
    {
      persist := false;
      var size := UserSize(Version(user));
      if size == 0 {
        return -EINVAL, false;
      }
      var cmd := new Byte[PROFILE_SIZE](_ => 0);
      assert cmd[..] == Zeros(PROFILE_SIZE);
      Overwrite(cmd, 0, user[..size]);
      PatchFront(user[..size]);
      ret := SetAppProfile(cmd);
      if ret == 0 {
        persist := true;
      }
    }

    /** `do_get_app_profile` into the caller's structure. */
    method DoGetAppProfile(user: array<Byte>) returns (ret: int)
      requires Valid() && user.Length == PROFILE_SIZE
      modifies user
      ensures (user[..], ret) == DoGet(State(), old(user[..]))
    {
      ghost var was: Profile := user[..];
      assert user[0..4] == was[0..4] && user[260..264] == was[260..264];
      var requested_version, uid := UnLe(user[0..4]), UnLe(user[260..264]);
      var size := UserSize(requested_version);
      if size == 0 {
        return -EINVAL;
      }
      if uid !in profiles {
        return -ENOENT;
      }
      var out: seq<Byte> := profiles[uid];
      if size < PROFILE_SIZE {
        out := Patch(out, 0, Le(requested_version, 4));
      }
      Overwrite(user, 0, out[..size]);
      ret := 0;
    }

    /** `do_persistent_allow_list`: header, then every entry in the order of the hash table. */
    method Persist(order: seq<nat>) returns (f: seq<Byte>)
      requires WalkOf(State(), order)
      ensures f == Saved(State(), order)
    {
      f := Le(FILE_MAGIC, 4) + Le(PROFILE_VER, 4);
      for i := 0 to |order|
        invariant f == Le(FILE_MAGIC, 4) + Le(PROFILE_VER, 4) + ProfilesBytes(State(), order[..i])
      {
        ProfilesNext(State(), order, i);
        f := f + profiles[order[i]];
      }
      assert order[..|order|] == order;
    }

    /** One turn of the load loop, on the profile that lies on the stack. */
    method LoadOneRecord(record: seq<Byte>, version: nat, junk: Slack)
      requires Valid() && |record| == RecordSizeOf(version)
      modifies this
      ensures Valid() && State() == SetProfile(old(State()), Migrate(version, OnStack(record, junk))).0
    {
      var profile := new Byte[PROFILE_SIZE](_ => 0);
      assert profile[..] == Zeros(PROFILE_SIZE);
      Overwrite(profile, 0, OnStack(record, junk));
      PatchFront(OnStack(record, junk));
      MigrateProfile(version, profile);
      MigratedIsCurrent(version, OnStack(record, junk));
      var _ := SetAppProfile(profile);
    }

    /** `ksu_load_allow_list`; `again` when the file is written anew. */
    method LoadAllowList(f: seq<Byte>, junk: Junk) returns (again: bool)
      requires Valid()
      modifies this
      ensures Valid() && (State(), again) == Loaded(old(State()), f, junk)
    {
      if |f| < 8 || UnLe(f[0..4]) != FILE_MAGIC {
        return false;
      }
      var version := UnLe(f[4..8]);
      if version < 2 || version > PROFILE_VER {
        return false;
      }
      var off: nat, n, i: nat := 8, RecordSizeOf(version), 0;
      ghost var start := State();
      while off + n <= |f|
        invariant Valid() && 8 <= off <= |f|
        invariant LoadRecords(start, version, f[8..], junk, 0) == LoadRecords(State(), version, f[off..], junk, i)
        decreases |f| - off
      {
        SplitRecord(f, off, n);
        LoadOneRecord(f[off..off + n], version, junk(i));
        i, off := i + 1, off + n;
      }
      again := version < PROFILE_VER;
    }
  }
}
