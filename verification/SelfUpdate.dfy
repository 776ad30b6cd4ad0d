/** The self-update and rollback steps over one directory: names that point to inodes, system calls
    that can fail, and a process that can die before any call.  The hash function, the network and
    the service manager are parameters. */
module SelfUpdate {
  import opened Results

  type Bytes = seq<nat>
  type Inode = nat

  /** The names that matter, and temporary files. */
  datatype Name = Exec | Prev | Temp(k: nat)

  /** How a system call ends.  After `Died` the process executes nothing more. */
  datatype Call = Ok | NotExist | Failed | Died

  /** How an operation ends; `Error` is any non-nil error. */
  datatype Outcome = Done | Error | Dead

  /** How the k-th of the planned calls ends; calls beyond the plan are not disturbed. */
  function At(plan: seq<Call>, k: nat): (c: Call)
    ensures c != NotExist
  {
    if k < |plan| && plan[k] != NotExist then plan[k] else Ok
  }

  function Rest(plan: seq<Call>, k: nat): (r: seq<Call>)
  {
    if k <= |plan| then plan[k..] else []
  }

  lemma RestAt(plan: seq<Call>, j: nat, k: nat)
    ensures At(Rest(plan, j), k) == At(plan, j + k) && Rest(Rest(plan, j), k) == Rest(plan, j + k)
  {
  }

  /** A directory and the file contents behind it, and what will disturb the coming system calls. */
  class Disk {
    var names: map<Name, Inode>
    var content: map<Inode, Bytes>
    var plan: seq<Call>

    /** Calls that failed or killed the process, and names whose removal failed. */
    ghost var failures: nat
    ghost var stuck: set<Name>

    /** Every name points to a file. */
    ghost predicate Valid()
      reads this
    {
      forall n :: n in names ==> names[n] in content
    }

    /** A call: undisturbed, or failing or dying without effect. */
    method Attempt() returns (c: Call)
      modifies this`plan, this`failures
      ensures c == At(old(plan), 0) && plan == Rest(old(plan), 1)
      ensures failures == old(failures) + if c == Ok then 0 else 1
    {
      c := At(plan, 0);
      plan := Rest(plan, 1);
      if c != Ok {
        failures := failures + 1;
      }
    }

    method Remove(n: Name) returns (c: Call)
      requires Valid()
      modifies this`names, this`plan, this`failures, this`stuck
      ensures Valid()
      ensures plan == Rest(old(plan), 1)
      ensures c == if At(old(plan), 0) != Ok then At(old(plan), 0) else if n in old(names) then Ok else NotExist
      ensures names == if c == Ok then old(names) - {n} else old(names)
      ensures stuck == old(stuck) + if n in names then {n} else {}
      ensures failures == old(failures) + if c in {Ok, NotExist} then 0 else 1
    {
      c := Attempt();
      if c == Ok {
        if n in names {
          names := names - {n};
        } else {
          c := NotExist;
        }
      }
      stuck := stuck + if n in names then {n} else {};
    }

    /** A hard link fails if the new name exists. */
    method Link(n: Name, m: Name) returns (c: Call)
      requires Valid()
      modifies this`names, this`plan, this`failures
      ensures Valid()
      ensures plan == Rest(old(plan), 1)
      ensures c == if At(old(plan), 0) != Ok then At(old(plan), 0)
                   else if n in old(names) && m !in old(names) then Ok else Failed
      ensures names == if c == Ok then old(names)[m := old(names)[n]] else old(names)
      ensures failures == old(failures) + if At(old(plan), 0) == Ok then 0 else 1
    {
      c := Attempt();
      if c == Ok {
        if n in names && m !in names {
          names := names[m := names[n]];
        } else {
          c := Failed;
        }
      }
    }

    /** POSIX rename: atomic, and a no-op between two links of one inode. */
    method Rename(n: Name, m: Name) returns (c: Call)
      requires Valid() && n != m
      modifies this`names, this`plan, this`failures
      ensures Valid()
      ensures plan == Rest(old(plan), 1)
      ensures c == if At(old(plan), 0) != Ok then At(old(plan), 0) else if n in old(names) then Ok else Failed
      ensures names == if c == Ok then Renamed(old(names), n, m) else old(names)
      ensures failures == old(failures) + if At(old(plan), 0) == Ok then 0 else 1
    {
      c := Attempt();
      if c == Ok {
        if n !in names {
          c := Failed;
        } else if m !in names || names[m] != names[n] {
          names := names[m := names[n]] - {n};
        }
      }
    }

    method Stat(n: Name) returns (c: Call)
      modifies this`plan, this`failures
      ensures plan == Rest(old(plan), 1)
      ensures c == if At(old(plan), 0) != Ok then At(old(plan), 0) else if n in names then Ok else NotExist
      ensures failures == old(failures) + if c in {Ok, NotExist} then 0 else 1
    {
      c := Attempt();
      if c == Ok && n !in names {
        c := NotExist;
      }
    }

    /** A new empty file under a temporary name that was free. */
    method CreateTemp() returns (c: Call, t: Name)
      requires Valid()
      modifies this`names, this`content, this`plan, this`failures
      ensures c == At(old(plan), 0) && plan == Rest(old(plan), 1)
      ensures Valid() && t.Temp? && failures == old(failures) + if c == Ok then 0 else 1
      ensures c == Ok ==> t !in old(names) && t in names && names == old(names)[t := names[t]]
                          && names[t] !in old(content) && content == old(content)[names[t] := []]
      ensures c != Ok ==> names == old(names) && content == old(content)
    {
      t := Temp(0);
      c := Attempt();
      if c == Ok {
        t := FreeName(names);
        var i := FreeInode(content);
        content := content[i := []];
        names := names[t := i];
      }
    }

    /** Truncate and write: dying or failing part way leaves some prefix. */
    method Write(t: Name, data: Bytes) returns (c: Call)
      requires Valid() && t in names
      modifies this`content, this`plan, this`failures
      ensures Valid() && failures == old(failures) + if c == Ok then 0 else 1
      ensures content == old(content)[names[t] := content[names[t]]]
      ensures c == Ok ==> content[names[t]] == data
    {
      c := Attempt();
      if c != Ok {
        return;
      }
      content := content[names[t] := []];
      var written := 0;
      while written < |data|
        invariant written <= |data| && Valid() && c == Ok && failures == old(failures)
        invariant content == old(content)[names[t] := data[..written]]
      {
        c := Attempt();
        if c != Ok {
          return;
        }
        var more: nat :| 0 < more <= |data| - written;
        written := written + more;
        content := content[names[t] := data[..written]];
      }
      assert data[..written] == data;
    }
  }

  ghost function Renamed(names: map<Name, Inode>, n: Name, m: Name): (r: map<Name, Inode>)
    requires n in names
  {
    if m in names && names[m] == names[n] then names else names[m := names[n]] - {n}
  }

  function TempIndex(n: Name): (k: nat)
  {
    if n.Temp? then n.k + 1 else 0
  }

  /** Some temporary name is always free. */
  method FreeName(names: map<Name, Inode>) returns (t: Name)
    ensures t.Temp? && t !in names
  {
    var rest := names.Keys;
    var bound := 0;
    while rest != {}
      invariant rest <= names.Keys
      invariant forall n :: n in names && n !in rest ==> TempIndex(n) <= bound
      decreases rest
    {
      var n :| n in rest;
      if TempIndex(n) > bound {
        bound := TempIndex(n);
      }
      rest := rest - {n};
    }
    t := Temp(bound);
    assert TempIndex(t) == bound + 1;
  }

  method FreeInode(content: map<Inode, Bytes>) returns (i: Inode)
    ensures i !in content
  {
    var rest := content.Keys;
    i := 0;
    while rest != {}
      invariant rest <= content.Keys
      invariant forall n :: n in content && n !in rest ==> n < i
      decreases rest
    {
      var n :| n in rest;
      if n >= i {
        i := n + 1;
      }
      rest := rest - {n};
    }
  }

  // ---- the checksum file

  /** ASCII lower case. */
  function Lower(s: string): (r: string)
  {
    if s == "" then "" else [if 'A' <= s[0] <= 'Z' then s[0] - 'A' + 'a' else s[0]] + Lower(s[1..])
  }

  function StripStar(s: string): (r: string)
  {
    if |s| > 0 && s[0] == '*' then s[1..] else s
  }

  /** Only the upper-case letters change, each to the lower-case letter 32 places on. */
  lemma {:induction false} LowerAt(s: string, i: nat)
    requires i < |s|
    ensures |Lower(s)| == |s|
    ensures Lower(s)[i] as int == s[i] as int + if 65 <= s[i] as int <= 90 then 32 else 0
  {
    LowerLength(s[1..]);
    if i > 0 {
      LowerAt(s[1..], i - 1);
    }
  }

  lemma {:induction false} LowerLength(s: string)
    ensures |Lower(s)| == |s|
  {
    if s != "" {
      LowerLength(s[1..]);
    }
  }

  /** A line lists the asset under its name, with or without the mark of a binary file before it. */
  lemma ListsIff(fields: seq<string>, asset: string)
    ensures Lists(fields, asset) <==>
      |fields| == 2 && (fields[1] == ['*'] + asset || (fields[1] == asset && (asset == "" || asset[0] != '*')))
  {
    if |fields| == 2 && fields[1] != "" && fields[1][0] == '*' {
      assert fields[1] == ['*'] + fields[1][1..];
      assert (['*'] + asset)[1..] == asset;
    }
  }

  /** A line, split into fields, that lists the asset. */
  predicate Lists(fields: seq<string>, asset: string)
  {
    |fields| == 2 && StripStar(fields[1]) == asset
  }

  /** The digest of the first line that lists the asset. */
  ghost predicate IsExpectedHash(lines: seq<seq<string>>, asset: string, want: string)
  {
    exists i :: 0 <= i < |lines| && Lists(lines[i], asset) && want == Lower(lines[i][0])
      && forall j :: 0 <= j < i ==> !Lists(lines[j], asset)
  }

  method ExpectedHash(lines: seq<seq<string>>, asset: string) returns (r: Option<string>)
    ensures r.Some? ==> IsExpectedHash(lines, asset, r.value)
    ensures r.None? ==> forall i :: 0 <= i < |lines| ==> !Lists(lines[i], asset)
  {
    for i := 0 to |lines|
      invariant forall j :: 0 <= j < i ==> !Lists(lines[j], asset)
    {
      if |lines[i]| == 2 {
        if StripStar(lines[i][1]) == asset {
          return Some(Lower(lines[i][0]));
        }
      }
    }
    return None;
  }

  // ---- one update

  /** What the network offers: the release, the fields of its checksum file and the asset's bytes.
      Whatever cannot be fetched is missing. */
  datatype Release = Release(tag: string, hasAsset: bool, sums: Option<seq<seq<string>>>, body: Option<Bytes>)

  /** The bytes match the checksum the release publishes for the asset. */
  ghost predicate Verified(hash: Bytes -> string, release: Release, asset: string, data: Bytes)
  {
    release.sums.Some? && IsExpectedHash(release.sums.value, asset, hash(data))
  }

  /** An intact release: its checksum file lists the asset and the bytes it serves match. */
  ghost predicate Intact(hash: Bytes -> string, release: Release, asset: string)
  {
    release.body.Some? && Verified(hash, release, asset, release.body.value)
  }

  lemma ExpectedHashUnique(lines: seq<seq<string>>, asset: string, a: string, b: string)
    requires IsExpectedHash(lines, asset, a) && IsExpectedHash(lines, asset, b)
    ensures a == b
  {
    var i :| 0 <= i < |lines| && Lists(lines[i], asset) && a == Lower(lines[i][0])
      && forall j :: 0 <= j < i ==> !Lists(lines[j], asset);
    var k :| 0 <= k < |lines| && Lists(lines[k], asset) && b == Lower(lines[k][0])
      && forall j :: 0 <= j < k ==> !Lists(lines[j], asset);
    assert i == k;
  }

  /** Only the temporary file is written.  When no call fails, success means exactly that the release is intact. */
  method DownloadAndVerify(disk: Disk, hash: Bytes -> string, release: Release, asset: string, t: Name)
    returns (o: Outcome)
    requires disk.Valid() && t in disk.names
    modifies disk`content, disk`plan, disk`failures
    ensures disk.failures >= old(disk.failures) && (o == Dead ==> disk.failures > old(disk.failures))
    ensures disk.failures == old(disk.failures) ==> (o == Done <==> Intact(hash, release, asset))
    ensures disk.Valid() && disk.content == old(disk.content)[disk.names[t] := disk.content[disk.names[t]]]
    ensures o == Done ==> Verified(hash, release, asset, disk.content[disk.names[t]])
  {
    if release.sums.None? {
      return Error;
    }
    var want := ExpectedHash(release.sums.value, asset);
    if want.None? || release.body.None? {
      return Error;
    }
    var c := disk.Write(t, release.body.value);
    if c != Ok {
      return if c == Died then Dead else Error;
    }
    c := disk.Attempt(); // reading the file back
    if c != Ok {
      return if c == Died then Dead else Error;
    }
    if hash(disk.content[disk.names[t]]) != want.value {
      if Intact(hash, release, asset) {
        ExpectedHashUnique(release.sums.value, asset, want.value, hash(release.body.value));
      }
      return Error;
    }
    return Done;
  }

  /** Best-effort removal on the way out. */
  method CleanUp(disk: Disk, t: Name, o: Outcome) returns (r: Outcome)
    requires disk.Valid() && t.Temp?
    modifies disk`names, disk`plan, disk`failures, disk`stuck
    ensures disk.Valid() && disk.plan == Rest(old(disk.plan), 1)
    ensures r == if At(old(disk.plan), 0) == Died then Dead else o
    ensures disk.names == if At(old(disk.plan), 0) == Ok then old(disk.names) - {t} else old(disk.names)
    ensures old(disk.stuck) <= disk.stuck && (t in disk.names ==> t in disk.stuck)
    ensures disk.failures == old(disk.failures) + if At(old(disk.plan), 0) == Ok then 0 else 1
  {
    var c := disk.Remove(t);
    r := if c == Died then Dead else o;
  }

  /** `.prev` was kept, dropped, or linked to the running binary. */
  ghost predicate PrevTouched(before: map<Name, Inode>, after: map<Name, Inode>)
    requires Exec in after
  {
    || Prev !in after
    || (Prev in before && after[Prev] == before[Prev])
    || after[Prev] == after[Exec]
  }

  /** The first two steps: drop a stale `.prev`, link the running binary there. */
  method Preserve(disk: Disk) returns (c: Call)
    requires disk.Valid() && Exec in disk.names
    modifies disk`names, disk`plan, disk`failures, disk`stuck
    ensures disk.Valid() && old(disk.stuck) <= disk.stuck
    ensures var p := old(disk.plan);
      && c == (if At(p, 0) != Ok then At(p, 0) else At(p, 1))
      && disk.plan == Rest(p, if At(p, 0) != Ok then 1 else 2)
      && disk.names == (if At(p, 0) != Ok then old(disk.names)
                        else if At(p, 1) != Ok then old(disk.names) - {Prev}
                        else old(disk.names)[Prev := old(disk.names)[Exec]])
      && disk.failures == old(disk.failures) + if c == Ok then 0 else 1
  {
    RestAt(disk.plan, 1, 0);
    RestAt(disk.plan, 1, 1);
    c := disk.Remove(Prev);
    if c != Ok && c != NotExist {
      return;
    }
    assert disk.names - {Prev} == disk.names;
    assert (old(disk.names) - {Prev})[Prev := old(disk.names)[Exec]] == old(disk.names)[Prev := old(disk.names)[Exec]];
    c := disk.Link(Exec, Prev);
  }

  /** The last two: make the new file executable and rename it over the old one. */
  method Install(disk: Disk, t: Name) returns (c: Call)
    requires disk.Valid() && t.Temp? && t in disk.names && Exec in disk.names && disk.names[t] != disk.names[Exec]
    modifies disk`names, disk`plan, disk`failures
    ensures disk.Valid()
    ensures var p := old(disk.plan);
      && c == (if At(p, 0) != Ok then At(p, 0) else At(p, 1))
      && disk.plan == Rest(p, if At(p, 0) != Ok then 1 else 2)
      && disk.names == (if c == Ok then old(disk.names)[Exec := old(disk.names)[t]] - {t} else old(disk.names))
      && disk.failures == old(disk.failures) + if c == Ok then 0 else 1
  {
    RestAt(disk.plan, 1, 0);
    RestAt(disk.plan, 1, 1);
    c := disk.Attempt(); // chmod
    if c != Ok {
      return;
    }
    c := disk.Rename(t, Exec);
  }

  /** The first of the four steps that a plan disturbs, or 4. */
  function Stopped(plan: seq<Call>): (k: nat)
    ensures k <= 4 && (k < 4 ==> At(plan, k) != Ok) && forall i :: 0 <= i < k ==> At(plan, i) == Ok
  {
    if At(plan, 0) != Ok then 0
    else if At(plan, 1) != Ok then 1
    else if At(plan, 2) != Ok then 2
    else if At(plan, 3) != Ok then 3 else 4
  }

  /** Before the rename nothing but `.prev` has changed; after it everything has.  Which steps take
      effect is decided by the first calls that are disturbed: an update stopped between the link and
      the rename leaves `.prev` a second link to the running binary. */
  method AtomicReplace(disk: Disk, t: Name) returns (o: Outcome, ghost linked: bool, ghost swapped: bool)
    requires disk.Valid() && t.Temp? && t in disk.names && Exec in disk.names
    requires disk.names[t] != disk.names[Exec]
    modifies disk`names, disk`plan, disk`failures, disk`stuck
    ensures disk.Valid() && Exec in disk.names
    ensures linked <==> Stopped(old(disk.plan)) >= 2
    ensures swapped <==> Stopped(old(disk.plan)) == 4
    ensures var p, k := old(disk.plan), Stopped(old(disk.plan));
      && (k < 4 && At(p, k) == Died ==> o == Dead)
      && (k < 4 && At(p, k) == Failed ==>
            o == (if At(p, k + 1) == Died then Dead else Error) && disk.plan == Rest(p, k + 2))
      && (k == 4 ==> o == (if At(p, 4) == Died then Dead else Done) && disk.plan == Rest(p, 5))
    ensures forall n: Name :: n.Temp? && n != t ==> (n in disk.names <==> n in old(disk.names))
    ensures o != Dead && t in disk.names ==> t in disk.stuck
    ensures old(disk.stuck) <= disk.stuck
    ensures disk.failures >= old(disk.failures) && (disk.failures == old(disk.failures) ==> o == Done)
    ensures o == Error ==> !swapped
    ensures o == Done ==> swapped
    ensures !swapped ==> disk.names[Exec] == old(disk.names)[Exec] && PrevTouched(old(disk.names), disk.names)
    ensures linked && !swapped ==> Prev in disk.names && disk.names[Prev] == disk.names[Exec]
    ensures swapped ==> t !in disk.names && disk.names[Exec] == old(disk.names)[t]
                        && Prev in disk.names && disk.names[Prev] == old(disk.names)[Exec]
  {
    ghost var p := disk.plan;
    forall j: nat, k: nat ensures At(Rest(p, j), k) == At(p, j + k) && Rest(Rest(p, j), k) == Rest(p, j + k) {
      RestAt(p, j, k);
    }
    hide At, Rest;
    linked, swapped := false, false;
    var c := Preserve(disk);
    if c == Ok {
      linked := true;
      c := Install(disk, t);
      swapped := c == Ok;
    }
    if c == Died {
      return Dead, linked, swapped;
    }
    o := CleanUp(disk, t, if c == Ok then Done else Error);
  }

  /** Old files keep their bytes. */
  ghost predicate KeepsContent(before: map<Inode, Bytes>, after: map<Inode, Bytes>)
  {
    forall i :: i in before ==> i in after && after[i] == before[i]
  }

  /** A temporary file that was not there before is one whose removal failed. */
  ghost predicate NoLeak(before: map<Name, Inode>, after: map<Name, Inode>, stuck: set<Name>)
  {
    forall n: Name :: n.Temp? && n in after && n !in before ==> n in stuck
  }

  /** A release other than the running version that can be installed. */
  ghost predicate Installable(hash: Bytes -> string, currentVersion: string, release: Release, asset: string)
  {
    !UpToDate(currentVersion, Some(release)) && release.hasAsset && Intact(hash, release, asset)
  }

  ghost predicate UpToDate(currentVersion: string, latest: Option<Release>)
  {
    latest.Some? && currentVersion == latest.value.tag != "dev"
  }

  /** Crash safety: however calls fail and wherever the process dies, the executable is the old file
      or a file whose bytes passed the checksum, and then `.prev` names the old file.  A process that
      lives leaves no temporary file behind unless removing it failed; when no call fails, an update
      fails only for want of an intact release. */
  method Run(disk: Disk, hash: Bytes -> string, currentVersion: string, latest: Option<Release>, asset: string)
    returns (o: Outcome, ghost swapped: bool)
    requires disk.Valid() && Exec in disk.names
    modifies disk
    ensures disk.Valid() && Exec in disk.names && KeepsContent(old(disk.content), disk.content)
    ensures !swapped ==> disk.names[Exec] == old(disk.names)[Exec] && PrevTouched(old(disk.names), disk.names)
    ensures swapped ==>
      && latest.Some? && Verified(hash, latest.value, asset, disk.content[disk.names[Exec]])
      && Prev in disk.names && disk.names[Prev] == old(disk.names)[Exec]
      && disk.names[Exec] != old(disk.names)[Exec]
    ensures o == Done ==> swapped || UpToDate(currentVersion, latest)
    ensures o != Dead ==> NoLeak(old(disk.names), disk.names, disk.stuck)
    ensures disk.failures >= old(disk.failures) && (o == Dead ==> disk.failures > old(disk.failures))
    ensures disk.failures == old(disk.failures) ==>
      (o == Done <==>
        || UpToDate(currentVersion, latest)
        || (latest.Some? && latest.value.hasAsset && Intact(hash, latest.value, asset)))
  {
    hide At, Rest, Stopped, IsExpectedHash;
    swapped := false;
    if latest.None? {
      return Error, false;
    }
    var release := latest.value;
    if currentVersion != "dev" && currentVersion == release.tag {
      return Done, false;
    }
    if !release.hasAsset || release.sums.None? {
      return Error, false;
    }
    var c, t := disk.CreateTemp();
    if c != Ok {
      return if c == Died then Dead else Error, false;
    }
    o := DownloadAndVerify(disk, hash, release, asset, t);
    if o == Dead {
      return;
    }
    if o == Error {
      o := CleanUp(disk, t, Error);
      return;
    }
    ghost var linked;
    o, linked, swapped := AtomicReplace(disk, t);
    if o != Done {
      return;
    }
    o := Restart(disk);
  }

  /** Restarting the service: no unit counts as success, a failure is reported. */
  method Restart(disk: Disk) returns (o: Outcome)
    modifies disk`plan, disk`failures
    ensures old(disk.plan) == [] ==> o == Done && disk.plan == []
    ensures disk.failures >= old(disk.failures)
    ensures if o == Done then disk.failures == old(disk.failures) else disk.failures > old(disk.failures)
  {
    var c := disk.Attempt();
    o := if c == Died then Dead else if c == Ok then Done else Error;
  }

  method CheckWritable(disk: Disk) returns (o: Outcome)
    requires disk.Valid()
    modifies disk
    ensures old(disk.plan) == [] ==> disk.plan == [] && disk.failures == old(disk.failures)
    ensures o != Dead ==> NoLeak(old(disk.names), disk.names, disk.stuck)
    ensures disk.failures >= old(disk.failures) && (o != Done ==> disk.failures > old(disk.failures))
    ensures disk.Valid() && KeepsContent(old(disk.content), disk.content)
    ensures forall n: Name :: !n.Temp? ==> (n in disk.names <==> n in old(disk.names))
    ensures forall n: Name :: !n.Temp? && n in disk.names ==> disk.names[n] == old(disk.names)[n]
  {
    var c, t := disk.CreateTemp();
    if c != Ok {
      return if c == Died then Dead else Error;
    }
    o := CleanUp(disk, t, Done);
  }

  /** Rolling back puts the preserved file in place exactly when there is one other than the running
      binary; a `.prev` that is a second link to the running binary is left as it is, because
      renaming between two links of one file does nothing. */
  method Rollback(disk: Disk) returns (o: Outcome, ghost renamed: bool)
    requires disk.Valid() && Exec in disk.names
    modifies disk
    ensures disk.Valid() && Exec in disk.names && KeepsContent(old(disk.content), disk.content)
    ensures old(disk.plan) == [] ==> disk.plan == [] && disk.failures == old(disk.failures)
    ensures o != Dead ==> NoLeak(old(disk.names), disk.names, disk.stuck)
    ensures disk.failures >= old(disk.failures) && (o == Dead ==> disk.failures > old(disk.failures))
    ensures disk.failures == old(disk.failures) ==> (o == Done <==> Prev in old(disk.names))
    ensures Prev !in old(disk.names) ==> o != Done
    ensures o == Done ==> renamed
    ensures renamed ==> Prev in old(disk.names) && disk.names[Exec] == old(disk.names)[Prev]
    ensures renamed ==> (Prev in disk.names <==> old(disk.names)[Prev] == old(disk.names)[Exec])
    ensures !renamed ==> disk.names[Exec] == old(disk.names)[Exec]
    ensures !renamed ==> (Prev in disk.names <==> Prev in old(disk.names))
    ensures Prev in disk.names ==> Prev in old(disk.names) && disk.names[Prev] == old(disk.names)[Prev]
  {
    renamed := false;
    var c := disk.Stat(Prev);
    if c != Ok {
      return if c == Died then Dead else Error, false;
    }
    o := CheckWritable(disk);
    if o != Done {
      return;
    }
    c := disk.Rename(Prev, Exec);
    if c != Ok {
      return if c == Died then Dead else Error, false;
    }
    renamed := true;
    o := Restart(disk);
  }

  /** Update, roll back, roll back again: whenever the first two took effect, also if restarting the
      service failed after them, the exact old binary is back and the last step fails. */
  method UpdateThenRollbackTwice(disk: Disk, hash: Bytes -> string, currentVersion: string, latest: Option<Release>,
                                 asset: string)
    returns (o1: Outcome, o2: Outcome, o3: Outcome, ghost swapped: bool, ghost renamed: bool)
    requires disk.Valid() && Exec in disk.names
    modifies disk
    ensures disk.Valid() && Exec in disk.names
    ensures swapped && renamed ==>
      && o3 != Done
      && disk.names[Exec] == old(disk.names)[Exec]
      && disk.content[disk.names[Exec]] == old(disk.content[disk.names[Exec]])
    ensures o1 == Done && !UpToDate(currentVersion, latest) ==> swapped
    ensures o1 == Done && o2 == Done ==> renamed
    ensures disk.failures == old(disk.failures) && latest.Some?
      && Installable(hash, currentVersion, latest.value, asset)
      ==> o1 == Done && o2 == Done
  {
    o2, o3, renamed := Dead, Dead, false;
    o1, swapped := Run(disk, hash, currentVersion, latest, asset);
    if o1 != Dead {
      o2, renamed := Rollback(disk);
      if o2 != Dead {
        ghost var again;
        o3, again := Rollback(disk);
      }
    }
  }

  /** Two rollbacks in a row, with no failing call and something to roll back to: the first succeeds,
      and the second does exactly if `.prev` was a second link to the running binary, which then
      keeps both names. */
  method RollbackTwice(disk: Disk) returns (o1: Outcome, o2: Outcome)
    requires disk.Valid() && Exec in disk.names && Prev in disk.names
    modifies disk
    ensures disk.Valid() && Exec in disk.names
    ensures disk.failures == old(disk.failures) ==> o1 == Done
    ensures disk.failures == old(disk.failures) ==> (o2 == Done <==> old(disk.names[Prev] == disk.names[Exec]))
    ensures old(disk.names[Prev] == disk.names[Exec]) ==>
      Prev in disk.names && disk.names[Prev] == disk.names[Exec] == old(disk.names)[Exec]
    ensures old(disk.plan) == [] ==> disk.failures == old(disk.failures)
  {
    ghost var renamed;
    o1, renamed := Rollback(disk);
    o2, renamed := Rollback(disk);
  }

  /** An update that fails at chmod, and only there: it leaves `.prev` linked to the running binary, and
      then two rollbacks in a row succeed and change nothing. */
  method FailedUpdateThenRollbackTwice(disk: Disk, t: Name) returns (o: Outcome, o1: Outcome, o2: Outcome)
    requires disk.Valid() && t.Temp? && t in disk.names && Exec in disk.names && disk.names[t] != disk.names[Exec]
    requires disk.plan == [Ok, Ok, Failed]
    modifies disk
    ensures disk.Valid() && o == Error && o1 == Done && o2 == Done
    ensures Exec in disk.names && disk.names[Exec] == old(disk.names)[Exec]
    ensures Prev in disk.names && disk.names[Prev] == disk.names[Exec]
  {
    ghost var linked, swapped;
    o, linked, swapped := AtomicReplace(disk, t);
    o1, o2 := RollbackTwice(disk);
  }

  // ---- any sequence of operations

  datatype Step = Update(currentVersion: string, latest: Option<Release>) | Back

  /** What a user sees: the installed bytes, the bytes a rollback would bring, and whether those are
      the same file. */
  datatype View = View(cur: Bytes, prev: Option<Bytes>, linked: bool)

  ghost function ViewOf(names: map<Name, Inode>, content: map<Inode, Bytes>): (v: View)
    requires Exec in names && forall n :: n in names ==> names[n] in content
  {
    View(content[names[Exec]],
         if Prev in names then Some(content[names[Prev]]) else None,
         Prev in names && names[Prev] == names[Exec])
  }

  /** The two-slot history: how one operation, finished or cut short, may change the view. */
  ghost predicate Allowed(hash: Bytes -> string, asset: string, step: Step, v: View, w: View)
  {
    match step
    case Update(_, latest) =>
      || (w.cur == v.cur && w.prev == v.prev && w.linked == v.linked)
      || (w.cur == v.cur && w.prev.None? && !w.linked)
      || (w.cur == v.cur && w.prev == Some(v.cur) && w.linked)
      || (latest.Some? && Verified(hash, latest.value, asset, w.cur) && w.prev == Some(v.cur) && !w.linked)
    case Back =>
      || w == v
      || (v.prev.Some? && !v.linked && w == View(v.prev.value, None, false))
  }

  /** A chain of allowed views. */
  ghost predicate History(hash: Bytes -> string, asset: string, steps: seq<Step>, views: seq<View>)
  {
    |views| == |steps| + 1
    && forall i :: 0 <= i < |steps| ==> Allowed(hash, asset, steps[i], views[i], views[i + 1])
  }

  /** Every run of updates and rollbacks, with arbitrary failures and deaths, refines the history. */
  method Session(disk: Disk, hash: Bytes -> string, asset: string, steps: seq<Step>) returns (ghost views: seq<View>)
    requires disk.Valid() && Exec in disk.names
    modifies disk
    ensures disk.Valid() && Exec in disk.names
    ensures History(hash, asset, steps, views)
    ensures views[0] == old(ViewOf(disk.names, disk.content))
    ensures views[|steps|] == ViewOf(disk.names, disk.content)
  {
    views := [ViewOf(disk.names, disk.content)];
    for i := 0 to |steps|
      invariant disk.Valid() && Exec in disk.names
      invariant History(hash, asset, steps[..i], views)
      invariant views[0] == old(ViewOf(disk.names, disk.content))
      invariant views[i] == ViewOf(disk.names, disk.content)
    {
      match steps[i] {
        case Update(currentVersion, latest) =>
          var o, swapped := Run(disk, hash, currentVersion, latest, asset);
        case Back =>
          var o, renamed := Rollback(disk);
      }
      views := views + [ViewOf(disk.names, disk.content)];
    }
    assert steps[..|steps|] == steps;
  }

  /** Provenance: all bytes ever installed or kept were there at the start or passed a checksum. */
  ghost predicate Trusted(hash: Bytes -> string, asset: string, steps: seq<Step>, start: View, data: Bytes)
  {
    || data == start.cur
    || start.prev == Some(data)
    || exists s :: s in steps && s.Update? && s.latest.Some? && Verified(hash, s.latest.value, asset, data)
  }

  lemma {:induction false} HistoryTrusted(hash: Bytes -> string, asset: string, steps: seq<Step>, views: seq<View>,
      i: nat)
    requires History(hash, asset, steps, views) && i <= |steps|
    ensures Trusted(hash, asset, steps, views[0], views[i].cur)
    ensures views[i].prev.Some? ==> Trusted(hash, asset, steps, views[0], views[i].prev.value)
  {
    if i > 0 {
      HistoryTrusted(hash, asset, steps, views, i - 1);
      assert Allowed(hash, asset, steps[i - 1], views[i - 1], views[i]);
      assert steps[i - 1] in steps;
    }
  }
}
